/** Importing one activity file: which activity group the sport belongs to,
    the attributes defined for the import, and the pass over the file's
    records that loads record data and opens and closes the activity's
    timespans at timer events. */
module ActivityReader {
  import opened Wrappers
  import opened Text
  import opened OrderedMaps

  /** The define key that names the kit used. */
  const Kit: string := "kit"
  /** The lookup key consulted when nothing more specific matches. */
  const Default: string := "default"
  /** The sport FIT files give when the device records none in particular. */
  const GenericSport: string := "generic"

  /* ---------------------------------------------------------------------
     Activity group resolution
     --------------------------------------------------------------------- */

  /** The sport-to-activity lookup: either the name of an activity group, or
      a table whose keys are sports, define keys (mapping each of their
      values to a further lookup) and `Default`. */
  datatype Lookup = Group(name: string) | Table(entries: map<string, Lookup>)

  datatype GroupError =
    /** The group the lookup names does not exist. */
    | UndefinedGroup(name: string)
    /** Nothing matched for the generic sport: the file is skipped. */
    | Ignored(sport: string)
    /** Nothing matched for any other sport: the import fails. */
    | NoGroup(sport: string)

  /** `key in lookup and value in lookup[key]`, where the entry under the
      key is itself a table. */
  predicate Hit(entries: map<string, Lookup>, key: string, value: string) {
    key in entries && entries[key].Table? && value in entries[key].entries
  }

  /** The first of `values` that selects an entry under `key`. */
  function ValueMatch(entries: map<string, Lookup>, key: string, values: seq<string>): (r: Option<string>)
    ensures r.None? <==> forall j :: 0 <= j < |values| ==> !Hit(entries, key, values[j])
    ensures r.Some? ==> exists j :: 0 <= j < |values| && values[j] == r.value && Hit(entries, key, values[j])
                                    && forall q :: 0 <= q < j ==> !Hit(entries, key, values[q])
  {
    if values == [] then None
    else if Hit(entries, key, values[0]) then Some(values[0])
    else
      var r := ValueMatch(entries, key, values[1..]);
      assert r.Some? ==> exists j :: 1 <= j < |values| && values[j] == r.value && Hit(entries, key, values[j])
                                      && forall q :: 0 <= q < j ==> !Hit(entries, key, values[q]) by {
        if r.Some? {
          var j :| 0 <= j < |values[1..]| && values[1..][j] == r.value && Hit(entries, key, values[1..][j])
                   && forall q :: 0 <= q < j ==> !Hit(entries, key, values[1..][q]);
          assert forall q :: 0 <= q < j + 1 ==> !Hit(entries, key, values[q]) by {
            forall q | 0 <= q < j + 1 ensures !Hit(entries, key, values[q]) {
              if q > 0 { assert values[q] == values[1..][q - 1]; }
            }
          }
        }
      }
      r
  }

  /** The comma-separated values of the i-th define entry. */
  function DefineValues(define: Dict<string, string>, i: nat): seq<string>
    requires i < |define|
  {
    Split(define[i].1, ',')
  }

  /** The define loop: entries in define order, and within one entry its
      comma-separated values in order; the first (key, value) that selects a
      sub-lookup wins. */
  function DefineMatch(entries: map<string, Lookup>, define: Dict<string, string>): (r: Option<(string, string)>)
    ensures r.Some? ==> Hit(entries, r.value.0, r.value.1)
    decreases |define|
  {
    if define == [] then None
    else
      match ValueMatch(entries, define[0].0, Split(define[0].1, ','))
      case Some(v) => Some((define[0].0, v))
      case None => DefineMatch(entries, define[1..])
  }

  /** The define loop finds nothing exactly when no value of any entry
      selects a sub-lookup. */
  lemma {:induction false} DefineMatchNone(entries: map<string, Lookup>, define: Dict<string, string>)
    ensures DefineMatch(entries, define).None? <==>
      forall i, j :: 0 <= i < |define| && 0 <= j < |DefineValues(define, i)| ==>
        !Hit(entries, define[i].0, DefineValues(define, i)[j])
    decreases |define|
  {
    if define != [] {
      DefineMatchNone(entries, define[1..]);
      assert DefineValues(define, 0) == Split(define[0].1, ',');
      var first := ValueMatch(entries, define[0].0, Split(define[0].1, ','));
      if first.Some? {
        var j :| 0 <= j < |DefineValues(define, 0)| && DefineValues(define, 0)[j] == first.value
                 && Hit(entries, define[0].0, DefineValues(define, 0)[j]);
      } else {
        forall i, j | 0 <= i < |define| && 0 <= j < |DefineValues(define, i)|
          ensures DefineMatch(entries, define[1..]).None? ==> !Hit(entries, define[i].0, DefineValues(define, i)[j])
        {
          if i > 0 {
            assert DefineValues(define, i) == DefineValues(define[1..], i - 1);
            assert define[i] == define[1..][i - 1];
          }
        }
        if DefineMatch(entries, define[1..]).Some? {
          var i, j :| 0 <= i < |define[1..]| && 0 <= j < |DefineValues(define[1..], i)|
                      && Hit(entries, define[1..][i].0, DefineValues(define[1..], i)[j]);
          assert DefineValues(define, i + 1) == DefineValues(define[1..], i);
        }
      }
    }
  }

  /** No value of the define entries before the i-th selects a sub-lookup. */
  ghost predicate NoHitBefore(entries: map<string, Lookup>, define: Dict<string, string>, i: nat) {
    i <= |define| &&
    forall p, q :: 0 <= p < i && 0 <= q < |DefineValues(define, p)| ==> !Hit(entries, define[p].0, DefineValues(define, p)[q])
  }

  /** (k, v) is value j of define entry i, and no earlier value hits. */
  ghost predicate FirstHitAt(entries: map<string, Lookup>, define: Dict<string, string>, i: nat, j: nat, k: string, v: string) {
    && i < |define| && j < |DefineValues(define, i)|
    && define[i].0 == k && DefineValues(define, i)[j] == v
    && NoHitBefore(entries, define, i)
    && forall q :: 0 <= q < j ==> !Hit(entries, k, DefineValues(define, i)[q])
  }

  lemma FirstHitShift(entries: map<string, Lookup>, define: Dict<string, string>, i: nat, j: nat, k: string, v: string)
    requires |define| > 0 && FirstHitAt(entries, define[1..], i, j, k, v)
    requires forall q :: 0 <= q < |DefineValues(define, 0)| ==> !Hit(entries, define[0].0, DefineValues(define, 0)[q])
    ensures FirstHitAt(entries, define, i + 1, j, k, v)
  {
    assert DefineValues(define[1..], i) == DefineValues(define, i + 1);
    forall p, q | 0 <= p < i + 1 && 0 <= q < |DefineValues(define, p)|
      ensures !Hit(entries, define[p].0, DefineValues(define, p)[q])
    {
      if p > 0 {
        assert DefineValues(define, p) == DefineValues(define[1..], p - 1);
        assert define[p] == define[1..][p - 1];
      }
    }
  }

  /** What the define loop finds is the first hit in define order: no value
      of an earlier entry, and no earlier value of the same entry, hits. */
  lemma {:induction false} DefineMatchFirst(entries: map<string, Lookup>, define: Dict<string, string>)
    requires DefineMatch(entries, define).Some?
    ensures var (k, v) := DefineMatch(entries, define).value;
      exists i, j :: FirstHitAt(entries, define, i, j, k, v)
    decreases |define|
  {
    var (k, v) := DefineMatch(entries, define).value;
    var values := DefineValues(define, 0);
    if ValueMatch(entries, define[0].0, values).Some? {
      var j :| 0 <= j < |values| && values[j] == v && Hit(entries, k, values[j])
               && forall q :: 0 <= q < j ==> !Hit(entries, k, values[q]);
      assert FirstHitAt(entries, define, 0, j, k, v);
    } else {
      DefineMatchFirst(entries, define[1..]);
      var i, j :| FirstHitAt(entries, define[1..], i, j, k, v);
      FirstHitShift(entries, define, i, j, k, v);
    }
  }

  /** `_activity_group`: a group name resolves to itself when the group
      exists; a table is searched by the sport first, then by the define
      entries, then by `Default`, and the sub-lookup found is resolved in
      turn. When nothing matches the generic sport is skipped and any other
      sport fails. */
  function ResolveGroup(lookup: Lookup, sport: string, define: Dict<string, string>, groups: set<string>): (r: Result<string, GroupError>)
    ensures r.Ok? ==> r.value in groups
    ensures r.Err? && r.error.Ignored? ==> r.error.sport == sport && sport == GenericSport
    ensures r.Err? && r.error.NoGroup? ==> r.error.sport == sport && sport != GenericSport
    decreases lookup
  {
    match lookup
    case Group(name) => if name in groups then Ok(name) else Err(UndefinedGroup(name))
    case Table(entries) =>
      if sport in entries then ResolveGroup(entries[sport], sport, define, groups)
      else match DefineMatch(entries, define)
        case Some((k, v)) => ResolveGroup(entries[k].entries[v], sport, define, groups)
        case None =>
          if Default in entries then ResolveGroup(entries[Default], sport, define, groups)
          else if sport == GenericSport then Err(Ignored(sport))
          else Err(NoGroup(sport))
  }

  /** The order `_activity_group` consults a table in: an entry for the sport
      wins over any define match, a define match wins over `Default`, and
      only when all three are missing is the sport skipped or refused. */
  lemma ResolutionOrder(entries: map<string, Lookup>, sport: string, define: Dict<string, string>, groups: set<string>)
    ensures sport in entries ==>
      ResolveGroup(Table(entries), sport, define, groups) == ResolveGroup(entries[sport], sport, define, groups)
    ensures sport !in entries && DefineMatch(entries, define).Some? ==>
      var (k, v) := DefineMatch(entries, define).value;
      ResolveGroup(Table(entries), sport, define, groups) == ResolveGroup(entries[k].entries[v], sport, define, groups)
    ensures sport !in entries && DefineMatch(entries, define).None? ==>
      ResolveGroup(Table(entries), sport, define, groups) ==
        if Default in entries then ResolveGroup(entries[Default], sport, define, groups)
        else if sport == GenericSport then Err(Ignored(sport))
        else Err(NoGroup(sport))
  {
  }

  /** Every group name the lookup holds anywhere. */
  ghost function Leaves(lookup: Lookup): set<string>
    decreases lookup
  {
    match lookup
    case Group(name) => {name}
    case Table(entries) => set k, g | k in entries && g in Leaves(entries[k]) :: g
  }

  /** A resolved group is one of the names in the lookup. */
  lemma {:induction false} ResolvedIsLeaf(lookup: Lookup, sport: string, define: Dict<string, string>, groups: set<string>)
    requires ResolveGroup(lookup, sport, define, groups).Ok?
    ensures ResolveGroup(lookup, sport, define, groups).value in Leaves(lookup)
    decreases lookup
  {
    var g := ResolveGroup(lookup, sport, define, groups).value;
    match lookup
    case Group(name) =>
    case Table(entries) =>
      if sport in entries {
        ResolvedIsLeaf(entries[sport], sport, define, groups);
      } else if DefineMatch(entries, define).Some? {
        var (k, v) := DefineMatch(entries, define).value;
        ResolvedIsLeaf(entries[k].entries[v], sport, define, groups);
        assert g in Leaves(entries[k]);
      } else {
        ResolvedIsLeaf(entries[Default], sport, define, groups);
      }
  }

  /** Some table reached along the sport's own keys lacks the sport, so the
      define entries may come into play. */
  predicate DependsOnDefine(lookup: Lookup, sport: string)
    decreases lookup
  {
    match lookup
    case Group(_) => false
    case Table(entries) => if sport in entries then DependsOnDefine(entries[sport], sport) else true
  }

  /** When the sport key is found at every level, the define entries do not
      matter. */
  lemma {:induction false} DefineIrrelevant(lookup: Lookup, sport: string, define: Dict<string, string>, groups: set<string>)
    requires !DependsOnDefine(lookup, sport)
    ensures ResolveGroup(lookup, sport, define, groups) == ResolveGroup(lookup, sport, [], groups)
    decreases lookup
  {
    match lookup
    case Group(_) =>
    case Table(entries) =>
      DefineIrrelevant(entries[sport], sport, define, groups);
  }

  /* ---------------------------------------------------------------------
     The define of one import
     --------------------------------------------------------------------- */

  /** `_build_define`: a copy of the command-line define; a kit from the
      file name (`kit` non-empty) is added unless the command line already
      gives the kit. The command line's kit always wins, keys keep their
      order and the other entries are untouched. */
  function BuildDefine(define: Dict<string, string>, kit: string): (r: Dict<string, string>)
    ensures Keys(r) == Keys(define) || (Keys(r) == Keys(define) + [Kit] && !HasKey(define, Kit))
    ensures forall k :: k != Kit ==> (HasKey(r, k) <==> HasKey(define, k))
    ensures forall k :: k != Kit && HasKey(define, k) ==> Get(r, k) == Get(define, k)
    ensures HasKey(define, Kit) ==> HasKey(r, Kit) && Get(r, Kit) == Get(define, Kit)
    ensures !HasKey(define, Kit) ==> (HasKey(r, Kit) <==> kit != "") && (kit != "" ==> Get(r, Kit) == kit)
  {
    if kit != "" && !(HasKey(define, Kit) && Get(define, Kit) != kit) then Put(define, Kit, kit) else define
  }

  /** The warning of `_build_define`: the file name's kit is ignored. */
  predicate KitIgnored(define: Dict<string, string>, kit: string) {
    kit != "" && HasKey(define, Kit) && Get(define, Kit) != kit
  }

  /** Building the define again with the same file name changes nothing. */
  lemma BuildDefineIdempotent(define: Dict<string, string>, kit: string)
    ensures BuildDefine(BuildDefine(define, kit), kit) == BuildDefine(define, kit)
  {
    if kit != "" && !KitIgnored(define, kit) {
      PutTwice(define, Kit, kit, kit);
    }
  }

  /** A define without repeated keys stays so. */
  lemma BuildDefineDistinct(define: Dict<string, string>, kit: string)
    requires DistinctKeys(define)
    ensures DistinctKeys(BuildDefine(define, kit))
  {
    if kit != "" && !KitIgnored(define, kit) {
      PutKeepsDistinct(define, Kit, kit);
    }
  }

  /* ---------------------------------------------------------------------
     Loading the records
     --------------------------------------------------------------------- */

  /** A message of the FIT file: a timer or other event, a data record, or
      anything else. Timestamps are seconds. */
  datatype Record =
    | Event(event: string, eventType: string, timestamp: int)
    | Data(timestamp: int)
    | Other(name: string, timestamp: int)

  /** `is_event(record, 'start')`. */
  predicate IsStart(r: Record) {
    r.Event? && r.event == "timer" && r.eventType == "start"
  }

  /** `is_event(record, 'stop_all', 'stop')`. */
  predicate IsStop(r: Record) {
    r.Event? && r.event == "timer" && (r.eventType == "stop_all" || r.eventType == "stop")
  }

  /** A record is at most one of a timer start and a timer stop, and both are
      events. */
  lemma EventKinds(r: Record)
    ensures !(IsStart(r) && IsStop(r))
    ensures IsStart(r) || IsStop(r) ==> r.Event? && r.event == "timer"
  {
  }

  /** `have_timespan`. */
  predicate HasStart(records: seq<Record>) {
    exists i :: 0 <= i < |records| && IsStart(records[i])
  }

  /** The timestamps of the data records, in file order. */
  function DataTimes(records: seq<Record>): seq<int> {
    if records == [] then []
    else DataTimes(records[..|records| - 1]) + (if records[|records| - 1].Data? then [records[|records| - 1].timestamp] else [])
  }

  datatype Span = Span(start: int, finish: int)

  /** What the pass over the records has produced so far: the timespans
      created, in order (when `open`, the open one is last), the previous
      data record's timestamp, the journal's finish, the timestamps of the
      loaded records and the number of records skipped as duplicates. */
  datatype Load = Load(spans: seq<Span>, open: bool, last: int, finish: int, loaded: seq<int>, skipped: nat)

  datatype LoadError = NoRecordData

  /** The state before the first record: without timer starts, one
      timespan from the first to the final data record, held open. */
  function Initial(have: bool, times: seq<int>, journalFinish: int): (s: Load)
    requires times != []
    ensures s.open ==> |s.spans| > 0
  {
    Load(if have then [] else [Span(times[0], times[|times| - 1])], !have, 0, journalFinish, [], 0)
  }

  /** One iteration of the loop of `_load_data`. */
  function Step(have: bool, s: Load, r: Record): (s': Load)
    requires s.open ==> |s.spans| > 0
    ensures s'.open ==> |s'.spans| > 0
  {
    if have && IsStart(r) then
      if s.open then s else s.(spans := s.spans + [Span(r.timestamp, r.timestamp)], open := true)
    else if r.Data? then
      var counted := if r.timestamp > s.last then s.(loaded := s.loaded + [r.timestamp]) else s.(skipped := s.skipped + 1);
      var moved := counted.(last := r.timestamp);
      if have then moved else moved.(finish := r.timestamp)
    else if have && IsStop(r) then
      if s.open then
        var n := |s.spans| - 1;
        s.(spans := s.spans[n := Span(s.spans[n].start, r.timestamp)], finish := r.timestamp, open := false)
      else s
    else s
  }

  function Fold(have: bool, init: Load, records: seq<Record>): (s: Load)
    requires init.open ==> |init.spans| > 0
    ensures s.open ==> |s.spans| > 0
  {
    if records == [] then init
    else Step(have, Fold(have, init, records[..|records| - 1]), records[|records| - 1])
  }

  /** What one step leaves alone: a start while a timespan is open, a stop
      while none is, and every record that is neither data nor a timer
      event the pass acts on. */
  lemma IgnoredRecords(have: bool, s: Load, r: Record)
    requires s.open ==> |s.spans| > 0
    ensures have && IsStart(r) && s.open ==> Step(have, s, r) == s
    ensures have && IsStop(r) && !s.open ==> Step(have, s, r) == s
    ensures !r.Data? && !(have && (IsStart(r) || IsStop(r))) ==> Step(have, s, r) == s
  {
  }

  /** What a start and a stop do when they are acted on: a start while no
      timespan is open appends one beginning and ending at its time and
      opens it; a stop while one is open closes it at its time, keeping the
      earlier ones, and moves the journal finish there. */
  lemma ActedOnEvents(init: Load, records: seq<Record>, r: Record)
    requires init.open ==> |init.spans| > 0
    ensures var s, s' := Fold(true, init, records), Fold(true, init, records + [r]);
      IsStart(r) && !s.open ==> s'.spans == s.spans + [Span(r.timestamp, r.timestamp)] && s'.open
    ensures var s, s' := Fold(true, init, records), Fold(true, init, records + [r]);
      IsStop(r) && s.open ==>
        && |s'.spans| == |s.spans| && !s'.open && s'.finish == r.timestamp
        && s'.spans[..|s.spans| - 1] == s.spans[..|s.spans| - 1]
        && s'.spans[|s.spans| - 1] == Span(s.spans[|s.spans| - 1].start, r.timestamp)
  {
    assert (records + [r])[..|records|] == records;
  }

  /** The number of timer starts among the records. */
  function StartCount(records: seq<Record>): nat {
    if records == [] then 0
    else StartCount(records[..|records| - 1]) + (if IsStart(records[|records| - 1]) then 1 else 0)
  }

  /** Each timespan is opened by a start of its own: since a start while a
      timespan is open is ignored, the pass adds at most one timespan per
      start. */
  lemma {:induction false} SpansPerStart(init: Load, records: seq<Record>)
    requires init.open ==> |init.spans| > 0
    ensures |Fold(true, init, records).spans| <= |init.spans| + StartCount(records)
  {
    if records != [] {
      SpansPerStart(init, records[..|records| - 1]);
    }
  }

  /** After the loop: a timespan still open is closed at the final record. */
  function Close(s: Load, final: int): Load
    requires s.open ==> |s.spans| > 0
  {
    if s.open then
      var n := |s.spans| - 1;
      s.(spans := s.spans[n := Span(s.spans[n].start, final)], open := false)
    else s
  }

  /** The whole of `_load_data`'s bookkeeping. A file without data records
      fails, since the final record's timestamp is needed. */
  function Import(records: seq<Record>, journalFinish: int): Result<Load, LoadError> {
    var times := DataTimes(records);
    if times == [] then Err(NoRecordData)
    else
      var have := HasStart(records);
      Ok(Close(Fold(have, Initial(have, times, journalFinish), records), times[|times| - 1]))
  }

  /** `_load_data`, timestamp bookkeeping: one pass over the records. */
  method LoadData(records: seq<Record>, journalFinish: int) returns (r: Result<Load, LoadError>)
    ensures r == Import(records, journalFinish)
  {
    var times := DataTimes(records);
    if times == [] {
      return Err(NoRecordData);
    }
    var have := exists i :: 0 <= i < |records| && IsStart(records[i]);
    var final := times[|times| - 1];
    var init := Initial(have, times, journalFinish);
    var spans, open, last, finish, loaded, skipped := init.spans, init.open, 0, journalFinish, [], 0;
    for i := 0 to |records|
      invariant Load(spans, open, last, finish, loaded, skipped) == Fold(have, init, records[..i])
    {
      assert records[..i + 1][..i] == records[..i];
      var record := records[i];
      if have && IsStart(record) {
        if !open {
          spans := spans + [Span(record.timestamp, record.timestamp)];
          open := true;
        }
      } else if record.Data? {
        if record.timestamp > last {
          loaded := loaded + [record.timestamp];
        } else {
          skipped := skipped + 1;
        }
        last := record.timestamp;
        if !have {
          finish := record.timestamp;
        }
      } else if have && IsStop(record) {
        if open {
          spans := spans[|spans| - 1 := Span(spans[|spans| - 1].start, record.timestamp)];
          finish := record.timestamp;
          open := false;
        }
      }
    }
    assert records[..|records|] == records;
    if open {
      spans := spans[|spans| - 1 := Span(spans[|spans| - 1].start, final)];
      open := false;
    }
    return Ok(Load(spans, open, last, finish, loaded, skipped));
  }

  /** Every data record is either loaded or skipped as a duplicate. */
  lemma {:induction false} LoadedOrSkipped(have: bool, init: Load, records: seq<Record>)
    requires init.open ==> |init.spans| > 0
    ensures |Fold(have, init, records).loaded| + Fold(have, init, records).skipped
            == |init.loaded| + init.skipped + |DataTimes(records)|
  {
    if records != [] {
      LoadedOrSkipped(have, init, records[..|records| - 1]);
    }
  }

  /** The previous timestamp is that of the last data record seen, whether
      or not it was loaded; and without timer starts the journal finish
      follows it. */
  lemma {:induction false} LastIsPreviousRecord(have: bool, init: Load, records: seq<Record>)
    requires init.open ==> |init.spans| > 0
    ensures var s, times := Fold(have, init, records), DataTimes(records);
      && s.last == (if times == [] then init.last else times[|times| - 1])
      && (!have ==> s.finish == (if times == [] then init.finish else times[|times| - 1]))
  {
    if records != [] {
      LastIsPreviousRecord(have, init, records[..|records| - 1]);
    }
  }

  predicate StrictlyIncreasing(xs: seq<int>) {
    forall i, j :: 0 <= i < j < |xs| ==> xs[i] < xs[j]
  }

  /** With strictly increasing data timestamps after the start value every
      record is loaded and none skipped. */
  lemma {:induction false} IncreasingLoadsAll(have: bool, init: Load, records: seq<Record>)
    requires init.open ==> |init.spans| > 0
    requires StrictlyIncreasing(DataTimes(records))
    requires DataTimes(records) != [] ==> DataTimes(records)[0] > init.last
    ensures Fold(have, init, records).loaded == init.loaded + DataTimes(records)
    ensures Fold(have, init, records).skipped == init.skipped
  {
    if records != [] {
      var front, r := records[..|records| - 1], records[|records| - 1];
      var times, frontTimes := DataTimes(records), DataTimes(front);
      assert times == frontTimes + (if r.Data? then [r.timestamp] else []);
      assert StrictlyIncreasing(frontTimes) by {
        forall i, j | 0 <= i < j < |frontTimes| ensures frontTimes[i] < frontTimes[j] {
          assert frontTimes[i] == times[i] && frontTimes[j] == times[j];
        }
      }
      assert frontTimes != [] ==> frontTimes[0] == times[0];
      IncreasingLoadsAll(have, init, front);
      LastIsPreviousRecord(have, init, front);
      if r.Data? && frontTimes != [] {
        assert times[|frontTimes| - 1] < times[|frontTimes|];
      }
    }
  }

  /** A record whose timestamp is not after the previous record's is not
      loaded: a repeated timestamp never loads twice in a row. */
  lemma RepeatIsSkipped(have: bool, init: Load, records: seq<Record>, t: int)
    requires init.open ==> |init.spans| > 0
    requires DataTimes(records) != [] && DataTimes(records)[|DataTimes(records)| - 1] >= t
    ensures Fold(have, init, records + [Data(t)]).loaded == Fold(have, init, records).loaded
    ensures Fold(have, init, records + [Data(t)]).skipped == Fold(have, init, records).skipped + 1
  {
    assert (records + [Data(t)])[..|records|] == records;
    LastIsPreviousRecord(have, init, records);
  }

  /** Without timer starts, the file has exactly one timespan, from the first
      to the final data record, and the journal finishes at the final data
      record. */
  lemma NoStartOneSpan(records: seq<Record>, journalFinish: int)
    requires !HasStart(records) && DataTimes(records) != []
    ensures var times := DataTimes(records);
      Import(records, journalFinish) == Ok(Load([Span(times[0], times[|times| - 1])], false,
        times[|times| - 1], times[|times| - 1],
        Fold(false, Initial(false, times, journalFinish), records).loaded,
        Fold(false, Initial(false, times, journalFinish), records).skipped))
  {
    var times := DataTimes(records);
    var init := Initial(false, times, journalFinish);
    SpansFixedWithoutStarts(init, records);
    LastIsPreviousRecord(false, init, records);
    var s := Fold(false, init, records);
    assert s.spans == [Span(times[0], times[|times| - 1])] && s.open;
    assert Close(s, times[|times| - 1]).spans == [Span(times[0], times[|times| - 1])];
  }

  lemma {:induction false} SpansFixedWithoutStarts(init: Load, records: seq<Record>)
    requires init.open ==> |init.spans| > 0
    ensures Fold(false, init, records).spans == init.spans && Fold(false, init, records).open == init.open
  {
    if records != [] {
      SpansFixedWithoutStarts(init, records[..|records| - 1]);
    }
  }

  /** The timestamps of the timer starts and stops. */
  function StartTimes(records: seq<Record>): set<int> {
    set i | 0 <= i < |records| && IsStart(records[i]) :: records[i].timestamp
  }

  function StopTimes(records: seq<Record>): set<int> {
    set i | 0 <= i < |records| && IsStop(records[i]) :: records[i].timestamp
  }

  /** With timer starts, every timespan begins at a start event; a closed one
      ends at a stop event, an open one still ends where it began; the
      journal finish is the initial one or a stop event's. */
  ghost predicate SpansFromEvents(s: Load, records: seq<Record>, journalFinish: int) {
    && (forall k :: 0 <= k < |s.spans| ==> s.spans[k].start in StartTimes(records))
    && (forall k :: 0 <= k < |s.spans| && !(s.open && k == |s.spans| - 1) ==> s.spans[k].finish in StopTimes(records))
    && (s.open ==> |s.spans| > 0 && s.spans[|s.spans| - 1].finish == s.spans[|s.spans| - 1].start)
    && (s.finish == journalFinish || s.finish in StopTimes(records))
  }

  lemma {:induction false} FoldSpansFromEvents(records: seq<Record>, journalFinish: int)
    ensures SpansFromEvents(Fold(true, Load([], false, 0, journalFinish, [], 0), records), records, journalFinish)
  {
    if records != [] {
      var n := |records| - 1;
      var front := records[..n];
      FoldSpansFromEvents(front, journalFinish);
      var s := Fold(true, Load([], false, 0, journalFinish, [], 0), front);
      assert forall i :: 0 <= i < n ==> records[i] == front[i];
      assert StartTimes(front) <= StartTimes(records) && StopTimes(front) <= StopTimes(records);
      if IsStart(records[n]) {
        assert records[n].timestamp in StartTimes(records);
      } else if IsStop(records[n]) {
        assert records[n].timestamp in StopTimes(records);
      }
    }
  }

  /** With timer starts, after the pass: no timespan is open; each began at a
      start event and ended at a stop event or at the final data record; the
      journal finish is the initial one or a stop event's, so a dangling
      timespan closed at the final record does not move it; and there are no
      more timespans than starts. */
  lemma SpansWithStarts(records: seq<Record>, journalFinish: int)
    requires HasStart(records) && DataTimes(records) != []
    ensures var r, final := Import(records, journalFinish), DataTimes(records)[|DataTimes(records)| - 1];
      && r.Ok? && !r.value.open
      && (forall k :: 0 <= k < |r.value.spans| ==>
            r.value.spans[k].start in StartTimes(records)
            && (r.value.spans[k].finish in StopTimes(records) || r.value.spans[k].finish == final))
      && (r.value.finish == journalFinish || r.value.finish in StopTimes(records))
      && |r.value.spans| <= StartCount(records)
  {
    FoldSpansFromEvents(records, journalFinish);
    SpansPerStart(Load([], false, 0, journalFinish, [], 0), records);
  }
}
