/** The response calculator's provenance bookkeeping: the forward chain of
    Composite sources built from the leaf-input series, the walk that tags each
    hourly output with the composite in effect, and the completeness oracle
    ("missing recent" / "missing sources") that decides between a full rebuild
    and doing nothing. The store is abstract: maps and sequences keyed by
    integer source ids stand for the Source, Composite, CompositeComponent and
    StatisticJournal tables. */
module Response {
  import opened Wrappers

  type SourceId = nat

  /** A CompositeComponent row: `input` is one input of composite `output`. */
  datatype Edge = Edge(input: SourceId, output: SourceId)

  /** A StatisticJournal row, carrying the name and owner of its StatisticName. */
  datatype Row = Row(name: string, owner: string, source: SourceId, time: int)

  /** A row of the leaf-input frame: its time and its source id (NaN is None). */
  datatype InputRow = InputRow(time: int, source: Option<SourceId>)

  /** A (time, composite) pair as yielded by the chain builder. */
  datatype Link = Link(onset: int, composite: SourceId)

  /** A (start, finish) interval returned by `_missing`. */
  datatype Interval = Interval(start: int, finish: int)

  datatype MissingError = NoStartTime

  /** Output older than this, relative to the rounded-up current hour, is stale. */
  const FreshnessSeconds: int := 3 * 60 * 60
  const HourSeconds: int := 60 * 60

  // ---------------------------------------------------------------- edges

  /** The inputs of composite c, in the order their edges were added. */
  function Inputs(edges: seq<Edge>, c: SourceId): seq<SourceId>
  {
    if edges == [] then []
    else (if edges[0].output == c then [edges[0].input] else []) + Inputs(edges[1..], c)
  }

  lemma {:induction false} InputsConcat(a: seq<Edge>, b: seq<Edge>, c: SourceId)
    ensures Inputs(a + b, c) == Inputs(a, c) + Inputs(b, c)
    decreases |a|
  {
    if a == [] {
      assert a + b == b;
    } else {
      assert (a + b)[0] == a[0] && (a + b)[1..] == a[1..] + b;
      InputsConcat(a[1..], b, c);
      var head := if a[0].output == c then [a[0].input] else [];
      assert Inputs(a + b, c) == head + Inputs(a[1..] + b, c);
      assert Inputs(a, c) == head + Inputs(a[1..], c);
    }
  }

  lemma {:induction false} InputsNone(edges: seq<Edge>, c: SourceId)
    requires forall i :: 0 <= i < |edges| ==> edges[i].output != c
    ensures Inputs(edges, c) == []
    decreases |edges|
  {
    if edges != [] { InputsNone(edges[1..], c); }
  }

  /** The leaf input a change row contributes: its source, when there is one. */
  function LeafInputs(row: InputRow): seq<SourceId>
  {
    if row.source.Some? then [row.source.value] else []
  }

  // ---------------------------------------------------------------- change points

  /** `data[name].ne(data[name].shift())` at row i: the first row compares with
      NaN, a NaN source never equals anything, otherwise the ids differ. */
  predicate IsChange(rows: seq<InputRow>, i: nat)
    requires i < |rows|
  {
    i == 0 || rows[i].source.None? || rows[i].source != rows[i - 1].source
  }

  /** The indices of the change rows among the first n rows, in order. */
  function ChangeIndices(rows: seq<InputRow>, n: nat): (r: seq<nat>)
    requires n <= |rows|
    ensures forall j :: 0 <= j < |r| ==> r[j] < n && IsChange(rows, r[j])
    ensures forall j, k :: 0 <= j < k < |r| ==> r[j] < r[k]
    ensures forall i :: 0 <= i < n && IsChange(rows, i) ==> i in r
    ensures n > 0 ==> |r| > 0 && r[0] == 0
  {
    if n == 0 then [] else ChangeIndices(rows, n - 1) + (if IsChange(rows, n - 1) then [n - 1] else [])
  }

  function Changes(rows: seq<InputRow>): seq<nat>
  {
    ChangeIndices(rows, |rows|)
  }

  /** The change rows themselves, in order: the rows `__make_sources` walks. */
  function ChangeRows(rows: seq<InputRow>): (r: seq<InputRow>)
    ensures |r| == |Changes(rows)|
    ensures forall j :: 0 <= j < |r| ==> r[j] == rows[Changes(rows)[j]]
  {
    var changes := Changes(rows);
    seq(|changes|, j requires 0 <= j < |changes| => rows[changes[j]])
  }

  /** A final row without a source is always the last change row. */
  lemma LastNullRowIsChange(rows: seq<InputRow>)
    requires |rows| > 0 && rows[|rows| - 1].source.None?
    ensures |ChangeRows(rows)| > 0 && ChangeRows(rows)[|ChangeRows(rows)| - 1] == rows[|rows| - 1]
  {
    var changes := Changes(rows);
    assert IsChange(rows, |rows| - 1);
    var m :| 0 <= m < |changes| && changes[m] == |rows| - 1;
  }

  predicate TimesSorted(rows: seq<InputRow>) {
    forall i, j :: 0 <= i < j < |rows| ==> rows[i].time <= rows[j].time
  }

  predicate OnsetsSorted(chain: seq<Link>) {
    forall i, j :: 0 <= i < j < |chain| ==> chain[i].onset <= chain[j].onset
  }

  /** The change rows of an input series in time order are in time order. */
  /** Between a change row p and the next change, every row has p's source. */
  lemma {:induction false} RunKeepsSource(rows: seq<InputRow>, p: nat, i: nat)
    requires p <= i < |rows|
    requires forall k :: p < k <= i ==> !IsChange(rows, k)
    ensures rows[i].source == rows[p].source
    decreases i - p
  {
    if i > p {
      assert !IsChange(rows, i);
      RunKeepsSource(rows, p, i - 1);
    }
  }

  /** Consecutive change rows never carry the same source: each either has no
      source or names a different one from the change row before it. */
  lemma ChangeRowsAlternate(rows: seq<InputRow>)
    ensures forall j :: 0 < j < |ChangeRows(rows)| ==>
      ChangeRows(rows)[j].source.None? || ChangeRows(rows)[j].source != ChangeRows(rows)[j - 1].source
  {
    var changes, r := Changes(rows), ChangeRows(rows);
    forall j | 0 < j < |r| ensures r[j].source.None? || r[j].source != r[j - 1].source {
      var p, q := changes[j - 1], changes[j];
      forall k | p < k <= q - 1 ensures !IsChange(rows, k) {
        forall m | 0 <= m < |changes| ensures changes[m] != k {
          if m <= j - 1 { assert changes[m] <= p; } else { assert q <= changes[m]; }
        }
      }
      RunKeepsSource(rows, p, q - 1);
      assert IsChange(rows, q);
    }
  }

  /** Row j of `ChangeRows` stands for the input rows from its own index up to
      (not including) the next change. */
  ghost predicate Stands(rows: seq<InputRow>, j: nat, i: nat)
    requires j < |Changes(rows)|
  {
    Changes(rows)[j] <= i && (j + 1 == |Changes(rows)| || i < Changes(rows)[j + 1])
  }

  /** Every input row has the source of the last change row at or before it,
      so the change rows lose nothing of the series' sources. */
  lemma {:induction false} ChangeRowsCover(rows: seq<InputRow>, i: nat)
    requires i < |rows|
    ensures exists j :: 0 <= j < |ChangeRows(rows)| && Stands(rows, j, i) && rows[i].source == ChangeRows(rows)[j].source
  {
    var changes := Changes(rows);
    if IsChange(rows, i) {
      var m :| 0 <= m < |changes| && changes[m] == i;
      assert Stands(rows, m, i);
    } else {
      ChangeRowsCover(rows, i - 1);
      var j :| 0 <= j < |changes| && Stands(rows, j, i - 1) && rows[i - 1].source == ChangeRows(rows)[j].source;
      if j + 1 < |changes| {
        assert IsChange(rows, changes[j + 1]);
      }
      assert Stands(rows, j, i);
    }
  }

  lemma ChangeRowsSorted(rows: seq<InputRow>)
    requires TimesSorted(rows)
    ensures TimesSorted(ChangeRows(rows))
  {
    var changes := Changes(rows);
    forall i, j | 0 <= i < j < |changes| ensures rows[changes[i]].time <= rows[changes[j]].time {
      assert changes[i] < changes[j];
    }
  }

  // ---------------------------------------------------------------- output tagging

  /** The number of chain elements consumed before output k. */
  function ConsumedBefore(ends: seq<nat>, k: nat): nat
    requires k <= |ends|
  {
    if k == 0 then 0 else ends[k - 1]
  }

  /** `ends[k]` is how many chain elements have been popped from the front once
      output k is tagged: the pops for output k are exactly the elements, from
      where output k - 1 stopped, whose onset is at or before times[k]. */
  ghost predicate Consumes(chain: seq<Link>, times: seq<int>, ends: seq<nat>)
  {
    |ends| <= |times| &&
    forall k {:trigger times[k]} :: 0 <= k < |ends| ==> PopsFor(chain, times[k], ConsumedBefore(ends, k), ends[k])
  }

  /** Popping chain[from..to] for an output at `time`: each popped onset is at
      or before the time, and the next one, if any, is after it. */
  ghost predicate PopsFor(chain: seq<Link>, time: int, from: nat, to: nat)
  {
    from <= to <= |chain| &&
    (forall j :: from <= j < to ==> chain[j].onset <= time) &&
    (to < |chain| ==> chain[to].onset > time)
  }

  /** The tag and warning recorded for each output, given how far the chain
      had been consumed: the last element popped (None before any pop) and
      whether more than one element was popped for that output. */
  predicate TagsFollow(chain: seq<Link>, ends: seq<nat>, tags: seq<Option<SourceId>>, warned: seq<bool>)
  {
    |tags| == |ends| && |warned| == |ends| &&
    forall k {:trigger tags[k]} :: 0 <= k < |ends| ==>
      TagFor(chain, ConsumedBefore(ends, k), ends[k], tags[k], warned[k])
  }

  /** The tag and warning for an output after popping chain[from..to]. */
  predicate TagFor(chain: seq<Link>, from: nat, to: nat, tag: Option<SourceId>, warn: bool)
  {
    to <= |chain| &&
    tag == (if to == 0 then None else Some(chain[to - 1].composite)) &&
    (warn <==> to - from > 1)
  }

  lemma ConsumesExtend(chain: seq<Link>, times: seq<int>, ends: seq<nat>, e: nat)
    requires Consumes(chain, times, ends) && |ends| < |times|
    requires PopsFor(chain, times[|ends|], ConsumedBefore(ends, |ends|), e)
    ensures Consumes(chain, times, ends + [e])
  {
    var ends' := ends + [e];
    forall k | 0 <= k < |ends'| ensures PopsFor(chain, times[k], ConsumedBefore(ends', k), ends'[k]) {
      assert ConsumedBefore(ends', k) == ConsumedBefore(ends, k);
      if k < |ends| { assert ends'[k] == ends[k]; }
    }
  }

  lemma TagsExtend(chain: seq<Link>, ends: seq<nat>, tags: seq<Option<SourceId>>, warned: seq<bool>,
                   e: nat, tag: Option<SourceId>, warn: bool)
    requires TagsFollow(chain, ends, tags, warned)
    requires TagFor(chain, ConsumedBefore(ends, |ends|), e, tag, warn)
    ensures TagsFollow(chain, ends + [e], tags + [tag], warned + [warn])
  {
    var ends', tags', warned' := ends + [e], tags + [tag], warned + [warn];
    forall k | 0 <= k < |ends'|
      ensures TagFor(chain, ConsumedBefore(ends', k), ends'[k], tags'[k], warned'[k])
    {
      assert ConsumedBefore(ends', k) == ConsumedBefore(ends, k);
      if k < |ends| { assert ends'[k] == ends[k] && tags'[k] == tags[k] && warned'[k] == warned[k]; }
    }
  }

  /** The source-advance loop of `_run_one`: for each output time it pops
      chain elements from the front while the next onset is not after the
      time, tags the output with the last one popped, and warns when more
      than one was popped for the same output. */
  method TagOutputs(chain: seq<Link>, times: seq<int>)
    returns (tags: seq<Option<SourceId>>, ends: seq<nat>, warned: seq<bool>)
    ensures |ends| == |times| && Consumes(chain, times, ends)
    ensures TagsFollow(chain, ends, tags, warned)
  {
    var source: Option<SourceId> := None;
    var sources := chain;
    ghost var pos: nat := 0;
    tags, ends, warned := [], [], [];
    var k := 0;
    while k < |times|
      invariant 0 <= k <= |times| && |ends| == k
      invariant pos <= |chain| && sources == chain[pos..]
      invariant ConsumedBefore(ends, k) == pos
      invariant source == (if pos == 0 then None else Some(chain[pos - 1].composite))
      invariant Consumes(chain, times, ends)
      invariant TagsFollow(chain, ends, tags, warned)
    {
      var time := times[k];
      ghost var before := pos;
      var skipped := 0;
      var warn := false;
      while |sources| > 0 && time >= sources[0].onset
        invariant before <= pos <= |chain| && sources == chain[pos..]
        invariant skipped == pos - before
        invariant forall j :: before <= j < pos ==> chain[j].onset <= time
        invariant source == (if pos == 0 then None else Some(chain[pos - 1].composite))
        invariant warn <==> skipped > 1
      {
        source := Some(sources[0].composite);
        sources := sources[1..];
        pos := pos + 1;
        skipped := skipped + 1;
        if skipped > 1 {
          warn := true;
        }
      }
      ConsumesExtend(chain, times, ends, pos);
      TagsExtend(chain, ends, tags, warned, pos, source, warn);
      tags, ends, warned := tags + [source], ends + [|chain| - |sources|], warned + [warn];
      k := k + 1;
    }
  }

  lemma ConsumesPrefix(chain: seq<Link>, times: seq<int>, ends: seq<nat>, n: nat)
    requires Consumes(chain, times, ends) && n <= |ends|
    ensures Consumes(chain, times, ends[..n])
  {
    forall k | 0 <= k < n ensures PopsFor(chain, times[k], ConsumedBefore(ends[..n], k), ends[..n][k]) {
      assert ConsumedBefore(ends[..n], k) == ConsumedBefore(ends, k);
      assert PopsFor(chain, times[k], ConsumedBefore(ends, k), ends[k]);
    }
  }

  /** The last output's pops, given that the one before it stopped at the
      first onset after its own time. */
  lemma LastConsumed(chain: seq<Link>, times: seq<int>, ends: seq<nat>, j: nat)
    requires Consumes(chain, times, ends) && |ends| >= 1 && j < |chain|
    requires OnsetsSorted(chain)
    requires var n := |ends| - 1;
      n > 0 ==> times[n - 1] <= times[n] && (j < ends[n - 1] <==> chain[j].onset <= times[n - 1])
    ensures var n := |ends| - 1; j < ends[n] <==> chain[j].onset <= times[n]
  {
    var n := |ends| - 1;
    assert PopsFor(chain, times[n], ConsumedBefore(ends, n), ends[n]);
    if j < ConsumedBefore(ends, n) {
      assert chain[j].onset <= times[n - 1];
    } else if ends[n] <= j {
      assert chain[ends[n]].onset > times[n];
    }
  }

  /** Extends "consumed exactly the onsets up to its time" from all outputs
      but the last to the last one. */
  lemma LastOnsets(chain: seq<Link>, times: seq<int>, ends: seq<nat>)
    requires Consumes(chain, times, ends) && |ends| >= 1
    requires OnsetsSorted(chain)
    requires forall i, j :: 0 <= i < j < |times| ==> times[i] <= times[j]
    requires forall k, j :: 0 <= k < |ends| - 1 && 0 <= j < |chain| ==>
      (j < ends[k] <==> chain[j].onset <= times[k])
    ensures forall k, j :: 0 <= k < |ends| && 0 <= j < |chain| ==>
      (j < ends[k] <==> chain[j].onset <= times[k])
  {
    var n := |ends| - 1;
    if n > 0 {
      assert times[n - 1] <= times[n];
    }
    forall j | 0 <= j < |chain| ensures j < ends[n] <==> chain[j].onset <= times[n] {
      LastConsumed(chain, times, ends, j);
    }
  }

  /** With the chain onsets and the output times both in order, output k is
      tagged after consuming exactly the chain elements whose onset is at or
      before times[k]: its tag is the last such element. */
  lemma {:induction false} ConsumesLatestOnset(chain: seq<Link>, times: seq<int>, ends: seq<nat>)
    requires Consumes(chain, times, ends)
    requires OnsetsSorted(chain)
    requires forall i, j :: 0 <= i < j < |times| ==> times[i] <= times[j]
    ensures forall k, j :: 0 <= k < |ends| && 0 <= j < |chain| ==>
      (j < ends[k] <==> chain[j].onset <= times[k])
    decreases |ends|
  {
    if ends != [] {
      var n := |ends| - 1;
      var prefix := ends[..n];
      ConsumesPrefix(chain, times, ends, n);
      ConsumesLatestOnset(chain, times, prefix);
      forall k, j | 0 <= k < n && 0 <= j < |chain| ensures j < ends[k] <==> chain[j].onset <= times[k] {
        assert prefix[k] == ends[k];
      }
      LastOnsets(chain, times, ends);
    }
  }

  // ---------------------------------------------------------------- completeness oracle

  predicate OfStatistic(row: Row, name: string, owner: string) {
    row.name == name && row.owner == owner
  }

  /** The newest time recorded for the statistic (the `order_by desc limit 1`
      query), or None when it has no rows. */
  function Latest(journal: seq<Row>, name: string, owner: string): (t: Option<int>)
    ensures t.None? <==> forall i :: 0 <= i < |journal| ==> !OfStatistic(journal[i], name, owner)
    ensures t.Some? ==>
      (exists i :: 0 <= i < |journal| && OfStatistic(journal[i], name, owner) && journal[i].time == t.value) &&
      (forall i :: 0 <= i < |journal| && OfStatistic(journal[i], name, owner) ==> journal[i].time <= t.value)
  {
    if journal == [] then None
    else
      var rest := Latest(journal[1..], name, owner);
      assert forall i :: 1 <= i < |journal| ==> journal[i] == journal[1..][i - 1];
      if OfStatistic(journal[0], name, owner) && (rest.None? || rest.value < journal[0].time)
      then Some(journal[0].time)
      else rest
  }

  /** `__missing_recent`: the statistic is missing recent data iff it has no
      row at all or its newest row is more than three hours before `now`. */
  function MissingRecent(journal: seq<Row>, name: string, owner: string, now: int): (missing: bool)
    ensures !missing <==>
      (exists i :: 0 <= i < |journal| && OfStatistic(journal[i], name, owner) && now - journal[i].time <= FreshnessSeconds)
  {
    var latest := Latest(journal, name, owner);
    latest.None? || now - latest.value > FreshnessSeconds
  }

  /** Newest output exactly three hours old counts as complete; one second
      older does not. */
  lemma FreshnessBoundary(name: string, owner: string, source: SourceId, t: int)
    ensures !MissingRecent([Row(name, owner, source, t)], name, owner, t + FreshnessSeconds)
    ensures MissingRecent([Row(name, owner, source, t)], name, owner, t + FreshnessSeconds + 1)
  {
  }

  /** Whether some journal row of `owner` has composite c as its source. */
  predicate FeedsOwner(journal: seq<Row>, c: SourceId, owner: string) {
    exists j :: 0 <= j < |journal| && journal[j].source == c && journal[j].owner == owner
  }

  /** Whether source s is an input of some composite that an output row of
      `ownerOut` references (the `inputs` sub-query). */
  predicate UsedAsInput(journal: seq<Row>, edges: seq<Edge>, ownerOut: string, s: SourceId) {
    exists i :: 0 <= i < |edges| && edges[i].input == s && FeedsOwner(journal, edges[i].output, ownerOut)
  }

  /** The distinct leaf sources of the input statistic never used as an input. */
  function UnusedSources(journal: seq<Row>, edges: seq<Edge>, ownerOut: string,
                         ownerIn: string, inputName: string): set<SourceId>
  {
    set i | 0 <= i < |journal| && OfStatistic(journal[i], inputName, ownerIn)
                               && !UsedAsInput(journal, edges, ownerOut, journal[i].source)
          :: journal[i].source
  }

  /** `__missing_sources`: the count of distinct unused leaf sources, which is
      non-zero iff some leaf row's source never fed a response composite. */
  function MissingSources(journal: seq<Row>, edges: seq<Edge>, ownerOut: string,
                          ownerIn: string, inputName: string): (n: nat)
    ensures n > 0 <==> exists i :: 0 <= i < |journal| && OfStatistic(journal[i], inputName, ownerIn)
                                   && !UsedAsInput(journal, edges, ownerOut, journal[i].source)
  {
    var unused := UnusedSources(journal, edges, ownerOut, ownerIn, inputName);
    UnusedWitness(journal, edges, ownerOut, ownerIn, inputName);
    |unused|
  }

  lemma UnusedWitness(journal: seq<Row>, edges: seq<Edge>, ownerOut: string,
                      ownerIn: string, inputName: string)
    ensures (exists i :: 0 <= i < |journal| && OfStatistic(journal[i], inputName, ownerIn)
                         && !UsedAsInput(journal, edges, ownerOut, journal[i].source))
            ==> UnusedSources(journal, edges, ownerOut, ownerIn, inputName) != {}
  {
    if exists i :: 0 <= i < |journal| && OfStatistic(journal[i], inputName, ownerIn)
                   && !UsedAsInput(journal, edges, ownerOut, journal[i].source) {
      var i :| 0 <= i < |journal| && OfStatistic(journal[i], inputName, ownerIn)
               && !UsedAsInput(journal, edges, ownerOut, journal[i].source);
      assert journal[i].source in UnusedSources(journal, edges, ownerOut, ownerIn, inputName);
    }
  }

  /** `round_hour(t, up=False)`. */
  function RoundHourDown(t: int): (r: int)
    ensures r % HourSeconds == 0 && r <= t < r + HourSeconds
  {
    t - t % HourSeconds
  }

  /** `round_hour(t, up=True)`. */
  function RoundHourUp(t: int): (r: int)
    ensures r % HourSeconds == 0 && r - HourSeconds < t <= r
  {
    if t % HourSeconds == 0 then t else t - t % HourSeconds + HourSeconds
  }

  /** `__start`: the earliest journal time after 1 second (skipping constants
      defined at time 0), or None when there is none. */
  function Earliest(journal: seq<Row>): (t: Option<int>)
    ensures t.None? <==> forall i :: 0 <= i < |journal| ==> journal[i].time <= 1
    ensures t.Some? ==>
      (exists i :: 0 <= i < |journal| && journal[i].time == t.value && t.value > 1) &&
      (forall i :: 0 <= i < |journal| && journal[i].time > 1 ==> t.value <= journal[i].time)
  {
    if journal == [] then None
    else
      var rest := Earliest(journal[1..]);
      assert forall i :: 1 <= i < |journal| ==> journal[i] == journal[1..][i - 1];
      if journal[0].time > 1 && (rest.None? || journal[0].time < rest.value)
      then Some(journal[0].time)
      else rest
  }

  /** Whether any of the response statistics is missing recent output. */
  predicate AnyMissingRecent(journal: seq<Row>, names: seq<string>, owner: string, now: int) {
    exists k :: 0 <= k < |names| && MissingRecent(journal, names[k], owner, now)
  }

  // ---------------------------------------------------------------- deletion

  /** The composites `_delete_from` deletes: those referenced by a journal row
      of `owner`, at or after `start` when it is given. */
  function Doomed(journal: seq<Row>, composites: map<SourceId, nat>, owner: string,
                  start: Option<int>): set<SourceId>
  {
    set i | 0 <= i < |journal| && journal[i].owner == owner && journal[i].source in composites
                               && (start.None? || journal[i].time >= start.value)
          :: journal[i].source
  }

  /** The journal rows left once the doomed sources are deleted (cascade). */
  function JournalWithout(journal: seq<Row>, doomed: set<SourceId>): (r: seq<Row>)
    ensures forall x :: x in r <==> x in journal && x.source !in doomed
    ensures |r| <= |journal|
  {
    if journal == [] then []
    else (if journal[0].source in doomed then [] else [journal[0]]) + JournalWithout(journal[1..], doomed)
  }

  /** The component edges left once the doomed sources are deleted (cascade on
      either end). */
  function EdgesWithout(edges: seq<Edge>, doomed: set<SourceId>): (r: seq<Edge>)
    ensures forall e :: e in r <==> e in edges && e.input !in doomed && e.output !in doomed
  {
    if edges == [] then []
    else (if edges[0].input in doomed || edges[0].output in doomed then [] else [edges[0]])
         + EdgesWithout(edges[1..], doomed)
  }

  // ---------------------------------------------------------------- the chain

  /** The chain for the change rows `crs`, with ids allocated from `base`: the
      zero composite at onset 0, then one composite per change row at its time. */
  function Chain(crs: seq<InputRow>, base: SourceId): seq<Link>
    decreases |crs|
  {
    if crs == [] then [Link(0, base)]
    else Chain(crs[..|crs| - 1], base) + [Link(crs[|crs| - 1].time, base + |crs|)]
  }

  /** The edges one step of the chain builder adds: the row's leaf source, when
      it has one, then the previous tail, both into the new composite. */
  function StepEdges(row: InputRow, prev: SourceId, composite: SourceId): seq<Edge>
  {
    (if row.source.Some? then [Edge(row.source.value, composite)] else []) + [Edge(prev, composite)]
  }

  /** All the edges the chain builder adds, in order. */
  function ChainEdges(crs: seq<InputRow>, base: SourceId): seq<Edge>
    decreases |crs|
  {
    if crs == [] then []
    else ChainEdges(crs[..|crs| - 1], base) + StepEdges(crs[|crs| - 1], base + |crs| - 1, base + |crs|)
  }

  /** The `n_components` recorded for each composite of the chain. */
  function ChainCounts(crs: seq<InputRow>, base: SourceId): map<SourceId, nat>
    decreases |crs|
  {
    if crs == [] then map[base := 0]
    else ChainCounts(crs[..|crs| - 1], base)[base + |crs| := |LeafInputs(crs[|crs| - 1])| + 1]
  }

  /** The zero composite records no component; composite c after it records
      one for its predecessor and one more when its change row had a source. */
  lemma {:induction false} ChainCountsAt(crs: seq<InputRow>, base: SourceId, c: SourceId)
    requires base <= c <= base + |crs|
    ensures c in ChainCounts(crs, base)
    ensures ChainCounts(crs, base)[c] == if c == base then 0 else |LeafInputs(crs[c - base - 1])| + 1
    decreases |crs|
  {
    if crs != [] && c < base + |crs| {
      var shorter := crs[..|crs| - 1];
      ChainCountsAt(shorter, base, c);
      ChainCountsDomain(shorter, base);
      if c > base { assert shorter[c - base - 1] == crs[c - base - 1]; }
    }
  }

  /** The chain has one element per change row after the zero composite;
      element j is composite base + j at the onset of change row j - 1. */
  lemma {:induction false} ChainShape(crs: seq<InputRow>, base: SourceId)
    ensures var chain := Chain(crs, base);
      && |chain| == |crs| + 1 && chain[0] == Link(0, base)
      && forall j :: 0 < j < |chain| ==> chain[j] == Link(crs[j - 1].time, base + j)
    decreases |crs|
  {
    if crs != [] {
      var shorter := crs[..|crs| - 1];
      ChainShape(shorter, base);
      assert forall i :: 0 <= i < |shorter| ==> shorter[i] == crs[i];
    }
  }

  /** Every edge the chain adds goes into one of its new composites. */
  lemma {:induction false} ChainEdgesOutputs(crs: seq<InputRow>, base: SourceId)
    ensures forall i :: 0 <= i < |ChainEdges(crs, base)| ==>
      base < ChainEdges(crs, base)[i].output <= base + |crs|
    decreases |crs|
  {
    if crs != [] {
      var shorter := crs[..|crs| - 1];
      ChainEdgesOutputs(shorter, base);
      var step := StepEdges(crs[|crs| - 1], base + |crs| - 1, base + |crs|);
      assert ChainEdges(crs, base) == ChainEdges(shorter, base) + step;
      assert forall i :: 0 <= i < |step| ==> step[i].output == base + |crs|;
    }
  }

  /** The chain records a count for exactly its own composites. */
  lemma {:induction false} ChainCountsDomain(crs: seq<InputRow>, base: SourceId)
    ensures forall c :: c in ChainCounts(crs, base) <==> base <= c <= base + |crs|
    decreases |crs|
  {
    if crs != [] { ChainCountsDomain(crs[..|crs| - 1], base); }
  }

  /** A chain built over rows ending in a null-source row ends with a
      composite at that row's time whose one input is the composite before
      it, and which records one component. */
  lemma {:induction false} RunChainTail(edges: seq<Edge>, composites: map<SourceId, nat>, data: seq<InputRow>, base: SourceId)
    requires forall i :: 0 <= i < |edges| ==> edges[i].output < base
    requires |data| > 0 && data[|data| - 1].source.None?
    ensures var crs := ChangeRows(data);
      var chain := Chain(crs, base);
      var last := base + |crs|;
      && |chain| >= 2 && chain[|chain| - 1] == Link(data[|data| - 1].time, last)
      && chain[|chain| - 2].composite == last - 1
      && Inputs(edges + ChainEdges(crs, base), last) == [last - 1]
      && last in composites + ChainCounts(crs, base)
      && (composites + ChainCounts(crs, base))[last] == 1
  {
    var crs := ChangeRows(data);
    var last := base + |crs|;
    LastNullRowIsChange(data);
    ChainShape(crs, base);
    ChainInputs(edges, crs, base, last);
    ChainCountsAt(crs, base, last);
  }

  /** For change rows in time order and at or after time 0, the chain onsets
      never decrease, as the output tagging walk needs. */
  lemma ChainOnsetsSorted(crs: seq<InputRow>, base: SourceId)
    requires TimesSorted(crs) && forall i :: 0 <= i < |crs| ==> crs[i].time >= 0
    ensures OnsetsSorted(Chain(crs, base))
  {
    var chain := Chain(crs, base);
    ChainShape(crs, base);
    forall i, j | 0 <= i < j < |chain| ensures chain[i].onset <= chain[j].onset {
      if i > 0 { assert chain[i].onset == crs[i - 1].time; }
      assert chain[j].onset == crs[j - 1].time;
    }
  }

  lemma StepInputs(row: InputRow, prev: SourceId, composite: SourceId, c: SourceId)
    ensures Inputs(StepEdges(row, prev, composite), c) == (if c == composite then LeafInputs(row) + [prev] else [])
  {
    var tail := [Edge(prev, composite)];
    assert Inputs(tail, c) == (if c == composite then [prev] else []) by {
      assert tail[1..] == [];
    }
    if row.source.Some? {
      var head := [Edge(row.source.value, composite)];
      assert Inputs(head, c) == (if c == composite then [row.source.value] else []) by {
        assert head[1..] == [];
      }
      InputsConcat(head, tail, c);
    } else {
      assert StepEdges(row, prev, composite) == tail;
    }
  }

  /** The inputs the chain's edges give each composite: none to the zero
      composite; to composite c after it, the leaf source of its change row,
      when there is one, and then composite c - 1; none to any other id. */
  lemma {:induction false} ChainEdgesInputs(crs: seq<InputRow>, base: SourceId, c: SourceId)
    ensures Inputs(ChainEdges(crs, base), c) ==
      (if base < c <= base + |crs| then LeafInputs(crs[c - base - 1]) + [c - 1] else [])
    decreases |crs|
  {
    if crs != [] {
      var n := |crs|;
      var shorter := crs[..n - 1];
      ChainEdgesInputs(shorter, base, c);
      InputsConcat(ChainEdges(shorter, base), StepEdges(crs[n - 1], base + n - 1, base + n), c);
      StepInputs(crs[n - 1], base + n - 1, base + n, c);
      if base < c < base + n {
        assert shorter[c - base - 1] == crs[c - base - 1];
      }
    }
  }

  /** Adding the chain's edges to edges whose outputs all lie below `base`
      leaves the inputs of every older composite as they were, gives the zero
      composite none, and gives each later chain composite its own. */
  lemma ChainInputs(edges: seq<Edge>, crs: seq<InputRow>, base: SourceId, c: SourceId)
    requires forall i :: 0 <= i < |edges| ==> edges[i].output < base
    ensures c < base ==> Inputs(edges + ChainEdges(crs, base), c) == Inputs(edges, c)
    ensures base <= c ==>
      Inputs(edges + ChainEdges(crs, base), c) == (if base < c <= base + |crs| then LeafInputs(crs[c - base - 1]) + [c - 1] else [])
  {
    InputsConcat(edges, ChainEdges(crs, base), c);
    ChainEdgesInputs(crs, base, c);
    if base <= c { InputsNone(edges, c); }
  }

  /** The loop of `__make_sources` over the change rows `crs`, with ids
      allocated from `base`: the chain it yields, the `n_components` of each
      new composite and the component edges it adds, in order. */
  method BuildChain(crs: seq<InputRow>, base: SourceId)
    returns (chain: seq<Link>, counts: map<SourceId, nat>, added: seq<Edge>)
    ensures chain == Chain(crs, base)
    ensures counts == ChainCounts(crs, base)
    ensures added == ChainEdges(crs, base)
  {
    counts, added := map[base := 0], [];
    var next := base + 1;
    var prev := base;
    chain := [Link(0, base)];
    var k := 0;
    while k < |crs|
      invariant 0 <= k <= |crs| && next == base + k + 1 && prev == base + k
      invariant chain == Chain(crs[..k], base)
      invariant added == ChainEdges(crs[..k], base)
      invariant counts == ChainCounts(crs[..k], base)
    {
      var row := crs[k];
      var composite := next;
      if row.source.Some? {
        counts := counts[composite := 2];
        added := added + [Edge(row.source.value, composite), Edge(prev, composite)];
      } else {
        counts := counts[composite := 1];
        added := added + [Edge(prev, composite)];
      }
      next := next + 1;
      chain := chain + [Link(row.time, composite)];
      prev := composite;
      assert crs[..k + 1][..k] == crs[..k];
      k := k + 1;
    }
    assert crs[..k] == crs;
  }

  // ---------------------------------------------------------------- the store

  class ProvenanceStore {
    /** Composite id to its recorded `n_components`. */
    var composites: map<SourceId, nat>
    /** CompositeComponent rows, in insertion order. */
    var edges: seq<Edge>
    /** StatisticJournal rows. */
    var journal: seq<Row>
    /** The next source id the store allocates; every existing id is below it. */
    var nextId: SourceId

    /** Composite ids and edge outputs lie below the allocation point, so an id
        handed out next is not yet a composite nor the output of an edge. */
    ghost predicate Fresh()
      reads this
    {
      && (forall c :: c in composites ==> c < nextId)
      && (forall i :: 0 <= i < |edges| ==> edges[i].output < nextId)
    }

    /** Every composite records as many components as there are edges into it. */
    ghost predicate CountsMatch()
      reads this
    {
      forall c :: c in composites ==> |Inputs(edges, c)| == composites[c]
    }

    constructor (rows: seq<Row>, firstFreeId: SourceId)
      ensures composites == map[] && edges == [] && journal == rows && nextId == firstFreeId
      ensures Fresh() && CountsMatch()
    {
      composites, edges, journal, nextId := map[], [], rows, firstFreeId;
    }

    /** `__make_sources`: a zero composite with no inputs at onset 0, then one
        new composite per change row, linked to the leaf source of the row
        (when it has one) and to the previous chain tail. */
    method MakeSources(rows: seq<InputRow>) returns (chain: seq<Link>)
      requires Fresh()
      modifies this
      ensures chain == Chain(ChangeRows(rows), old(nextId)) && nextId == old(nextId) + |chain|
      ensures edges == old(edges) + ChainEdges(ChangeRows(rows), old(nextId))
      ensures composites == old(composites) + ChainCounts(ChangeRows(rows), old(nextId))
      ensures Fresh() && journal == old(journal)
      ensures old(CountsMatch()) ==> CountsMatch()
    {
      var base := nextId;
      var changes := ChangeRows(rows);
      var counts, added;
      chain, counts, added := BuildChain(changes, base);
      ChainShape(changes, base);
      ChainEdgesOutputs(changes, base);
      ChainCountsDomain(changes, base);
      if CountsMatch() {
        forall c | c in composites + counts ensures |Inputs(edges + added, c)| == (composites + counts)[c] {
          ChainInputs(edges, changes, base, c);
          if base <= c { ChainCountsAt(changes, base, c); }
        }
      }
      composites, edges, nextId := composites + counts, edges + added, base + |chain|;
    }

    /** The chain `_run_one` builds: the leaf-input frame with a final
        null-source row at `now` appended, so the chain always ends with a
        one-input composite at `now` linked to the tail before it. */
    method MakeRunSources(rows: seq<InputRow>, now: int) returns (chain: seq<Link>)
      requires Fresh()
      modifies this
      ensures chain == Chain(ChangeRows(rows + [InputRow(now, None)]), old(nextId)) && nextId == old(nextId) + |chain|
      ensures edges == old(edges) + ChainEdges(ChangeRows(rows + [InputRow(now, None)]), old(nextId))
      ensures composites == old(composites) + ChainCounts(ChangeRows(rows + [InputRow(now, None)]), old(nextId))
      ensures Fresh() && journal == old(journal)
      ensures |chain| >= 2 && chain[|chain| - 1].onset == now && chain[|chain| - 1].composite in composites
      ensures Inputs(edges, chain[|chain| - 1].composite) == [chain[|chain| - 2].composite]
      ensures composites[chain[|chain| - 1].composite] == 1
      ensures old(CountsMatch()) ==> CountsMatch()
    {
      var data := rows + [InputRow(now, None)];
      RunChainTail(edges, composites, data, nextId);
      chain := MakeSources(data);
    }

    /** `_delete_from`: deletes every composite referenced by an output row of
        `owner` (from `start` on, when given), cascading to their journal rows
        and component edges; returns how many were deleted. */
    method DeleteFrom(owner: string, start: Option<int>) returns (n: nat)
      modifies this
      ensures n == |Doomed(old(journal), old(composites), owner, start)|
      ensures var doomed := Doomed(old(journal), old(composites), owner, start);
        && composites == old(composites) - doomed
        && journal == JournalWithout(old(journal), doomed)
        && edges == EdgesWithout(old(edges), doomed)
      ensures nextId == old(nextId)
      ensures forall i :: 0 <= i < |journal| ==>
        !(journal[i].owner == owner && journal[i].source in old(composites)
          && (start.None? || journal[i].time >= start.value))
    {
      var doomed := Doomed(journal, composites, owner, start);
      n := |doomed|;
      if n > 0 {
        composites := composites - doomed;
        journal := JournalWithout(journal, doomed);
        edges := EdgesWithout(edges, doomed);
      } else {
        assert doomed == {};
        assert composites - doomed == composites;
        JournalWithoutNothing(journal);
        EdgesWithoutNothing(edges);
      }
      forall i | 0 <= i < |journal|
        ensures !(journal[i].owner == owner && journal[i].source in old(composites)
                  && (start.None? || journal[i].time >= start.value))
      {
        assert journal[i] in old(journal);
        var k :| 0 <= k < |old(journal)| && old(journal)[k] == journal[i];
      }
    }

    /** `_missing`: when some response statistic lacks recent output, or some
        leaf source was never used, deletes all of the owner's composites and
        returns the one interval from the earliest remaining time (rounded
        down) to the current hour (rounded up); otherwise returns nothing and
        changes nothing. */
    method Missing(now: int, names: seq<string>, ownerOut: string, ownerIn: string, inputName: string)
      returns (r: Result<seq<Interval>, MissingError>)
      modifies this
      ensures var finish := RoundHourUp(now);
        var stale := AnyMissingRecent(old(journal), names, ownerOut, finish)
                     || MissingSources(old(journal), old(edges), ownerOut, ownerIn, inputName) > 0;
        && (!stale ==> r == Ok([]) && journal == old(journal) && edges == old(edges)
                       && composites == old(composites))
        && (stale ==>
              var doomed := Doomed(old(journal), old(composites), ownerOut, None);
              && journal == JournalWithout(old(journal), doomed)
              && composites == old(composites) - doomed
              && edges == EdgesWithout(old(edges), doomed)
              && r == (match Earliest(journal)
                       case Some(t) => Ok([Interval(RoundHourDown(t), finish)])
                       case None => Err(NoStartTime)))
      ensures nextId == old(nextId)
    {
      var finish := RoundHourUp(now);
      var missingSources := MissingSources(journal, edges, ownerOut, ownerIn, inputName);
      var missingRecent := exists k :: 0 <= k < |names| && MissingRecent(journal, names[k], ownerOut, finish);
      if missingRecent || missingSources > 0 {
        var _ := DeleteFrom(ownerOut, None);
        var start := Earliest(journal);
        if start.Some? {
          r := Ok([Interval(RoundHourDown(start.value), finish)]);
        } else {
          r := Err(NoStartTime);
        }
      } else {
        r := Ok([]);
      }
    }
  }

  lemma {:induction false} JournalWithoutNothing(journal: seq<Row>)
    ensures JournalWithout(journal, {}) == journal
    decreases |journal|
  {
    if journal != [] {
      JournalWithoutNothing(journal[1..]);
      assert [journal[0]] + journal[1..] == journal;
    }
  }

  lemma {:induction false} EdgesWithoutNothing(edges: seq<Edge>)
    ensures EdgesWithout(edges, {}) == edges
    decreases |edges|
  {
    if edges != [] {
      EdgesWithoutNothing(edges[1..]);
      assert [edges[0]] + edges[1..] == edges;
    }
  }
}
