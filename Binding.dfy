/** Binding of form widgets to the columns of one database table: a view of
    the form's values through per-column transforms, default filling, and
    the SQL statements the static and the dynamic binders issue. Statements
    are recorded in a log instead of being executed; what the database
    answers (the last inserted row id, the row read back) is a parameter. */
module Binding {
  import opened Wrappers
  import opened Text
  import opened OrderedMaps

  /** The Python values a form holds: None, integers, strings and dates
      (a date by its proleptic Gregorian ordinal). */
  datatype Value = Null | Int(n: int) | Str(s: string) | Day(ordinal: int)

  /** What an operation raises. */
  datatype Failure =
    | KeyError(name: string)            // a missing dict key or widget
    | ConversionFailed(name: string)    // a transform raised on the named column
    | NotDeletable(name: string)        // `del view[name]`
    | NoKeyNames                        // `reduce` over no key names
    | UnboundWidget(widget: nat)        // a widget that was never bound
    | UnsetWidgetValue                  // a broadcast to a widget whose column holds nothing

  /** A conversion that may raise (None). */
  type Convert = Value -> Option<Value>

  /** A column transform: `fromDb` (element 0) is applied when the view is
      written, `toDb` (element 1) when it is read. */
  datatype Transform = Transform(fromDb: Convert, toDb: Convert)

  /** `or_none(f)`: None passes through, anything else goes to f. */
  function OrNone(f: Convert): (g: Convert)
    ensures g(Null) == Some(Null)
    ensures forall x :: x != Null ==> g(x) == f(x)
  {
    x => if x == Null then Some(Null) else f(x)
  }

  /** `date.max.toordinal()`. */
  const MaxOrdinal: int := 3652059

  /** `date.fromordinal`: an integer in 1..MaxOrdinal is a date, any other
      integer raises ValueError, anything else TypeError. */
  function FromOrdinal(v: Value): Option<Value> {
    if v.Int? && 1 <= v.n <= MaxOrdinal then Some(Day(v.n)) else None
  }

  /** `x.toordinal()`: only dates have it. */
  function ToOrdinal(v: Value): Option<Value> {
    if v.Day? then Some(Int(v.ordinal)) else None
  }

  /** `DATE_ORDINAL`: the database stores a date as its ordinal. */
  function DateOrdinal(): Transform {
    Transform(OrNone(FromOrdinal), OrNone(ToOrdinal))
  }

  /** Reading back what was written gives the written value. */
  ghost predicate Inverse(t: Transform) {
    forall v, w :: t.fromDb(v) == Some(w) ==> t.toDb(w) == Some(v)
  }

  /** Writing DATE_ORDINAL succeeds exactly on None and valid ordinals, and
      reading back gives the ordinal (or None) that was written. */
  lemma DateOrdinalInverse()
    ensures Inverse(DateOrdinal())
    ensures forall v :: DateOrdinal().fromDb(v).Some? <==> v == Null || (v.Int? && 1 <= v.n <= MaxOrdinal)
  {
    var t := DateOrdinal();
    forall v, w | t.fromDb(v) == Some(w) ensures t.toDb(w) == Some(v) {
      if v != Null {
        assert t.fromDb(v) == FromOrdinal(v);
        assert w == Day(v.n) && w != Null;
        assert t.toDb(w) == ToOrdinal(w);
      }
    }
    forall v ensures t.fromDb(v).Some? <==> v == Null || (v.Int? && 1 <= v.n <= MaxOrdinal) {
      if v != Null { assert t.fromDb(v) == FromOrdinal(v); }
    }
  }

  // ------------------------------------------------------- TransformedView

  /** `view[name]`: the stored value, through `toDb` where the name has a
      transform. */
  function ViewRead(data: Dict<string, Value>, transforms: map<string, Transform>, name: string): (r: Result<Value, Failure>)
    ensures r.Err? ==> r.error == KeyError(name) || r.error == ConversionFailed(name)
    ensures r.Err? && r.error == KeyError(name) <==> !HasKey(data, name)
    ensures name !in transforms ==> (r.Ok? <==> HasKey(data, name)) && (r.Ok? ==> r.value == Get(data, name))
  {
    if !HasKey(data, name) then Err(KeyError(name))
    else if name in transforms then
      match transforms[name].toDb(Get(data, name))
      case Some(v) => Ok(v)
      case None => Err(ConversionFailed(name))
    else Ok(Get(data, name))
  }

  /** `view[name] = value`: stores `value`, through `fromDb` where the name
      has a transform; a raising transform stores nothing. */
  function ViewWrite(data: Dict<string, Value>, transforms: map<string, Transform>, name: string, value: Value)
    : (r: Result<Dict<string, Value>, Failure>)
    ensures r.Err? <==> name in transforms && transforms[name].fromDb(value).None?
    ensures r.Err? ==> r.error == ConversionFailed(name)
    ensures r.Ok? ==> HasKey(r.value, name) &&
                      (HasKey(data, name) ==> Keys(r.value) == Keys(data)) &&
                      (!HasKey(data, name) ==> Keys(r.value) == Keys(data) + [name])
  {
    if name in transforms then
      match transforms[name].fromDb(value)
      case Some(w) => Ok(Put(data, name, w))
      case None => Err(ConversionFailed(name))
    else Ok(Put(data, name, value))
  }

  /** `name in view`, which MutableMapping answers by reading: a missing key
      is False, a raising transform raises. */
  function ViewContains(data: Dict<string, Value>, transforms: map<string, Transform>, name: string): (r: Result<bool, Failure>)
    ensures r == Ok(true) <==> ViewRead(data, transforms, name).Ok?
    ensures r == Ok(false) <==> !HasKey(data, name)
  {
    match ViewRead(data, transforms, name)
    case Ok(_) => Ok(true)
    case Err(KeyError(_)) => Ok(false)
    case Err(e) => Err(e)
  }

  /** `[view[name] for name in names]`, stopping at the first raise. */
  function ViewReadAll(data: Dict<string, Value>, transforms: map<string, Transform>, names: seq<string>)
    : (r: Result<seq<Value>, Failure>)
    ensures r.Ok? ==> (|r.value| == |names| &&
      forall i :: 0 <= i < |names| ==> ViewRead(data, transforms, names[i]) == Ok(r.value[i]))
    ensures r.Err? ==> exists i :: 0 <= i < |names| && ViewRead(data, transforms, names[i]) == Err(r.error)
    ensures (forall i :: 0 <= i < |names| ==> ViewRead(data, transforms, names[i]).Ok?) ==> r.Ok?
  {
    if names == [] then Ok([])
    else
      match ViewRead(data, transforms, names[0])
      case Err(e) => Err(e)
      case Ok(v) =>
        match ViewReadAll(data, transforms, names[1..])
        case Err(e) => Err(e)
        case Ok(vs) => Ok([v] + vs)
  }

  /** Write then read: where the name's transform is an inverse pair (or it
      has none), reading a successfully written name gives the value
      written, and every other name reads as before. */
  lemma ReadAfterWrite(data: Dict<string, Value>, transforms: map<string, Transform>, name: string, value: Value, other: string)
    requires name in transforms ==> Inverse(transforms[name])
    requires ViewWrite(data, transforms, name, value).Ok?
    ensures ViewRead(ViewWrite(data, transforms, name, value).value, transforms, name) == Ok(value)
    ensures other != name ==>
      ViewRead(ViewWrite(data, transforms, name, value).value, transforms, other) == ViewRead(data, transforms, other)
  {
    var after := ViewWrite(data, transforms, name, value).value;
    var stored := if name in transforms then transforms[name].fromDb(value).value else value;
    assert after == Put(data, name, stored);
    assert HasKey(after, name) && Get(after, name) == stored;
    if name in transforms {
      var t := transforms[name];
      assert t.fromDb(value) == Some(stored);
      assert t.toDb(stored) == Some(value);
      assert ViewRead(after, transforms, name) == Ok(value);
    }
    if other != name {
      if HasKey(data, other) {
        assert HasKey(after, other) && Get(after, other) == Get(data, other);
      } else {
        assert !HasKey(after, other) by {
          assert Keys(after) == Keys(data) || Keys(after) == Keys(data) + [name];
        }
      }
    }
  }

  /** The transformed view of a form's values: reads and writes go through
      the transforms to the dict the binder holds. */
  class TransformedView {
    var data: Dict<string, Value>
    var transforms: map<string, Transform>

    constructor(data: Dict<string, Value>, transforms: map<string, Transform>)
      ensures this.data == data && this.transforms == transforms
    {
      this.data := data;
      this.transforms := transforms;
    }

    function Read(name: string): Result<Value, Failure>
      reads this
    {
      ViewRead(data, transforms, name)
    }

    method Write(name: string, value: Value) returns (r: Result<(), Failure>)
      modifies this
      ensures ViewWrite(old(data), transforms, name, value).Ok? ==>
        r == Ok(()) && data == ViewWrite(old(data), transforms, name, value).value
      ensures ViewWrite(old(data), transforms, name, value).Err? ==>
        r == Err(ConversionFailed(name)) && data == old(data)
      ensures transforms == old(transforms)
    {
      match ViewWrite(data, transforms, name, value)
      case Ok(d) =>
        data := d;
        return Ok(());
      case Err(e) =>
        return Err(e);
    }

    /** `len(view)` and `iter(view)` are those of the underlying dict. */
    function Length(): (n: nat)
      reads this
      ensures n == |Keys(data)|
    {
      |data|
    }

    function Names(): (ks: seq<string>)
      reads this
      ensures |ks| == |data| && forall i :: 0 <= i < |data| ==> ks[i] == data[i].0
    {
      Keys(data)
    }

    /** `del view[name]` always raises. */
    function Delete(name: string): (r: Result<(), Failure>)
      ensures r.Err? && r.error.NotDeletable?
    {
      Err(NotDeletable(name))
    }
  }

  // ----------------------------------------------------------------- Binder

  /** A widget, by identity. */
  type Widget = nat

  /** `_set_defaults` on a copy: each default, in order, is stored under its
      name unless the name already holds a value. */
  function FillDefaults(data: Dict<string, Value>, defaults: Dict<string, Value>): Dict<string, Value>
    decreases |defaults|
  {
    if defaults == [] then data
    else
      var (name, value) := defaults[0];
      FillDefaults(if HasKey(data, name) then data else Put(data, name, value), defaults[1..])
  }

  /** Defaults never overwrite a value already held. */
  lemma {:induction false} DefaultsKeep(data: Dict<string, Value>, defaults: Dict<string, Value>, name: string)
    requires HasKey(data, name)
    ensures HasKey(FillDefaults(data, defaults), name)
    ensures Get(FillDefaults(data, defaults), name) == Get(data, name)
    decreases |defaults|
  {
    if defaults != [] {
      var (n, v) := defaults[0];
      var next := if HasKey(data, n) then data else Put(data, n, v);
      DefaultsKeep(next, defaults[1..], name);
    }
  }

  /** A name without a value gets its (first) default. */
  lemma {:induction false} DefaultsAdd(data: Dict<string, Value>, defaults: Dict<string, Value>, name: string)
    requires !HasKey(data, name) && HasKey(defaults, name)
    ensures HasKey(FillDefaults(data, defaults), name)
    ensures Get(FillDefaults(data, defaults), name) == Get(defaults, name)
    decreases |defaults|
  {
    var (n, v) := defaults[0];
    if n == name {
      DefaultsKeep(Put(data, n, v), defaults[1..], name);
    } else {
      assert Keys(defaults) == [n] + Keys(defaults[1..]);
      var next := if HasKey(data, n) then data else Put(data, n, v);
      DefaultsAdd(next, defaults[1..], name);
    }
  }

  /** Nothing but held values and defaults appears. */
  lemma {:induction false} DefaultsOnly(data: Dict<string, Value>, defaults: Dict<string, Value>, name: string)
    requires HasKey(FillDefaults(data, defaults), name)
    ensures HasKey(data, name) || HasKey(defaults, name)
    decreases |defaults|
  {
    if defaults != [] {
      var (n, v) := defaults[0];
      var next := if HasKey(data, n) then data else Put(data, n, v);
      assert Keys(defaults) == [n] + Keys(defaults[1..]);
      DefaultsOnly(next, defaults[1..], name);
    }
  }

  /** The values a form holds and the widgets bound to it: `Binder`. */
  class Binder {
    const view: TransformedView
    var widgetNames: Dict<Widget, string>
    var defaults: Dict<string, Value>

    /** A binder starts with its defaults and nothing bound. */
    constructor(transforms: map<string, Transform>, defaults: Dict<string, Value>)
      ensures view.data == FillDefaults([], defaults) && view.transforms == transforms
      ensures this.defaults == defaults && widgetNames == []
      ensures fresh(view)
    {
      this.defaults := defaults;
      widgetNames := [];
      view := new TransformedView([], transforms);
      new;
      SetDefaults();
    }

    /** `bind`: records the widget's column, and its transform and default
        when given. */
    method Bind(widget: Widget, name: string, transform: Option<Transform>, default: Option<Value>)
      modifies this, view
      ensures widgetNames == Put(old(widgetNames), widget, name)
      ensures defaults == if default.Some? then Put(old(defaults), name, default.value) else old(defaults)
      ensures view.transforms == if transform.Some? then old(view.transforms)[name := transform.value] else old(view.transforms)
      ensures view.data == old(view.data)
    {
      if transform.Some? {
        view.transforms := view.transforms[name := transform.value];
      }
      if default.Some? {
        defaults := Put(defaults, name, default.value);
      }
      widgetNames := Put(widgetNames, widget, name);
    }

    /** `_set_defaults`. */
    method SetDefaults()
      modifies view
      ensures view.data == FillDefaults(old(view.data), defaults)
      ensures view.transforms == old(view.transforms)
    {
      ghost var start := view.data;
      for i := 0 to |defaults|
        invariant FillDefaults(view.data, defaults[i..]) == FillDefaults(start, defaults)
        invariant view.transforms == old(view.transforms)
      {
        var (name, value) := defaults[i];
        assert defaults[i..][1..] == defaults[i + 1..];
        if !HasKey(view.data, name) {
          view.data := Put(view.data, name, value);
        }
      }
    }

    /** `Binder._save_widget_value`: the value goes, untransformed, under the
        widget's column; an unbound widget raises KeyError. */
    method SaveValue(widget: Widget, value: Value) returns (r: Result<(), Failure>)
      modifies view
      ensures HasKey(widgetNames, widget) ==>
        r == Ok(()) && view.data == Put(old(view.data), Get(widgetNames, widget), value)
      ensures !HasKey(widgetNames, widget) ==> r == Err(UnboundWidget(widget)) && view.data == old(view.data)
      ensures view.transforms == old(view.transforms)
    {
      if !HasKey(widgetNames, widget) {
        return Err(UnboundWidget(widget));
      }
      view.data := Put(view.data, Get(widgetNames, widget), value);
      return Ok(());
    }
  }

  // ------------------------------------------------------------ statements

  datatype Statement = Statement(sql: string, params: seq<Value>)

  /** `', '.join(parts)`. */
  function CommaJoin(parts: seq<string>): string
    decreases |parts|
  {
    if parts == [] then ""
    else if |parts| == 1 then parts[0]
    else parts[0] + ", " + CommaJoin(parts[1..])
  }

  /** `['?'] * n`. */
  function Marks(n: nat): (ms: seq<string>)
    ensures |ms| == n && forall i :: 0 <= i < n ==> ms[i] == "?"
  {
    if n == 0 then [] else ["?"] + Marks(n - 1)
  }

  /** The `?` placeholders of an insert or replace: one per column. */
  lemma {:induction false} MarksCount(n: nat)
    ensures CountChar(CommaJoin(Marks(n)), '?') == n
  {
    if n == 1 {
      assert CommaJoin(Marks(1)) == "?";
    } else if n > 1 {
      assert Marks(n)[1..] == Marks(n - 1);
      MarksCount(n - 1);
      CountCharAppend("?", ", ", '?');
      CountCharAppend("?" + ", ", CommaJoin(Marks(n - 1)), '?');
    }
  }

  /** Names free of `?` join to a string free of `?`. */
  lemma {:induction false} JoinNoMark(parts: seq<string>)
    requires forall i :: 0 <= i < |parts| ==> '?' !in parts[i]
    ensures '?' !in CommaJoin(parts)
    decreases |parts|
  {
    if |parts| > 1 {
      JoinNoMark(parts[1..]);
    }
  }

  /** `<verb> into <table> (<names>) values (?, ..., ?)`. */
  function WriteCommand(verb: string, table: string, names: seq<string>): string {
    verb + " into " + table + " (" + CommaJoin(names) + ") values (" + CommaJoin(Marks(|names|)) + ")"
  }

  /** The statement starts with its verb, and where neither the table nor a
      column name contains `?` it has exactly one placeholder per column. */
  lemma WriteCommandShape(verb: string, table: string, names: seq<string>)
    requires '?' !in verb && '?' !in table
    requires forall i :: 0 <= i < |names| ==> '?' !in names[i]
    ensures |WriteCommand(verb, table, names)| > |verb|
    ensures WriteCommand(verb, table, names)[..|verb|] == verb
    ensures CountChar(WriteCommand(verb, table, names), '?') == |names|
  {
    var cmd := WriteCommand(verb, table, names);
    var head := verb + " into " + table + " (" + CommaJoin(names) + ") values (";
    var marks := CommaJoin(Marks(|names|));
    assert cmd == head + marks + ")";
    assert cmd[..|verb|] == verb;
    JoinNoMark(names);
    CountCharAbsent(head, '?');
    MarksCount(|names|);
    CountCharAppend(head, marks, '?');
    CountCharAppend(head + marks, ")", '?');
    CountCharAbsent(")", '?');
  }

  /** `select <names> from <table> where <key> = ?`. */
  function SelectCommand(names: seq<string>, table: string, key: string): string {
    "select " + CommaJoin(names) + " from " + table + " where " + key + " = ?"
  }

  // ---------------------------------------------------- SingleTableStatic

  /** `_have_all_keys`: whether every key name is in the view; every name is
      tested (no short cut), so a raising transform on any key raises, and
      with no key names `reduce` raises. */
  function AllKeys(data: Dict<string, Value>, transforms: map<string, Transform>, keyNames: seq<string>)
    : (r: Result<bool, Failure>)
    ensures keyNames == [] ==> r == Err(NoKeyNames)
    ensures r == Ok(true) <==> keyNames != [] && forall i :: 0 <= i < |keyNames| ==> ViewRead(data, transforms, keyNames[i]).Ok?
    ensures r == Ok(false) ==> exists i :: 0 <= i < |keyNames| && !HasKey(data, keyNames[i])
    decreases |keyNames|
  {
    if keyNames == [] then Err(NoKeyNames)
    else
      var first := ViewContains(data, transforms, keyNames[0]);
      if |keyNames| == 1 then first
      else
        var rest := AllKeys(data, transforms, keyNames[1..]);
        if first.Err? then first
        else if rest.Err? then rest
        else Ok(first.value && rest.value)
  }

  /** The settings of a single-table static form. */
  datatype StaticConfig = StaticConfig(table: string, keyNames: seq<string>, autosave: bool, insertCallback: bool)

  /** What a static form changes: its values, the statements executed, the
      insert-callback calls and the "not saving" warnings. */
  datatype StaticState = StaticState(data: Dict<string, Value>, issued: seq<Statement>, inserted: nat, warnings: nat)

  /** `SingleTableStatic.write_values_to_db`: `replace` when every key is
      present, else `insert`, naming every column in the view's order with
      one `?` and one (transformed) value each; after an insert with one key
      name the key takes the new row id `rowId` and the insert callback
      runs. A raise stops it where it happens. */
  function StaticWrite(tr: map<string, Transform>, c: StaticConfig, s: StaticState, rowId: int)
    : (Result<(), Failure>, StaticState)
  {
    match AllKeys(s.data, tr, c.keyNames)
    case Err(e) => (Err(e), s)
    case Ok(all) =>
      match ViewReadAll(s.data, tr, Keys(s.data))
      case Err(e) => (Err(e), s)
      case Ok(values) =>
        var cmd := WriteCommand(if all then "replace" else "insert", c.table, Keys(s.data));
        var s1 := s.(issued := s.issued + [Statement(cmd, values)]);
        if !all && |c.keyNames| == 1 then
          match ViewWrite(s1.data, tr, c.keyNames[0], Int(rowId))
          case Err(e) => (Err(e), s1)
          case Ok(d) => (Ok(()), s1.(data := d, inserted := s1.inserted + if c.insertCallback then 1 else 0))
        else (Ok(()), s1)
  }

  /** `SingleTableStatic._save_widget_value`: stores the value, then with
      autosave writes when every key is present and otherwise warns. */
  function StaticSave(tr: map<string, Transform>, widgetNames: Dict<Widget, string>, c: StaticConfig,
                      s: StaticState, widget: Widget, value: Value, rowId: int)
    : (Result<(), Failure>, StaticState)
  {
    if !HasKey(widgetNames, widget) then (Err(UnboundWidget(widget)), s)
    else
      var s1 := s.(data := Put(s.data, Get(widgetNames, widget), value));
      if !c.autosave then (Ok(()), s1)
      else StaticAutosave(tr, c, s1, rowId)
  }

  /** Autosave: a write when every key is present, a warning otherwise. */
  function StaticAutosave(tr: map<string, Transform>, c: StaticConfig, s: StaticState, rowId: int)
    : (Result<(), Failure>, StaticState)
  {
    match AllKeys(s.data, tr, c.keyNames)
    case Ok(true) => StaticWrite(tr, c, s, rowId)
    case Ok(false) => (Ok(()), s.(warnings := s.warnings + 1))
    case Err(e) => (Err(e), s)
  }

  /** A write executes exactly one statement unless it raises before: a
      `replace` exactly when every key is present, otherwise an `insert`,
      naming the view's columns in order with one value each (and so,
      by WriteCommandShape, one placeholder each). */
  lemma StaticWriteStatement(tr: map<string, Transform>, c: StaticConfig, s: StaticState, rowId: int)
    ensures var (r, s') := StaticWrite(tr, c, s, rowId);
      var all := AllKeys(s.data, tr, c.keyNames);
      var values := ViewReadAll(s.data, tr, Keys(s.data));
      && (all.Err? || values.Err? ==> r.Err? && s' == s)
      && (all.Ok? && values.Ok? ==>
            s'.issued == s.issued + [Statement(WriteCommand(if all.value then "replace" else "insert", c.table, Keys(s.data)), values.value)]
            && |values.value| == |s.data|)
  {
    var all := AllKeys(s.data, tr, c.keyNames);
    var values := ViewReadAll(s.data, tr, Keys(s.data));
    if all.Ok? && values.Ok? {
      var cmd := WriteCommand(if all.value then "replace" else "insert", c.table, Keys(s.data));
      var issued := s.issued + [Statement(cmd, values.value)];
      if !all.value && |c.keyNames| == 1 {
        match ViewWrite(s.data, tr, c.keyNames[0], Int(rowId))
        case Err(e) => assert StaticWrite(tr, c, s, rowId).1.issued == issued;
        case Ok(d) => assert StaticWrite(tr, c, s, rowId).1.issued == issued;
      } else {
        assert StaticWrite(tr, c, s, rowId).1.issued == issued;
      }
    }
  }

  /** After an insert under a single key name, the key reads as the new row
      id (where its transform is an inverse pair or it has none), the other
      columns read as before, and the insert callback has run once if set;
      with every key present, or several key names, the values are kept. */
  lemma StaticInsertSetsKey(tr: map<string, Transform>, c: StaticConfig, s: StaticState, rowId: int, other: string)
    requires |c.keyNames| == 1 && (c.keyNames[0] in tr ==> Inverse(tr[c.keyNames[0]]))
    requires AllKeys(s.data, tr, c.keyNames) == Ok(false)
    requires StaticWrite(tr, c, s, rowId).0.Ok?
    ensures var s' := StaticWrite(tr, c, s, rowId).1;
      && ViewRead(s'.data, tr, c.keyNames[0]) == Ok(Int(rowId))
      && (other != c.keyNames[0] ==> ViewRead(s'.data, tr, other) == ViewRead(s.data, tr, other))
      && s'.inserted == s.inserted + (if c.insertCallback then 1 else 0)
  {
    ReadAfterWrite(s.data, tr, c.keyNames[0], Int(rowId), other);
  }

  lemma StaticReplaceKeeps(tr: map<string, Transform>, c: StaticConfig, s: StaticState, rowId: int)
    requires AllKeys(s.data, tr, c.keyNames) == Ok(true) || |c.keyNames| != 1
    ensures var s' := StaticWrite(tr, c, s, rowId).1; s'.data == s.data && s'.inserted == s.inserted
  {
  }

  /** Saving a widget value executes a statement only under autosave with
      every key present; under autosave with a key missing it warns instead,
      and it never warns otherwise. The value is stored whatever happens
      next. */
  lemma StaticSaveWrites(tr: map<string, Transform>, widgetNames: Dict<Widget, string>, c: StaticConfig,
                         s: StaticState, widget: Widget, value: Value, rowId: int)
    requires HasKey(widgetNames, widget)
    ensures var (r, s') := StaticSave(tr, widgetNames, c, s, widget, value, rowId);
      var saved := Put(s.data, Get(widgetNames, widget), value);
      var all := AllKeys(saved, tr, c.keyNames);
      && (s'.issued != s.issued <==> c.autosave && all == Ok(true) && ViewReadAll(saved, tr, Keys(saved)).Ok?)
      && (s'.warnings == s.warnings + 1 <==> c.autosave && all == Ok(false))
      && (s'.warnings == s.warnings <==> !(c.autosave && all == Ok(false)))
      && (!(c.autosave && all == Ok(true)) ==> s'.data == saved)
  {
  }

  /** The statements of a save only extend the log. */
  lemma StaticSaveAppends(tr: map<string, Transform>, widgetNames: Dict<Widget, string>, c: StaticConfig,
                          s: StaticState, widget: Widget, value: Value, rowId: int)
    ensures var s' := StaticSave(tr, widgetNames, c, s, widget, value, rowId).1;
      |s.issued| <= |s'.issued| <= |s.issued| + 1 && s'.issued[..|s.issued|] == s.issued
  {
  }

  /** A form saved to a single table, with its key columns. */
  class StaticTable {
    const binder: Binder
    const config: StaticConfig
    /** The statements executed, in order. */
    var issued: seq<Statement>
    /** Calls of the insert callback. */
    var inserted: nat
    /** "Not saving because missing key values" warnings. */
    var warnings: nat

    constructor(binder: Binder, config: StaticConfig)
      ensures this.binder == binder && this.config == config
      ensures issued == [] && inserted == 0 && warnings == 0
    {
      this.binder := binder;
      this.config := config;
      issued := [];
      inserted := 0;
      warnings := 0;
    }

    function State(): StaticState
      reads this, binder.view
    {
      StaticState(binder.view.data, issued, inserted, warnings)
    }

    method WriteValues(rowId: int) returns (r: Result<(), Failure>)
      modifies this, binder.view
      ensures (r, State()) == StaticWrite(binder.view.transforms, config, old(State()), rowId)
      ensures binder.view.transforms == old(binder.view.transforms)
    {
      var replace := AllKeys(binder.view.data, binder.view.transforms, config.keyNames);
      if replace.Err? {
        return Err(replace.error);
      }
      var names := binder.view.Names();
      var values := ViewReadAll(binder.view.data, binder.view.transforms, names);
      if values.Err? {
        return Err(values.error);
      }
      var cmd := WriteCommand(if replace.value then "replace" else "insert", config.table, names);
      issued := issued + [Statement(cmd, values.value)];
      if !replace.value && |config.keyNames| == 1 {
        r := binder.view.Write(config.keyNames[0], Int(rowId));
        if r.Ok? && config.insertCallback {
          inserted := inserted + 1;
        }
        return;
      }
      return Ok(());
    }

    method SaveWidgetValue(widget: Widget, value: Value, rowId: int) returns (r: Result<(), Failure>)
      modifies this, binder.view
      ensures (r, State()) == StaticSave(binder.view.transforms, binder.widgetNames, config, old(State()), widget, value, rowId)
      ensures binder.view.transforms == old(binder.view.transforms)
    {
      r := binder.SaveValue(widget, value);
      if r.Ok? && config.autosave {
        r := Autosave(rowId);
      }
    }

    method Autosave(rowId: int) returns (r: Result<(), Failure>)
      modifies this, binder.view
      ensures (r, State()) == StaticAutosave(binder.view.transforms, config, old(State()), rowId)
      ensures binder.view.transforms == old(binder.view.transforms)
    {
      var all := AllKeys(binder.view.data, binder.view.transforms, config.keyNames);
      match all {
        case Ok(true) =>
          r := WriteValues(rowId);
        case Ok(false) =>
          warnings := warnings + 1;
          r := Ok(());
        case Err(e) =>
          r := Err(e);
      }
    }
  }

  // --------------------------------------------------- SingleTableDynamic

  /** `_save_widget_value` changes the key: the widget is the key widget and
      either no key is held or the value differs from the held one. */
  predicate KeyChanges(data: Dict<string, Value>, widgetName: string, keyName: Option<string>, value: Value) {
    keyName == Some(widgetName) && (!HasKey(data, widgetName) || value != Get(data, widgetName))
  }

  /** `row[name]` for each name, stored through the view in order. */
  function StoreRow(data: Dict<string, Value>, transforms: map<string, Transform>, names: seq<string>, row: Dict<string, Value>)
    : (r: Result<Dict<string, Value>, Failure>)
    ensures r.Ok? ==> forall i :: 0 <= i < |names| ==> HasKey(row, names[i])
    decreases |names|
  {
    if names == [] then Ok(data)
    else if !HasKey(row, names[0]) then Err(KeyError(names[0]))
    else
      match ViewWrite(data, transforms, names[0], Get(row, names[0]))
      case Err(e) => Err(e)
      case Ok(d) => StoreRow(d, transforms, names[1..], row)
  }

  /** Every bound widget's column holds a value, so the broadcast reads
      them all. */
  predicate AllBound(data: Dict<string, Value>, widgetNames: Dict<Widget, string>) {
    forall i :: 0 <= i < |widgetNames| ==> HasKey(data, widgetNames[i].1)
  }

  /** What a dynamic form changes: its values, the statements executed and
      the pushes of every value back to the widgets. */
  datatype DynamicState = DynamicState(data: Dict<string, Value>, issued: seq<Statement>, broadcasts: nat)

  /** `SingleTableDynamic.write_values_to_db`: a `replace` naming every
      column with one `?` and one (transformed) value each. */
  function DynamicWrite(tr: map<string, Transform>, table: string, s: DynamicState): (Result<(), Failure>, DynamicState) {
    match ViewReadAll(s.data, tr, Keys(s.data))
    case Err(e) => (Err(e), s)
    case Ok(values) => (Ok(()), s.(issued := s.issued + [Statement(WriteCommand("replace", table, Keys(s.data)), values)]))
  }

  /** `SingleTableDynamic.read_values_from_db`: selects the widgets'
      columns of the key's row, fills the defaults, stores the row the
      database answered (`row`, if any) through the view, and stores the key
      read before back through the view. */
  function DynamicRead(tr: map<string, Transform>, widgetNames: Dict<Widget, string>, defaults: Dict<string, Value>,
                       table: string, key: string, s: DynamicState, row: Option<Dict<string, Value>>)
    : (Result<(), Failure>, DynamicState)
  {
    match ViewRead(s.data, tr, key)
    case Err(e) => (Err(e), s)
    case Ok(k) =>
      var s1 := s.(issued := s.issued + [Statement(SelectCommand(Values(widgetNames), table, key), [k])],
                   data := FillDefaults(s.data, defaults));
      var stored := if row.Some? && row.value != [] then StoreRow(s1.data, tr, Values(widgetNames), row.value) else Ok(s1.data);
      match stored
      case Err(e) => (Err(e), s1)
      case Ok(d) =>
        match ViewWrite(d, tr, key, k)
        case Err(e) => (Err(e), s1.(data := d))
        case Ok(d') => (Ok(()), s1.(data := d'))
  }

  /** The end of a change of key: stores the value, reads the new key's
      row and broadcasts every value to the widgets. */
  function DynamicLoad(tr: map<string, Transform>, widgetNames: Dict<Widget, string>, defaults: Dict<string, Value>,
                       table: string, key: string, s: DynamicState, value: Value, row: Option<Dict<string, Value>>)
    : (Result<(), Failure>, DynamicState)
  {
    var read := DynamicRead(tr, widgetNames, defaults, table, key, s.(data := Put(s.data, key, value)), row);
    if read.0.Err? then read
    else if !AllBound(read.1.data, widgetNames) then (Err(UnsetWidgetValue), read.1)
    else (Ok(()), read.1.(broadcasts := read.1.broadcasts + 1))
  }

  /** A change of key: writes the current row first when a key is held,
      then loads the new key's row. */
  function DynamicChangeKey(tr: map<string, Transform>, widgetNames: Dict<Widget, string>, defaults: Dict<string, Value>,
                            table: string, key: string, s: DynamicState, value: Value, row: Option<Dict<string, Value>>)
    : (Result<(), Failure>, DynamicState)
  {
    match ViewContains(s.data, tr, key)
    case Err(e) => (Err(e), s)
    case Ok(held) =>
      var (w, s1) := if held then DynamicWrite(tr, table, s) else (Ok(()), s);
      if w.Err? then (w, s1)
      else DynamicLoad(tr, widgetNames, defaults, table, key, s1, value, row)
  }

  /** `DynamicBinder._save_widget_value`: a change of key goes through the
      database; any other change only stores the value. */
  function DynamicSave(tr: map<string, Transform>, widgetNames: Dict<Widget, string>, defaults: Dict<string, Value>,
                       table: string, keyName: Option<string>, s: DynamicState,
                       widget: Widget, value: Value, row: Option<Dict<string, Value>>)
    : (Result<(), Failure>, DynamicState)
  {
    if !HasKey(widgetNames, widget) then (Err(UnboundWidget(widget)), s)
    else
      var name := Get(widgetNames, widget);
      if !KeyChanges(s.data, name, keyName, value) then (Ok(()), s.(data := Put(s.data, name, value)))
      else DynamicChangeKey(tr, widgetNames, defaults, table, name, s, value, row)
  }

  /** A value that does not change the key touches no statement and no
      widget: it is only stored. */
  lemma DynamicSameKey(tr: map<string, Transform>, widgetNames: Dict<Widget, string>, defaults: Dict<string, Value>,
                       table: string, keyName: Option<string>, s: DynamicState,
                       widget: Widget, value: Value, row: Option<Dict<string, Value>>)
    requires HasKey(widgetNames, widget) && !KeyChanges(s.data, Get(widgetNames, widget), keyName, value)
    ensures var (r, s') := DynamicSave(tr, widgetNames, defaults, table, keyName, s, widget, value, row);
      r.Ok? && s'.issued == s.issued && s'.broadcasts == s.broadcasts &&
      s'.data == Put(s.data, Get(widgetNames, widget), value)
  {
  }

  /** A read that gets the key executes one `select` of the widgets'
      columns, with the key as the view reads it. */
  lemma DynamicReadSelects(tr: map<string, Transform>, widgetNames: Dict<Widget, string>, defaults: Dict<string, Value>,
                           table: string, key: string, s: DynamicState, row: Option<Dict<string, Value>>)
    ensures var (r, s') := DynamicRead(tr, widgetNames, defaults, table, key, s, row);
      && (ViewRead(s.data, tr, key).Err? ==> r.Err? && s' == s)
      && (ViewRead(s.data, tr, key).Ok? ==>
            s'.issued == s.issued + [Statement(SelectCommand(Values(widgetNames), table, key), [ViewRead(s.data, tr, key).value])])
      && s'.broadcasts == s.broadcasts
  {
  }

  /** A load that completes stores the value, executes the `select` for it
      and broadcasts once. */
  lemma DynamicLoadSelects(tr: map<string, Transform>, widgetNames: Dict<Widget, string>, defaults: Dict<string, Value>,
                           table: string, key: string, s: DynamicState, value: Value, row: Option<Dict<string, Value>>)
    requires DynamicLoad(tr, widgetNames, defaults, table, key, s, value, row).0.Ok?
    ensures var s' := DynamicLoad(tr, widgetNames, defaults, table, key, s, value, row).1;
      var stored := Put(s.data, key, value);
      && ViewRead(stored, tr, key).Ok?
      && s'.issued == s.issued + [Statement(SelectCommand(Values(widgetNames), table, key), [ViewRead(stored, tr, key).value])]
      && s'.broadcasts == s.broadcasts + 1
  {
    var stored := s.(data := Put(s.data, key, value));
    DynamicReadSelects(tr, widgetNames, defaults, table, key, stored, row);
  }

  /** A change of key goes through the key's `replace` (if held) and load. */
  lemma DynamicChangeSteps(tr: map<string, Transform>, widgetNames: Dict<Widget, string>, defaults: Dict<string, Value>,
                           table: string, keyName: Option<string>, s: DynamicState,
                           widget: Widget, value: Value, row: Option<Dict<string, Value>>)
    requires HasKey(widgetNames, widget) && KeyChanges(s.data, Get(widgetNames, widget), keyName, value)
    requires DynamicSave(tr, widgetNames, defaults, table, keyName, s, widget, value, row).0.Ok?
    ensures ViewContains(s.data, tr, keyName.value).Ok?
    ensures var written := if ViewContains(s.data, tr, keyName.value) == Ok(true) then DynamicWrite(tr, table, s) else (Ok(()), s);
      && written.0.Ok? && written.1.data == s.data
      && DynamicSave(tr, widgetNames, defaults, table, keyName, s, widget, value, row) ==
         DynamicLoad(tr, widgetNames, defaults, table, keyName.value, written.1, value, row)
  {
  }

  /** A change of key that completes executes, in order, a `replace` of the
      current row when a key was held (nothing before the read otherwise)
      and then the `select` of the new key's row, with the key just stored as
      the view reads it, and broadcasts once. */
  lemma DynamicKeyChange(tr: map<string, Transform>, widgetNames: Dict<Widget, string>, defaults: Dict<string, Value>,
                         table: string, keyName: Option<string>, s: DynamicState,
                         widget: Widget, value: Value, row: Option<Dict<string, Value>>)
    requires HasKey(widgetNames, widget) && KeyChanges(s.data, Get(widgetNames, widget), keyName, value)
    requires DynamicSave(tr, widgetNames, defaults, table, keyName, s, widget, value, row).0.Ok?
    ensures var s' := DynamicSave(tr, widgetNames, defaults, table, keyName, s, widget, value, row).1;
      var key := keyName.value;
      var stored := Put(s.data, key, value);
      && ViewRead(stored, tr, key).Ok?
      && var select := Statement(SelectCommand(Values(widgetNames), table, key), [ViewRead(stored, tr, key).value]);
      && (ViewContains(s.data, tr, key) == Ok(true) ==>
            ViewReadAll(s.data, tr, Keys(s.data)).Ok? &&
            s'.issued == s.issued + [Statement(WriteCommand("replace", table, Keys(s.data)), ViewReadAll(s.data, tr, Keys(s.data)).value), select])
      && (ViewContains(s.data, tr, key) == Ok(false) ==> s'.issued == s.issued + [select])
      && s'.broadcasts == s.broadcasts + 1
  {
    var key := keyName.value;
    DynamicChangeSteps(tr, widgetNames, defaults, table, keyName, s, widget, value, row);
    var written := if ViewContains(s.data, tr, key) == Ok(true) then DynamicWrite(tr, table, s) else (Ok(()), s);
    DynamicLoadSelects(tr, widgetNames, defaults, table, key, written.1, value, row);
  }

  /** A form whose key widget selects the row it edits. */
  class DynamicTable {
    const binder: Binder
    const table: string
    var keyName: Option<string>
    var keyWidget: Option<Widget>
    /** The statements executed, in order. */
    var issued: seq<Statement>
    /** Pushes of every value back to the widgets. */
    var broadcasts: nat

    constructor(binder: Binder, table: string)
      ensures this.binder == binder && this.table == table
      ensures keyName == None && keyWidget == None && issued == [] && broadcasts == 0
    {
      this.binder := binder;
      this.table := table;
      keyName := None;
      keyWidget := None;
      issued := [];
      broadcasts := 0;
    }

    function State(): DynamicState
      reads this, binder.view
    {
      DynamicState(binder.view.data, issued, broadcasts)
    }

    /** `bind_key`. */
    method BindKey(widget: Widget, name: string)
      modifies this, binder, binder.view
      ensures keyName == Some(name) && keyWidget == Some(widget)
      ensures binder.widgetNames == Put(old(binder.widgetNames), widget, name)
      ensures binder.view.data == old(binder.view.data) && binder.view.transforms == old(binder.view.transforms)
      ensures binder.defaults == old(binder.defaults)
      ensures issued == old(issued) && broadcasts == old(broadcasts)
    {
      keyWidget := Some(widget);
      keyName := Some(name);
      binder.Bind(widget, name, None, None);
    }

    method WriteValues() returns (r: Result<(), Failure>)
      modifies this
      ensures (r, State()) == DynamicWrite(binder.view.transforms, table, old(State()))
      ensures keyName == old(keyName) && keyWidget == old(keyWidget)
    {
      var names := binder.view.Names();
      var values := ViewReadAll(binder.view.data, binder.view.transforms, names);
      if values.Err? {
        return Err(values.error);
      }
      issued := issued + [Statement(WriteCommand("replace", table, names), values.value)];
      return Ok(());
    }

    method ReadValues(key: string, row: Option<Dict<string, Value>>) returns (r: Result<(), Failure>)
      modifies this, binder.view
      ensures (r, State()) == DynamicRead(binder.view.transforms, binder.widgetNames, binder.defaults, table, key, old(State()), row)
      ensures binder.view.transforms == old(binder.view.transforms)
      ensures keyName == old(keyName) && keyWidget == old(keyWidget)
    {
      var k := binder.view.Read(key);
      if k.Err? {
        return Err(k.error);
      }
      var names := Values(binder.widgetNames);
      issued := issued + [Statement(SelectCommand(names, table, key), [k.value])];
      binder.SetDefaults();
      if row.Some? && row.value != [] {
        var stored := StoreRow(binder.view.data, binder.view.transforms, names, row.value);
        if stored.Err? {
          return Err(stored.error);
        }
        binder.view.data := stored.value;
      }
      r := binder.view.Write(key, k.value);
    }

    method Load(widget: Widget, value: Value, row: Option<Dict<string, Value>>) returns (r: Result<(), Failure>)
      requires HasKey(binder.widgetNames, widget)
      modifies this, binder.view
      ensures (r, State()) == DynamicLoad(old(binder.view.transforms), binder.widgetNames, binder.defaults, table,
                                          Get(binder.widgetNames, widget), old(State()), value, row)
      ensures keyName == old(keyName) && keyWidget == old(keyWidget)
    {
      var result := DynamicLoad(binder.view.transforms, binder.widgetNames, binder.defaults, table,
                                Get(binder.widgetNames, widget), State(), value, row);
      r := result.0;
      binder.view.data := result.1.data;
      issued := result.1.issued;
      broadcasts := result.1.broadcasts;
    }

    method ChangeKey(widget: Widget, value: Value, row: Option<Dict<string, Value>>) returns (r: Result<(), Failure>)
      requires HasKey(binder.widgetNames, widget)
      modifies this, binder.view
      ensures (r, State()) == DynamicChangeKey(old(binder.view.transforms), binder.widgetNames, binder.defaults, table,
                                               Get(binder.widgetNames, widget), old(State()), value, row)
      ensures keyName == old(keyName) && keyWidget == old(keyWidget)
    {
      var held := ViewContains(binder.view.data, binder.view.transforms, Get(binder.widgetNames, widget));
      if held.Err? {
        return Err(held.error);
      }
      if held.value {
        r := WriteValues();
        if r.Err? {
          return;
        }
      }
      r := Load(widget, value, row);
    }

    method SaveWidgetValue(widget: Widget, value: Value, row: Option<Dict<string, Value>>) returns (r: Result<(), Failure>)
      modifies this, binder.view
      ensures (r, State()) == DynamicSave(old(binder.view.transforms), binder.widgetNames, binder.defaults, table, keyName,
                                          old(State()), widget, value, row)
      ensures keyName == old(keyName)
    {
      if !HasKey(binder.widgetNames, widget) {
        return Err(UnboundWidget(widget));
      }
      if !KeyChanges(binder.view.data, Get(binder.widgetNames, widget), keyName, value) {
        r := binder.SaveValue(widget, value);
        return;
      }
      r := ChangeKey(widget, value, row);
    }
  }
}
