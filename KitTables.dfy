/** The kit tables: groups (a bike, a pair of shoes), items (one particular
    bike), components (the kind of part, a wheel) and models (one particular
    wheel fitted to one item). Items and models are statistic sources; each
    carries a KIT_ADDED timestamp and at most one KIT_RETIRED timestamp, here
    the maps `added` and `retired` keyed by source id. A kit thing is in use
    at t when it was added at or before t and is unretired or retired at or
    after t. Adding or undoing a model re-arranges the retirements of its
    siblings (models of the same component in the same item) so that each
    part is retired when the next one is fitted. */
module KitTables {
  import opened Wrappers

  type SourceId = nat

  datatype Kind = Group | Item | Component | Model

  /** The order in which `get_name` searches the four tables by default. */
  const AllKinds: seq<Kind> := [Group, Item, Component, Model]

  /** A row found by name: which table and which id. */
  datatype Instance = Instance(kind: Kind, id: nat)

  datatype ItemRow = ItemRow(group: nat, name: string)
  datatype ModelRow = ModelRow(item: SourceId, component: nat, name: string)

  /** The exceptions the kit operations raise. */
  datatype KitError =
    | CannotFind(name: string)
    | NameUsedFor(name: string, kind: Kind)
    | ItemNotDefined(name: string)
    | ItemExists(name: string)
    | AlreadyRetired(name: string)
    | PartExists

  /** The in-use item of `expand_item` and its models in use at that time. */
  datatype Expansion = Expansion(item: SourceId, models: set<SourceId>)

  /** `time_expired`: the retirement time, or None. */
  function Expiry(retired: map<SourceId, int>, id: SourceId): (e: Option<int>)
    ensures e.Some? <==> id in retired
    ensures e.Some? ==> e.value == retired[id]
  {
    if id in retired then Some(retired[id]) else None
  }

  /** `start <= time and (not finish or finish >= time)`: a closed interval,
      open-ended while unretired. */
  predicate InUseAt(start: int, finish: Option<int>, t: int) {
    start <= t && (finish.None? || finish.value >= t)
  }

  /** `before(time)`: b is a sibling added strictly before t and none added
      strictly before t was added later than b; None when there is no such
      sibling. Several siblings added at the same time are equally nearest. */
  predicate IsLatestBefore(sibs: set<SourceId>, added: map<SourceId, int>, t: int, b: Option<SourceId>)
    requires sibs <= added.Keys
  {
    match b
    case None => forall s :: s in sibs ==> added[s] >= t
    case Some(x) =>
      x in sibs && added[x] < t && forall s :: s in sibs && added[s] < t ==> added[s] <= added[x]
  }

  /** `after(time)`: the mirror image of `IsLatestBefore`. */
  predicate IsEarliestAfter(sibs: set<SourceId>, added: map<SourceId, int>, t: int, a: Option<SourceId>)
    requires sibs <= added.Keys
  {
    match a
    case None => forall s :: s in sibs ==> added[s] <= t
    case Some(x) =>
      x in sibs && added[x] > t && forall s :: s in sibs && added[s] > t ==> added[s] >= added[x]
  }

  lemma {:induction false} LatestBeforeExists(sibs: set<SourceId>, added: map<SourceId, int>, t: int, y: SourceId)
    requires sibs <= added.Keys && y in sibs && added[y] < t
    ensures exists x :: x in sibs && added[x] < t && forall s :: s in sibs && added[s] < t ==> added[s] <= added[x]
    decreases |sibs|
  {
    var rest := sibs - {y};
    if z :| z in rest && added[z] < t {
      LatestBeforeExists(rest, added, t, z);
      var x :| x in rest && added[x] < t && forall s :: s in rest && added[s] < t ==> added[s] <= added[x];
      if added[y] > added[x] {
        assert forall s :: s in sibs && added[s] < t ==> added[s] <= added[y];
      } else {
        assert forall s :: s in sibs && added[s] < t ==> added[s] <= added[x];
      }
    } else {
      assert forall s :: s in sibs && added[s] < t ==> added[s] <= added[y];
    }
  }

  lemma {:induction false} EarliestAfterExists(sibs: set<SourceId>, added: map<SourceId, int>, t: int, y: SourceId)
    requires sibs <= added.Keys && y in sibs && added[y] > t
    ensures exists x :: x in sibs && added[x] > t && forall s :: s in sibs && added[s] > t ==> added[s] >= added[x]
    decreases |sibs|
  {
    var rest := sibs - {y};
    if z :| z in rest && added[z] > t {
      EarliestAfterExists(rest, added, t, z);
      var x :| x in rest && added[x] > t && forall s :: s in rest && added[s] > t ==> added[s] >= added[x];
      if added[y] < added[x] {
        assert forall s :: s in sibs && added[s] > t ==> added[s] >= added[y];
      } else {
        assert forall s :: s in sibs && added[s] > t ==> added[s] >= added[x];
      }
    } else {
      assert forall s :: s in sibs && added[s] > t ==> added[s] >= added[y];
    }
  }

  /** The sibling query ordered by descending added time, first row. */
  method LatestBefore(sibs: set<SourceId>, added: map<SourceId, int>, t: int) returns (b: Option<SourceId>)
    requires sibs <= added.Keys
    ensures IsLatestBefore(sibs, added, t, b)
  {
    if y :| y in sibs && added[y] < t {
      LatestBeforeExists(sibs, added, t, y);
      var x :| x in sibs && added[x] < t && forall s :: s in sibs && added[s] < t ==> added[s] <= added[x];
      b := Some(x);
    } else {
      b := None;
    }
  }

  /** The sibling query ordered by ascending added time, first row. */
  method EarliestAfter(sibs: set<SourceId>, added: map<SourceId, int>, t: int) returns (a: Option<SourceId>)
    requires sibs <= added.Keys
    ensures IsEarliestAfter(sibs, added, t, a)
  {
    if y :| y in sibs && added[y] > t {
      EarliestAfterExists(sibs, added, t, y);
      var x :| x in sibs && added[x] > t && forall s :: s in sibs && added[s] > t ==> added[s] >= added[x];
      a := Some(x);
    } else {
      a := None;
    }
  }

  function AddedTime(added: map<SourceId, int>, a: Option<SourceId>): Option<int>
    requires a.Some? ==> a.value in added
  {
    if a.Some? then Some(added[a.value]) else None
  }

  /** The retirements after `_add_statistics` for a model `id` added at t
      whose nearest earlier and later siblings are `before` and `after`: an
      earlier sibling that is unretired, or retired after t, is retired at t
      (one retired at or before t keeps its date), and the new model is
      retired when the later sibling was added. */
  function RetireOnAdd(retired: map<SourceId, int>, added: map<SourceId, int>, id: SourceId, t: int,
                       before: Option<SourceId>, after: Option<SourceId>): map<SourceId, int>
    requires after.Some? ==> after.value in added
  {
    var kept :=
      if before.Some? && (before.value !in retired || retired[before.value] > t)
      then retired[before.value := t] else retired;
    if after.Some? then kept[id := added[after.value]] else kept
  }

  /** The retirements after `undo` deletes model `id` (and its timestamps):
      the earlier sibling loses its retirement and, when there is a later
      sibling, is retired again when that one was added. */
  function RetireOnUndo(retired: map<SourceId, int>, added: map<SourceId, int>, id: SourceId,
                        before: Option<SourceId>, after: Option<SourceId>): map<SourceId, int>
    requires after.Some? ==> after.value in added
  {
    var gone := retired - {id};
    if before.None? then gone
    else if after.Some? then gone[before.value := added[after.value]]
    else gone - {before.value}
  }

  /** Undoing a model restores the retirements from before it was added,
      provided the earlier sibling was retired exactly when the later one was
      added (or unretired when there is no later one), as adding models in
      order leaves them, and undo finds the same neighbours. */
  lemma UndoRestoresRetirements(retired: map<SourceId, int>, added: map<SourceId, int>, id: SourceId, t: int,
                                before: Option<SourceId>, after: Option<SourceId>)
    requires id !in retired
    requires after.Some? ==> after.value in added && added[after.value] > t
    requires before.Some? ==> before.value != id && Expiry(retired, before.value) == AddedTime(added, after)
    ensures RetireOnUndo(RetireOnAdd(retired, added, id, t, before, after), added, id, before, after) == retired
  {
    var r := RetireOnUndo(RetireOnAdd(retired, added, id, t, before, after), added, id, before, after);
    assert forall k :: k in r <==> k in retired;
  }

  /** The exception to the round trip: an earlier sibling that was already
      retired on or before t, with no later sibling, is left unretired by
      undo although adding did not touch it. */
  lemma UndoReopensEarlierRetirement(retired: map<SourceId, int>, added: map<SourceId, int>, id: SourceId, t: int, b: SourceId)
    requires id !in retired && b != id && b in retired && retired[b] <= t
    ensures RetireOnAdd(retired, added, id, t, Some(b), None)[b] == retired[b]
    ensures b !in RetireOnUndo(RetireOnAdd(retired, added, id, t, Some(b), None), added, id, Some(b), None)
  {
  }

  /** One entry of `model_statistics`. */
  datatype Statistic = Statistic(name: string, n: nat, total: real, units: string)

  function Sum(values: seq<real>): real
    decreases |values|
  {
    if values == [] then 0.0 else Sum(values[..|values| - 1]) + values[|values| - 1]
  }

  /** `_calculate_individual_statistics`: appends the count and sum of the
      values under `name`, and nothing when there are no values. */
  method AppendIndividual(stats: seq<Statistic>, name: string, values: seq<real>, units: string)
    returns (r: seq<Statistic>)
    ensures |r| == |stats| + (if values == [] then 0 else 1) && r[..|stats|] == stats
    ensures values != [] ==> r[|stats|] == Statistic(name, |values|, Sum(values), units)
  {
    r := stats;
    var n := |values|;
    if n > 0 {
      var total := 0.0;
      for i := 0 to n
        invariant total == Sum(values[..i])
      {
        assert values[..i + 1][..i] == values[..i];
        total := total + values[i];
      }
      assert values[..n] == values;
      r := r + [Statistic(name, n, total, units)];
    }
  }

  /** A model as `to_model` renders it under a component: its id and name. */
  datatype ModelEntry = ModelEntry(db: SourceId, name: string)
  datatype ComponentEntry = ComponentEntry(name: string, models: seq<ModelEntry>)

  /** `[model for model in models if model[DB] in model_ids]`. */
  function KeepOwn(entries: seq<ModelEntry>, own: set<SourceId>): (r: seq<ModelEntry>)
    ensures |r| <= |entries|
    decreases |entries|
  {
    if entries == [] then []
    else (if entries[0].db in own then [entries[0]] else []) + KeepOwn(entries[1..], own)
  }

  /** The filter keeps exactly the entries of this item's models. */
  lemma {:induction false} KeepOwnMembers(entries: seq<ModelEntry>, own: set<SourceId>, e: ModelEntry)
    ensures e in KeepOwn(entries, own) <==> e in entries && e.db in own
    decreases |entries|
  {
    if entries != [] {
      KeepOwnMembers(entries[1..], own, e);
      assert entries == [entries[0]] + entries[1..];
    }
  }

  /** Filtering a second time changes nothing. */
  lemma {:induction false} KeepOwnIdempotent(entries: seq<ModelEntry>, own: set<SourceId>)
    ensures KeepOwn(KeepOwn(entries, own), own) == KeepOwn(entries, own)
    decreases |entries|
  {
    if entries != [] {
      KeepOwnIdempotent(entries[1..], own);
      var rest := KeepOwn(entries[1..], own);
      if entries[0].db in own {
        assert KeepOwn(entries, own) == [entries[0]] + rest;
        assert ([entries[0]] + rest)[1..] == rest;
        assert KeepOwn([entries[0]] + rest, own) == [entries[0]] + KeepOwn(rest, own);
      } else {
        assert KeepOwn(entries, own) == rest;
      }
    }
  }


  /** The kit tables and the statistic timestamps attached to kit sources. */
  datatype Tables = Tables(
    groups: map<nat, string>,
    items: map<SourceId, ItemRow>,
    components: map<nat, string>,
    models: map<SourceId, ModelRow>,
    /** KIT_ADDED timestamps by source. */
    added: map<SourceId, int>,
    /** KIT_RETIRED timestamps by source. */
    retired: map<SourceId, int>,
    /** The next id the database hands out. */
    nextId: nat)

  /* One predicate per row-level rule, so that each rule is applied only
     where a proof names it. */
  predicate ItemInGroup(t: Tables, i: SourceId) {
    i in t.items ==> t.items[i].group in t.groups
  }

  predicate ModelInItem(t: Tables, m: SourceId) {
    m in t.models ==> t.models[m].item in t.items && t.models[m].component in t.components
  }

  predicate RetiredAfterAdded(t: Tables, m: SourceId) {
    m in t.models && m in t.retired && m in t.added ==> t.added[m] < t.retired[m]
  }

  predicate BelowNext(t: Tables, k: nat) {
    k in t.groups || k in t.items || k in t.components || k in t.models ==> k < t.nextId
  }

  predicate SameItemName(t: Tables, i: SourceId, j: SourceId) {
    i in t.items && j in t.items && t.items[i].name == t.items[j].name
  }

  predicate SameGroupName(t: Tables, g: nat, h: nat) {
    g in t.groups && h in t.groups && t.groups[g] == t.groups[h]
  }

  /** What the tables keep: every item and model has exactly one added time
      and at most one retirement; items and groups have unique names; a model
      is retired only after it was added; all ids are below `nextId`. */
  ghost predicate Consistent(t: Tables) {
    && t.items.Keys !! t.models.Keys
    && t.added.Keys == t.items.Keys + t.models.Keys
    && t.retired.Keys <= t.added.Keys
    && (forall i :: ItemInGroup(t, i))
    && (forall m :: ModelInItem(t, m))
    && (forall i, j :: SameItemName(t, i, j) ==> i == j)
    && (forall g, h :: SameGroupName(t, g, h) ==> g == h)
    && (forall m :: RetiredAfterAdded(t, m))
    && (forall k :: BelowNext(t, k))
  }

  /** No tables at all. */
  const Empty: Tables := Tables(map[], map[], map[], map[], map[], map[], 0)

  lemma EmptyConsistent()
    ensures Consistent(Empty)
  {
  }

  predicate HasName(t: Tables, kind: Kind, name: string) {
    match kind
    case Group => exists g :: g in t.groups && t.groups[g] == name
    case Item => exists i :: i in t.items && t.items[i].name == name
    case Component => exists c :: c in t.components && t.components[c] == name
    case Model => exists m :: m in t.models && t.models[m].name == name
  }

  predicate Named(t: Tables, inst: Instance, name: string) {
    match inst.kind
    case Group => inst.id in t.groups && t.groups[inst.id] == name
    case Item => inst.id in t.items && t.items[inst.id].name == name
    case Component => inst.id in t.components && t.components[inst.id] == name
    case Model => inst.id in t.models && t.models[inst.id].name == name
  }

  /** The position of the first table in `classes` holding the name, or
      |classes| when none does. */
  function FirstMatch(t: Tables, classes: seq<Kind>, name: string): (j: nat)
    ensures j <= |classes|
    ensures forall q :: 0 <= q < j ==> !HasName(t, classes[q], name)
    ensures j < |classes| ==> HasName(t, classes[j], name)
    decreases |classes|
  {
    if classes == [] then 0
    else if HasName(t, classes[0], name) then 0
    else 1 + FirstMatch(t, classes[1..], name)
  }

  /** No table holds the name. */
  predicate NameUnused(t: Tables, name: string) {
    !HasName(t, Group, name) && !HasName(t, Item, name) && !HasName(t, Component, name) && !HasName(t, Model, name)
  }

  /** `assert_name_does_not_exist` fails: the first table holding the name is
      not the one the caller is adding to. */
  predicate NameClash(t: Tables, name: string, use: Kind) {
    var j := FirstMatch(t, AllKinds, name);
    j < |AllKinds| && AllKinds[j] != use
  }

  method Pick(t: Tables, kind: Kind, name: string) returns (inst: Instance)
    requires HasName(t, kind, name)
    ensures inst.kind == kind && Named(t, inst, name)
  {
    match kind
    case Group =>
      var g :| g in t.groups && t.groups[g] == name;
      inst := Instance(Group, g);
    case Item =>
      var i :| i in t.items && t.items[i].name == name;
      inst := Instance(Item, i);
    case Component =>
      var c :| c in t.components && t.components[c] == name;
      inst := Instance(Component, c);
    case Model =>
      var m :| m in t.models && t.models[m].name == name;
      inst := Instance(Model, m);
  }

  /** `get_name`: tries the tables in order (all four when none are given)
      and returns a row of the first table holding the name (any one of
      several); with nothing found it raises when `require` is set and
      otherwise returns None. */
  method GetName(t: Tables, name: string, classes: seq<Kind>, require: bool) returns (r: Result<Option<Instance>, KitError>)
    ensures var cs := if classes == [] then AllKinds else classes;
      var j := FirstMatch(t, cs, name);
      && (r.Ok? && r.value.Some? <==> j < |cs|)
      && (r.Ok? && r.value.Some? ==> r.value.value.kind == cs[j] && Named(t, r.value.value, name))
      && (r.Err? <==> j == |cs| && require)
      && (r.Err? ==> r.error == CannotFind(name))
  {
    var cs := if classes == [] then AllKinds else classes;
    for i := 0 to |cs|
      invariant forall q :: 0 <= q < i ==> !HasName(t, cs[q], name)
    {
      if HasName(t, cs[i], name) {
        var inst := Pick(t, cs[i], name);
        return Ok(Some(inst));
      }
    }
    if require {
      return Err(CannotFind(name));
    }
    return Ok(None);
  }

  /** `assert_name_does_not_exist`: raises exactly when the name is found,
      searching all tables in order, in a table other than `use`. */
  method AssertNameDoesNotExist(t: Tables, name: string, use: Kind) returns (r: Result<(), KitError>)
    ensures r.Err? <==> NameClash(t, name, use)
    ensures r.Err? ==> r.error == NameUsedFor(name, AllKinds[FirstMatch(t, AllKinds, name)])
  {
    var found := GetName(t, name, [], false);
    if found.Ok? && found.value.Some? && found.value.value.kind != use {
      return Err(NameUsedFor(name, found.value.value.kind));
    }
    return Ok(());
  }

  /** `get_all_at`: the models of the item in use at `time`. */
  function GetAllAt(t: Tables, item: SourceId, time: int): (r: set<SourceId>)
    ensures r <= t.models.Keys
    ensures forall m :: m in r ==> t.models[m].item == item && m in t.added && t.added[m] <= time
  {
    set m | m in t.models && t.models[m].item == item && m in t.added
              && InUseAt(t.added[m], Expiry(t.retired, m), time)
  }

  /** In a consistent table a model is in use at the moment it is added and,
      the interval being closed, at the moment it is retired; it is not in use
      before it was added or after it was retired. */
  lemma InUseWindow(t: Tables, m: SourceId, time: int)
    requires Consistent(t) && m in t.models
    ensures m in GetAllAt(t, t.models[m].item, t.added[m])
    ensures m in t.retired ==> m in GetAllAt(t, t.models[m].item, t.retired[m])
    ensures time < t.added[m] || (m in t.retired && t.retired[m] < time) ==> m !in GetAllAt(t, t.models[m].item, time)
  {
    assert RetiredAfterAdded(t, m);
  }

  /** Because the interval is closed, at the moment one model replaces
      another both are in use. */
  lemma HandoverBothInUse(t: Tables, item: SourceId, old_: SourceId, new_: SourceId)
    requires Consistent(t) && old_ in t.models && new_ in t.models
    requires t.models[old_].item == item && t.models[new_].item == item
    requires old_ in t.retired && t.retired[old_] == t.added[new_]
    requires new_ !in t.retired || t.retired[new_] >= t.added[new_]
    ensures old_ in GetAllAt(t, item, t.added[new_]) && new_ in GetAllAt(t, item, t.added[new_])
  {
    assert RetiredAfterAdded(t, old_);
  }

  /** `expand_item`: the item of that name must exist; when it is in use at
      `time` it is returned with its models in use then, and otherwise
      nothing is. */
  method ExpandItem(t: Tables, name: string, time: int) returns (r: Result<Option<Expansion>, KitError>)
    requires Consistent(t)
    ensures r.Err? <==> !HasName(t, Item, name)
    ensures r.Err? ==> r.error == ItemNotDefined(name)
    ensures r.Ok? && r.value.Some? ==>
      var e := r.value.value;
      && e.item in t.items && t.items[e.item].name == name
      && InUseAt(t.added[e.item], Expiry(t.retired, e.item), time)
      && e.models == GetAllAt(t, e.item, time)
    ensures r.Ok? && r.value.None? ==>
      forall i :: i in t.items && t.items[i].name == name ==> !InUseAt(t.added[i], Expiry(t.retired, i), time)
  {
    if !HasName(t, Item, name) {
      return Err(ItemNotDefined(name));
    }
    var i :| i in t.items && t.items[i].name == name;
    forall j | j in t.items && t.items[j].name == name ensures j == i {
      assert SameItemName(t, i, j);
    }
    if InUseAt(t.added[i], Expiry(t.retired, i), time) {
      var inUse := set m | m in t.models && t.models[m].item == i && m in t.added
                         && InUseAt(t.added[m], Expiry(t.retired, m), time);
      return Ok(Some(Expansion(i, inUse)));
    }
    return Ok(None);
  }

  /** `lifetime`: from the added time to the retirement, or to `now`. */
  function Lifetime(t: Tables, id: SourceId, now: int): (d: int)
    requires id in t.added
    ensures id in t.retired ==> d == t.retired[id] - t.added[id]
    ensures id !in t.retired ==> d == now - t.added[id]
    ensures Consistent(t) && id in t.models && id in t.retired ==> d > 0
  {
    assert Consistent(t) ==> RetiredAfterAdded(t, id);
    (if id in t.retired then t.retired[id] else now) - t.added[id]
  }

  /** `KitItem.to_model`: with `own_models`, each component's models are cut
      down to those fitted to this item. */
  method RestrictToOwn(t: Tables, item: SourceId, cs: seq<ComponentEntry>, ownModels: bool) returns (r: seq<ComponentEntry>)
    ensures |r| == |cs|
    ensures forall i :: 0 <= i < |cs| ==> r[i].name == cs[i].name
    ensures forall i :: 0 <= i < |cs| ==>
      r[i].models == (if ownModels then KeepOwn(cs[i].models, set m | m in t.models && t.models[m].item == item) else cs[i].models)
  {
    if !ownModels {
      return cs;
    }
    var own := set m | m in t.models && t.models[m].item == item;
    r := cs;
    for i := 0 to |cs|
      invariant |r| == |cs|
      invariant forall k :: 0 <= k < |cs| ==> r[k].name == cs[k].name
      invariant forall k :: 0 <= k < i ==> r[k].models == KeepOwn(cs[k].models, own)
      invariant forall k :: i <= k < |cs| ==> r[k] == cs[k]
    {
      r := r[i := r[i].(models := KeepOwn(r[i].models, own))];
    }
  }

  /** `_reject_duplicate`: a model of this item, component and name was
      already added at this time. */
  predicate IsDuplicate(t: Tables, item: SourceId, component: nat, name: string, time: int) {
    exists m :: m in t.models && m in t.added && t.added[m] == time && t.models[m] == ModelRow(item, component, name)
  }

  /** Every model in the tables makes a second add of the same part at the
      same time a duplicate. */
  lemma AddedIsDuplicate(t: Tables, m: SourceId)
    requires m in t.models && m in t.added
    ensures IsDuplicate(t, t.models[m].item, t.models[m].component, t.models[m].name, t.added[m])
  {
    assert t.models[m] == ModelRow(t.models[m].item, t.models[m].component, t.models[m].name);
  }

  /** The models of the same component name in the item of the same name:
      the siblings `before` and `after` search among. */
  function Siblings(t: Tables, item: SourceId, component: nat): (sibs: set<SourceId>)
    ensures sibs <= t.models.Keys
  {
    SlotOf(t.items, t.components, t.models, item, component)
  }

  function SlotOf(items: map<SourceId, ItemRow>, components: map<nat, string>, models: map<SourceId, ModelRow>,
                  item: SourceId, component: nat): (sibs: set<SourceId>)
    ensures sibs <= models.Keys
  {
    set m | m in models && models[m].item in items && item in items
                        && items[models[m].item].name == items[item].name
                        && models[m].component in components && component in components
                        && components[models[m].component] == components[component]
  }

  lemma AddItemKeeps(t: Tables, group: nat, name: string, date: int)
    requires Consistent(t) && group in t.groups && !HasName(t, Item, name)
    ensures Consistent(t.(items := t.items[t.nextId := ItemRow(group, name)],
                          added := t.added[t.nextId := date], nextId := t.nextId + 1))
  {
    var n := t.nextId;
    var t' := t.(items := t.items[n := ItemRow(group, name)], added := t.added[n := date], nextId := n + 1);
    assert BelowNext(t, n);
    forall i ensures ItemInGroup(t', i) {
      assert ItemInGroup(t, i);
    }
    forall m ensures ModelInItem(t', m) {
      assert ModelInItem(t, m);
    }
    forall i, j | SameItemName(t', i, j) ensures i == j {
      if i != n && j != n {
        assert SameItemName(t, i, j);
      }
    }
    forall m ensures RetiredAfterAdded(t', m) {
      assert RetiredAfterAdded(t, m);
      assert BelowNext(t, m);
    }
    forall k ensures BelowNext(t', k) {
      assert BelowNext(t, k);
    }
    forall g, h | SameGroupName(t', g, h) ensures g == h {
      assert SameGroupName(t, g, h);
    }
  }

  lemma FinishKeeps(t: Tables, item: SourceId, date: int)
    requires Consistent(t) && item in t.items
    ensures Consistent(t.(retired := t.retired[item := date]))
  {
    var t' := t.(retired := t.retired[item := date]);
    forall m ensures RetiredAfterAdded(t', m) {
      assert RetiredAfterAdded(t, m);
    }
    forall k ensures BelowNext(t', k) {
      assert BelowNext(t, k);
    }
    forall i ensures ItemInGroup(t', i) {
      assert ItemInGroup(t, i);
    }
    forall m ensures ModelInItem(t', m) {
      assert ModelInItem(t, m);
    }
    forall i, j | SameItemName(t', i, j) ensures i == j {
      assert SameItemName(t, i, j);
    }
    forall g, h | SameGroupName(t', g, h) ensures g == h {
      assert SameGroupName(t, g, h);
    }
  }

  /** The tables after model `id` = `nextId` with row `row` is added at
      `time` and the retirements are adjusted around its siblings. */
  function AfterAdd(t: Tables, row: ModelRow, time: int, before: Option<SourceId>, after: Option<SourceId>): Tables
    requires after.Some? ==> after.value in t.added[t.nextId := time]
  {
    var added := t.added[t.nextId := time];
    t.(models := t.models[t.nextId := row], added := added,
       retired := RetireOnAdd(t.retired, added, t.nextId, time, before, after), nextId := t.nextId + 1)
  }

  /** Adding a model keeps the tables consistent when the earlier sibling
      was added before `time` and the later one after it. */
  lemma AddModelKeeps(t: Tables, row: ModelRow, time: int, before: Option<SourceId>, after: Option<SourceId>)
    requires Consistent(t) && row.item in t.items && row.component in t.components
    requires IsLatestBefore(Siblings(t.(models := t.models[t.nextId := row]), row.item, row.component),
                            t.added[t.nextId := time], time, before)
    requires IsEarliestAfter(Siblings(t.(models := t.models[t.nextId := row]), row.item, row.component),
                             t.added[t.nextId := time], time, after)
    ensures Consistent(AfterAdd(t, row, time, before, after))
  {
    var id := t.nextId;
    var t' := AfterAdd(t, row, time, before, after);
    assert BelowNext(t, id);
    if after.Some? {
      assert BelowNext(t, after.value);
    }
    forall m ensures ModelInItem(t', m) {
      assert ModelInItem(t, m);
    }
    forall m ensures RetiredAfterAdded(t', m) {
      assert RetiredAfterAdded(t, m);
      assert BelowNext(t, m);
    }
    forall k ensures BelowNext(t', k) {
      assert BelowNext(t, k);
    }
    forall i ensures ItemInGroup(t', i) {
      assert ItemInGroup(t, i);
    }
    forall i, j | SameItemName(t', i, j) ensures i == j {
      assert SameItemName(t, i, j);
    }
    forall g, h | SameGroupName(t', g, h) ensures g == h {
      assert SameGroupName(t, g, h);
    }
  }

  /** `_add_statistics` on the tables, for a model `id` with row `row` added
      at `time`: looks up its nearest siblings before and after, then adjusts
      the retirements as `RetireOnAdd` says. The tables stay consistent: the
      earlier sibling is retired at `time`, after it was added, and the new
      model is retired later still. */
  method FitModel(t: Tables, row: ModelRow, time: int) returns (t': Tables, before: Option<SourceId>, after: Option<SourceId>)
    requires Consistent(t) && row.item in t.items && row.component in t.components
    ensures Consistent(t')
    ensures t' == t.(models := t'.models, added := t'.added, retired := t'.retired, nextId := t.nextId + 1)
    ensures t'.models == t.models[t.nextId := row] && t'.added == t.added[t.nextId := time]
    ensures IsLatestBefore(Siblings(t', row.item, row.component), t'.added, time, before)
    ensures IsEarliestAfter(Siblings(t', row.item, row.component), t'.added, time, after)
    ensures t'.retired == RetireOnAdd(t.retired, t'.added, t.nextId, time, before, after)
  {
    var id := t.nextId;
    var sibs := Siblings(t.(models := t.models[id := row]), row.item, row.component);
    before := LatestBefore(sibs, t.added[id := time], time);
    after := EarliestAfter(sibs, t.added[id := time], time);
    AddModelKeeps(t, row, time, before, after);
    t' := AfterAdd(t, row, time, before, after);
  }

  /** The tables after `undo` deletes model `id` and adjusts the
      retirements around its siblings. */
  function AfterUndo(t: Tables, id: SourceId, before: Option<SourceId>, after: Option<SourceId>): Tables
    requires after.Some? ==> after.value in t.added - {id}
  {
    var added := t.added - {id};
    t.(models := t.models - {id}, added := added, retired := RetireOnUndo(t.retired, added, id, before, after))
  }

  /** Undoing a model keeps the tables consistent when the earlier sibling
      was added before the later one. */
  lemma UndoKeeps(t: Tables, id: SourceId, before: Option<SourceId>, after: Option<SourceId>)
    requires Consistent(t) && id in t.models
    requires before.Some? ==> before.value in t.models && before.value != id
    requires after.Some? ==> before.Some? && after.value in t.added && after.value != id
                             && t.added[before.value] < t.added[after.value]
    ensures Consistent(AfterUndo(t, id, before, after))
  {
    var t' := AfterUndo(t, id, before, after);
    forall m ensures ModelInItem(t', m) {
      assert ModelInItem(t, m);
    }
    forall m ensures RetiredAfterAdded(t', m) {
      assert RetiredAfterAdded(t, m);
    }
    forall k ensures BelowNext(t', k) {
      assert BelowNext(t, k);
    }
    forall i ensures ItemInGroup(t', i) {
      assert ItemInGroup(t, i);
    }
    forall i, j | SameItemName(t', i, j) ensures i == j {
      assert SameItemName(t, i, j);
    }
    forall g, h | SameGroupName(t', g, h) ensures g == h {
      assert SameGroupName(t, g, h);
    }
  }

  /** `undo` on the tables: deletes model `id` with its timestamps, then looks
      up the nearest siblings of its slot around its added time and adjusts
      the retirements as `RetireOnUndo` says. The tables stay consistent: the
      earlier sibling is retired again only when the later one, added after
      it, was added. */
  method UnfitModel(t: Tables, id: SourceId) returns (t': Tables, before: Option<SourceId>, after: Option<SourceId>)
    requires Consistent(t) && id in t.models
    ensures Consistent(t')
    ensures t' == t.(models := t'.models, added := t'.added, retired := t'.retired)
    ensures t'.models == t.models - {id} && t'.added == t.added - {id}
    ensures IsLatestBefore(Siblings(t', t.models[id].item, t.models[id].component), t'.added, t.added[id], before)
    ensures before.Some? ==>
      IsEarliestAfter(Siblings(t', t.models[id].item, t.models[id].component), t'.added, t.added[id], after)
    ensures before.None? ==> after.None?
    ensures t'.retired == RetireOnUndo(t.retired, t'.added, id, before, after)
  {
    var row, time := t.models[id], t.added[id];
    var sibs := Siblings(t.(models := t.models - {id}), row.item, row.component);
    before := LatestBefore(sibs, t.added - {id}, time);
    after := None;
    if before.Some? {
      after := EarliestAfter(sibs, t.added - {id}, time);
    }
    UndoKeeps(t, id, before, after);
    t' := AfterUndo(t, id, before, after);
  }

  /** A database session over the kit tables: the operations that change
      them. */
  class KitStore {
    var db: Tables

    ghost predicate Valid()
      reads this
    {
      Consistent(db)
    }

    constructor ()
      ensures Valid() && db == Empty
    {
      db := Empty;
      EmptyConsistent();
    }

    /** `KitItem.add`: a name already used by an item is rejected, as is one
        used first in another table; so an item is added exactly when its
        name is new to every table, with its added time. */
    method AddItem(group: nat, name: string, date: int) returns (r: Result<SourceId, KitError>)
      requires Valid() && group in db.groups
      modifies this
      ensures Valid()
      ensures r.Err? ==> db == old(db)
      ensures old(HasName(db, Item, name)) ==> r == Err(ItemExists(name))
      ensures r.Ok? <==> old(NameUnused(db, name))
      ensures r.Ok? ==>
        && r.value == old(db.nextId)
        && db == old(db).(items := old(db.items)[r.value := ItemRow(group, name)],
                         added := old(db.added)[r.value := date], nextId := old(db.nextId) + 1)
    {
      var t := db;
      if HasName(t, Item, name) {
        return Err(ItemExists(name));
      }
      var check := AssertNameDoesNotExist(t, name, Item);
      if check.Err? {
        assert HasName(t, AllKinds[FirstMatch(t, AllKinds, name)], name);
        assert !NameUnused(t, name);
        return Err(check.error);
      }
      assert NameUnused(t, name) by {
        assert FirstMatch(t, AllKinds, name) == |AllKinds|;
        assert !HasName(t, AllKinds[0], name) && !HasName(t, AllKinds[2], name) && !HasName(t, AllKinds[3], name);
      }
      var id := t.nextId;
      AddItemKeeps(t, group, name, date);
      db := t.(items := t.items[id := ItemRow(group, name)], added := t.added[id := date], nextId := id + 1);
      return Ok(id);
    }

    /** `KitItem.finish`: an unretired item is retired at `date`; an already
        retired one raises, unless forced, when its retirement is replaced, so
        exactly one retirement, at `date`, remains. */
    method Finish(item: SourceId, date: int, force: bool) returns (r: Result<(), KitError>)
      requires Valid() && item in db.items
      modifies this
      ensures Valid()
      ensures r.Err? <==> old(item in db.retired) && !force
      ensures r.Err? ==> r.error == AlreadyRetired(old(db.items[item].name)) && db == old(db)
      ensures r.Ok? ==> db == old(db).(retired := old(db.retired)[item := date])
    {
      var stamps := db.retired;
      if item in stamps {
        if force {
          stamps := stamps - {item};
        } else {
          return Err(AlreadyRetired(db.items[item].name));
        }
      }
      stamps := stamps[item := date];
      assert stamps == db.retired[item := date];
      FinishKeeps(db, item, date);
      db := db.(retired := stamps);
      return Ok(());
    }

    /** `KitModel.add`: rejects a duplicate, and a new model name that is
        taken in another table; otherwise the model is added at `time`, its
        nearest earlier sibling is retired at `time` unless already retired by
        then, and the new model is retired when its nearest later sibling was
        added. */
    method AddModel(item: SourceId, component: nat, name: string, time: int)
      returns (r: Result<SourceId, KitError>, before: Option<SourceId>, after: Option<SourceId>)
      requires Valid() && item in db.items && component in db.components
      modifies this
      ensures Valid()
      ensures r.Err? ==> db == old(db)
      ensures old(IsDuplicate(db, item, component, name, time)) ==> r == Err(PartExists)
      ensures r.Err? <==> (old(IsDuplicate(db, item, component, name, time))
                           || (old(!HasName(db, Model, name)) && old(NameClash(db, name, Model))))
      ensures r.Ok? ==>
        && r.value == old(db.nextId)
        && db == old(db).(models := db.models, added := db.added, retired := db.retired, nextId := r.value + 1)
        && db.models == old(db.models)[r.value := ModelRow(item, component, name)]
        && db.added == old(db.added)[r.value := time]
        && IsLatestBefore(Siblings(db, item, component), db.added, time, before)
        && IsEarliestAfter(Siblings(db, item, component), db.added, time, after)
        && db.retired == RetireOnAdd(old(db.retired), db.added, r.value, time, before, after)
      ensures r.Ok? ==> IsDuplicate(db, item, component, name, time)
    {
      before, after := None, None;
      var t := db;
      if IsDuplicate(t, item, component, name, time) {
        return Err(PartExists), before, after;
      }
      if !HasName(t, Model, name) {
        var check := AssertNameDoesNotExist(t, name, Model);
        if check.Err? {
          return Err(check.error), before, after;
        }
      }
      var t';
      t', before, after := FitModel(t, ModelRow(item, component, name), time);
      db := t';
      AddedIsDuplicate(db, t.nextId);
      return Ok(t.nextId), before, after;
    }

    /** `KitModel.undo`: deletes the model with its timestamps; its nearest
        earlier sibling loses its retirement and, when there is a later
        sibling, is retired when that one was added. */
    method Undo(id: SourceId) returns (before: Option<SourceId>, after: Option<SourceId>)
      requires Valid() && id in db.models
      modifies this
      ensures Valid()
      ensures db == old(db).(models := old(db.models) - {id}, added := old(db.added) - {id}, retired := db.retired)
      ensures IsLatestBefore(Siblings(db, old(db.models[id]).item, old(db.models[id]).component),
                             db.added, old(db.added[id]), before)
      ensures before.Some? ==>
        IsEarliestAfter(Siblings(db, old(db.models[id]).item, old(db.models[id]).component),
                        db.added, old(db.added[id]), after)
      ensures before.None? ==> after.None?
      ensures db.retired == RetireOnUndo(old(db.retired), db.added, id, before, after)
    {
      var t';
      t', before, after := UnfitModel(db, id);
      db := t';
    }
  }
}
