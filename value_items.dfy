/** `ValueItems` from pydantic's internal utilities: an include/exclude
    specification (a set of keys, or a mapping from keys to nested
    specifications) normalised against the value it filters, and the
    `merge` that combines two specifications. */
module ValueItemsModel {

  // ---------------------------------------------------------------------------
  // Specifications
  // ---------------------------------------------------------------------------

  /** A key of a specification: a sequence index or a field name. */
  datatype Key = Index(i: int) | Name(s: string)

  /** The key that stands for every index of a sequence. */
  const AllKey: Key := Name("__all__")

  /** A value that can appear in a specification. `None`, `...` and `True`
      are Python's; `KeySet` is a Python set and `KeyMap` a mapping; `Other`
      is any other value (an integer such as -1, a tuple), told apart by an
      identifier. */
  datatype Spec =
    | None
    | Ellipsis
    | True
    | KeySet(keys: set<Key>)
    | KeyMap(items: map<Key, Spec>)
    | Other(id: int)

  /** The three `TypeError`s; their message texts are not modelled. */
  datatype TypeError =
    | UnexpectedIndexValue(index: Key)  // an entry of a sequence's specification is not a mapping, set or full marker
    | NotIndexWise                      // a sequence's specification has a key that is neither an index nor `__all__`
    | UnexpectedType                    // a specification is neither a mapping nor a set

  datatype Result<T> = Ok(value: T) | Err(error: TypeError)
  {
    predicate IsFailure() { Err? }

    function PropagateFailure<U>(): Result<U>
      requires Err?
    {
      Err(error)
    }

    function Extract(): T
      requires Ok?
    {
      value
    }
  }

  /** `is_true`: the markers that select everything. */
  predicate IsTrue(v: Spec)
  {
    v == True || v == Ellipsis
  }

  /** `dict.get`. */
  function Get(m: map<Key, Spec>, k: Key): Spec
  {
    if k in m then m[k] else None
  }

  /** How deeply `s` nests; the measure `merge` recurses on. */
  ghost function Height(s: Spec): nat
    decreases s
  {
    match s
    case KeySet(_) => 1
    case KeyMap(m) => 1 + MaxOf(set k | k in m :: Height(m[k]))
    case _ => 0
  }

  ghost function MaxOf(s: set<nat>): (r: nat)
    ensures forall x | x in s :: x <= r
    ensures r in s || (s == {} && r == 0)
  {
    if s == {} then 0
    else
      var y :| y in s;
      var rest := MaxOf(s - {y});
      assert forall x | x in s :: x == y || x in s - {y};
      if y < rest then rest else y
  }

  lemma EntriesAreLower(m: map<Key, Spec>)
    ensures forall k :: Height(Get(m, k)) < Height(KeyMap(m))
  {
    forall k | k in m
      ensures Height(m[k]) < Height(KeyMap(m))
    {
      var heights := set k' | k' in m :: Height(m[k']);
      assert Height(KeyMap(m)) == 1 + MaxOf(heights);
      assert Height(m[k]) in heights;
    }
  }

  // ---------------------------------------------------------------------------
  // Coercion and merge
  // ---------------------------------------------------------------------------

  /** `_coerce_items`: a mapping as it is, a set as a mapping of its keys to
      `...`; anything else is refused. */
  function CoerceItems(items: Spec): (r: Result<map<Key, Spec>>)
    ensures r.Ok? <==> items.KeyMap? || items.KeySet?
    ensures items.KeyMap? ==> r == Ok(items.items)
    ensures items.KeySet? ==> r.Ok? && r.value.Keys == items.keys && forall k | k in r.value :: r.value[k] == Ellipsis
  {
    match items
    case KeyMap(m) => Ok(m)
    case KeySet(s) => Ok(map k | k in s :: Ellipsis)
    case _ => Err(UnexpectedType)
  }

  /** `_coerce_value`: `None` and the full markers as they are, anything else
      through `_coerce_items`. */
  function CoerceValue(v: Spec): (r: Result<Spec>)
    ensures r.Ok? <==> v == None || IsTrue(v) || v.KeyMap? || v.KeySet?
    ensures r.Ok? ==> Height(r.value) <= Height(v)
    ensures r.Ok? && r.value != None && !IsTrue(r.value) ==> r.value.KeyMap?
    ensures r.Ok? && (v == None || IsTrue(v) || v.KeyMap?) ==> r.value == v
  {
    if v == None || IsTrue(v) then Ok(v)
    else
      match CoerceItems(v)
      case Err(e) => Err(e)
      case Ok(m) =>
        assert v.KeySet? ==> (set k | k in m :: Height(m[k])) <= {0};
        Ok(KeyMap(m))
  }

  /** `ValueItems.merge(base, override, intersect)`. A missing override keeps
      the base; a missing or full base gives way to the override; a full
      override wins in union mode and yields to the base in intersection mode;
      two mappings are merged key by key, over the union or the intersection of
      their keys, dropping keys whose merged value is `None`. */
  function Merge(base: Spec, override: Spec, intersect: bool): Result<Spec>
    decreases Height(base) + Height(override), 2
  {
    var o :- CoerceValue(override);
    var b :- CoerceValue(base);
    if o == None then Ok(b)
    else if IsTrue(b) || b == None then Ok(o)
    else if IsTrue(o) then Ok(if intersect then b else o)
    else MergeItems(b.items, o.items, intersect)
  }

  /** The keys `merge` visits when both sides are mappings. */
  function MergeKeys(base: map<Key, Spec>, override: map<Key, Spec>, intersect: bool): set<Key>
  {
    if intersect then base.Keys * override.Keys else base.Keys + override.Keys
  }

  /** The key-by-key part of `merge`. */
  function MergeItems(base: map<Key, Spec>, override: map<Key, Spec>, intersect: bool): Result<Spec>
    decreases Height(KeyMap(base)) + Height(KeyMap(override)), 1
  {
    Assemble(MergedEntries(base, override, intersect))
  }

  /** Each visited key with the merge of its two entries. */
  function MergedEntries(base: map<Key, Spec>, override: map<Key, Spec>, intersect: bool): map<Key, Result<Spec>>
    decreases Height(KeyMap(base)) + Height(KeyMap(override)), 0
  {
    EntriesAreLower(base);
    EntriesAreLower(override);
    map k | k in MergeKeys(base, override, intersect) :: Merge(Get(base, k), Get(override, k), intersect)
  }

  /** The first error raised stops the merge; keys merged to `None` are dropped. */
  function Assemble(merged: map<Key, Result<Spec>>): Result<Spec>
  {
    if exists k | k in merged :: merged[k].Err? then Err(UnexpectedType)
    else Ok(KeyMap(map k | k in merged && merged[k].value != None :: merged[k].value))
  }

  lemma AssembleOk(merged: map<Key, Result<Spec>>)
    requires forall k | k in merged :: merged[k].Ok? && merged[k].value != None
    ensures Assemble(merged).Ok? && Assemble(merged).value.KeyMap?
    ensures var r := Assemble(merged).value.items;
      r.Keys == merged.Keys && forall k | k in r :: r[k] == merged[k].value
    ensures (forall k | k in merged :: WellFormed(merged[k].value)) ==> WellFormed(Assemble(merged).value)
  {
  }

  /** The keys a mapping or set specification names. */
  function KeysOf(s: Spec): (r: set<Key>)
    ensures s.KeyMap? ==> r == s.items.Keys
    ensures s.KeySet? ==> r == s.keys
    ensures !s.KeyMap? && !s.KeySet? ==> r == {}
  {
    match s
    case KeyMap(m) => m.Keys
    case KeySet(ks) => ks
    case _ => {}
  }

  // ---------------------------------------------------------------------------
  // What a specification selects
  // ---------------------------------------------------------------------------

  /** A specification built only from full markers, sets and mappings whose
      entries are again such specifications (no `None`, no other values). */
  predicate WellFormed(s: Spec)
    decreases s
  {
    match s
    case KeyMap(m) => forall k | k in m :: WellFormed(m[k])
    case KeySet(_) => true
    case _ => IsTrue(s)
  }

  /** A value `merge` accepts without error: `None` or a well-formed specification. */
  predicate Clean(s: Spec)
  {
    s == None || WellFormed(s)
  }

  /** The path of keys `path`, from the value's root, reaches a part the
      specification selects: every step is a key it names, or it is inside a
      part selected whole. */
  predicate Selects(s: Spec, path: seq<Key>)
    decreases s
  {
    match s
    case KeyMap(m) => path == [] || (path[0] in m && Selects(m[path[0]], path[1..]))
    case KeySet(ks) => path == [] || path[0] in ks
    case _ => IsTrue(s)
  }

  /** Coercing a clean value keeps it clean and keeps what it selects. */
  lemma CoerceClean(v: Spec)
    requires Clean(v)
    ensures CoerceValue(v).Ok?
    ensures Clean(CoerceValue(v).value) && (CoerceValue(v).value == None <==> v == None)
    ensures forall path :: Selects(CoerceValue(v).value, path) <==> Selects(v, path)
    ensures v.KeySet? || v.KeyMap? ==> KeysOf(CoerceValue(v).value) == KeysOf(v)
  {
    if v.KeySet? {
      var c := CoerceValue(v).value;
      forall path ensures Selects(c, path) <==> Selects(v, path) {
        if path != [] && path[0] in v.keys {
          assert c.items[path[0]] == Ellipsis;
        }
      }
    }
  }

  /** `merge` of two clean values succeeds and gives a clean value, `None`
      only when both are `None`; two mappings or sets merge into a mapping
      over the union, or in intersection mode the intersection, of their keys. */
  lemma {:induction false} MergeClean(a: Spec, b: Spec, intersect: bool)
    requires Clean(a) && Clean(b)
    ensures Merge(a, b, intersect).Ok?
    ensures Clean(Merge(a, b, intersect).value)
    ensures Merge(a, b, intersect).value == None <==> a == None && b == None
    ensures (a.KeyMap? || a.KeySet?) && (b.KeyMap? || b.KeySet?) ==>
      var r := Merge(a, b, intersect).value;
      r.KeyMap? && r.items.Keys == if intersect then KeysOf(a) * KeysOf(b) else KeysOf(a) + KeysOf(b)
    decreases Height(a) + Height(b), 2
  {
    CoerceClean(a);
    CoerceClean(b);
    var c, o := CoerceValue(a).value, CoerceValue(b).value;
    if o != None && !IsTrue(c) && c != None && !IsTrue(o) {
      MergeItemsClean(c.items, o.items, intersect);
    }
  }

  lemma {:induction false} MergeItemsClean(base: map<Key, Spec>, override: map<Key, Spec>, intersect: bool)
    requires forall k | k in base :: WellFormed(base[k])
    requires forall k | k in override :: WellFormed(override[k])
    ensures MergeItems(base, override, intersect).Ok?
    ensures var r := MergeItems(base, override, intersect).value;
      r.KeyMap? && WellFormed(r) && r.items.Keys == MergeKeys(base, override, intersect)
    decreases Height(KeyMap(base)) + Height(KeyMap(override)), 1
  {
    MergedEntriesClean(base, override, intersect);
    MergedKeys(base, override, intersect);
    AssembleOk(MergedEntries(base, override, intersect));
  }

  lemma {:induction false} MergedEntriesClean(base: map<Key, Spec>, override: map<Key, Spec>, intersect: bool)
    requires forall k | k in base :: WellFormed(base[k])
    requires forall k | k in override :: WellFormed(override[k])
    ensures var merged := MergedEntries(base, override, intersect);
      forall k | k in merged :: merged[k].Ok? && merged[k].value != None && WellFormed(merged[k].value)
    decreases Height(KeyMap(base)) + Height(KeyMap(override)), 0
  {
    var merged := MergedEntries(base, override, intersect);
    EntriesAreLower(base);
    EntriesAreLower(override);
    MergedKeys(base, override, intersect);
    forall k | k in merged
      ensures merged[k].Ok? && merged[k].value != None && WellFormed(merged[k].value)
    {
      MergedEntry(base, override, intersect, k);
      MergeClean(Get(base, k), Get(override, k), intersect);
    }
  }

  /** The entry `merge` leaves under a visited key of two mappings. */
  lemma MergeItemsEntry(base: map<Key, Spec>, override: map<Key, Spec>, intersect: bool, k: Key)
    requires forall k | k in base :: WellFormed(base[k])
    requires forall k | k in override :: WellFormed(override[k])
    requires k in MergeKeys(base, override, intersect)
    ensures MergeItems(base, override, intersect).Ok? && Merge(Get(base, k), Get(override, k), intersect).Ok?
    ensures var r := MergeItems(base, override, intersect).value;
      r.KeyMap? && k in r.items && r.items[k] == Merge(Get(base, k), Get(override, k), intersect).value
  {
    MergeItemsClean(base, override, intersect);
    var merged := MergedEntries(base, override, intersect);
    forall k' | k' in merged
      ensures merged[k'].Ok? && merged[k'].value != None
    {
      MergeClean(Get(base, k'), Get(override, k'), intersect);
    }
    AssembleOk(merged);
  }

  /** A set coerces to the mapping of its keys to `...`. */
  lemma CoerceKeySet(keys: set<Key>, m: map<Key, Spec>)
    requires m.Keys == keys && forall k | k in m :: m[k] == Ellipsis
    ensures CoerceValue(KeySet(keys)) == Ok(KeyMap(m))
  {
    var c := CoerceItems(KeySet(keys)).value;
    assert c == m;
  }

  /** Two values that coerce to mappings merge key by key. */
  lemma MergeOfMaps(a: Spec, b: Spec, intersect: bool, base: map<Key, Spec>, override: map<Key, Spec>)
    requires CoerceValue(a) == Ok(KeyMap(base)) && CoerceValue(b) == Ok(KeyMap(override))
    ensures Merge(a, b, intersect) == MergeItems(base, override, intersect)
  {
  }

  /** Two values that coerce to mappings merge into the mapping of every
      visited key to the merge of its entries, leaving out the keys that merge
      to `None`, when none fails. */
  lemma MergeOfMapsIs(a: Spec, b: Spec, intersect: bool, base: map<Key, Spec>, override: map<Key, Spec>, r: map<Key, Spec>)
    requires CoerceValue(a) == Ok(KeyMap(base)) && CoerceValue(b) == Ok(KeyMap(override))
    requires r.Keys <= MergeKeys(base, override, intersect)
    requires forall k | k in MergeKeys(base, override, intersect) ::
      Merge(Get(base, k), Get(override, k), intersect) == if k in r then Ok(r[k]) else Ok(None)
    requires forall k | k in r :: r[k] != None
    ensures Merge(a, b, intersect) == Ok(KeyMap(r))
  {
    MergeOfMaps(a, b, intersect, base, override);
    MergeItemsIs(base, override, intersect, r);
  }

  /** The key-by-key merge maps every visited key to the merge of its
      entries, leaving out the keys that merge to `None`, when none fails. */
  lemma MergeItemsIs(base: map<Key, Spec>, override: map<Key, Spec>, intersect: bool, r: map<Key, Spec>)
    requires r.Keys <= MergeKeys(base, override, intersect)
    requires forall k | k in MergeKeys(base, override, intersect) ::
      Merge(Get(base, k), Get(override, k), intersect) == if k in r then Ok(r[k]) else Ok(None)
    requires forall k | k in r :: r[k] != None
    ensures MergeItems(base, override, intersect) == Ok(KeyMap(r))
  {
    var merged := MergedEntries(base, override, intersect);
    forall k | k in merged
      ensures merged[k] == if k in r then Ok(r[k]) else Ok(None)
    {
      MergedEntry(base, override, intersect, k);
    }
    MergedKeys(base, override, intersect);
    AssembleIs(merged, r);
  }

  lemma MergedEntry(base: map<Key, Spec>, override: map<Key, Spec>, intersect: bool, k: Key)
    requires k in MergedEntries(base, override, intersect)
    ensures MergedEntries(base, override, intersect)[k] == Merge(Get(base, k), Get(override, k), intersect)
  {
  }

  lemma MergedKeys(base: map<Key, Spec>, override: map<Key, Spec>, intersect: bool)
    ensures MergedEntries(base, override, intersect).Keys == MergeKeys(base, override, intersect)
  {
  }

  lemma AssembleIs(merged: map<Key, Result<Spec>>, r: map<Key, Spec>)
    requires r.Keys <= merged.Keys
    requires forall k | k in merged :: merged[k] == if k in r then Ok(r[k]) else Ok(None)
    requires forall k | k in r :: r[k] != None
    ensures Assemble(merged) == Ok(KeyMap(r))
  {
    assert !exists k | k in merged :: merged[k].Err?;
    var kept := map k | k in merged && merged[k].value != None :: merged[k].value;
    assert kept.Keys == r.Keys;
    assert forall k | k in kept :: kept[k] == r[k];
    assert kept == r;
  }

  /** In intersection mode `merge` selects exactly the paths both sides select. */
  lemma {:induction false} MergeIntersectionSelects(a: Spec, b: Spec, path: seq<Key>)
    requires WellFormed(a) && WellFormed(b)
    ensures Merge(a, b, true).Ok?
    ensures Selects(Merge(a, b, true).value, path) <==> Selects(a, path) && Selects(b, path)
    decreases |path|
  {
    MergeClean(a, b, true);
    CoerceClean(a);
    CoerceClean(b);
    var c, o := CoerceValue(a).value, CoerceValue(b).value;
    if !IsTrue(c) && !IsTrue(o) && path != [] {
      var k := path[0];
      if k in c.items && k in o.items {
        MergeItemsEntry(c.items, o.items, true, k);
        MergeIntersectionSelects(c.items[k], o.items[k], path[1..]);
      }
    }
  }

  /** In union mode `merge` keeps every path the override selects. (A full
      base gives way to an override mapping, so not every path the base
      selects is kept.) */
  lemma {:induction false} MergeUnionKeepsOverride(a: Spec, b: Spec, path: seq<Key>)
    requires Clean(a) && Clean(b)
    ensures Merge(a, b, false).Ok?
    ensures Selects(b, path) ==> Selects(Merge(a, b, false).value, path)
    decreases |path|
  {
    MergeClean(a, b, false);
    CoerceClean(a);
    CoerceClean(b);
    var c, o := CoerceValue(a).value, CoerceValue(b).value;
    if o != None && c != None && !IsTrue(c) && !IsTrue(o) && path != [] && path[0] in o.items {
      var k := path[0];
      MergeItemsEntry(c.items, o.items, false, k);
      MergeUnionKeepsOverride(Get(c.items, k), o.items[k], path[1..]);
    }
  }

  /** In union mode `merge` selects no path that neither side selects. */
  lemma {:induction false} MergeUnionWithinEither(a: Spec, b: Spec, path: seq<Key>)
    requires Clean(a) && Clean(b)
    ensures Merge(a, b, false).Ok?
    ensures Selects(Merge(a, b, false).value, path) ==> Selects(a, path) || Selects(b, path)
    decreases |path|, 1
  {
    MergeClean(a, b, false);
    CoerceClean(a);
    CoerceClean(b);
    var c, o := CoerceValue(a).value, CoerceValue(b).value;
    if o != None && c != None && !IsTrue(c) && !IsTrue(o) {
      MergeItemsUnionWithinEither(c.items, o.items, path);
    }
  }

  lemma {:induction false} MergeItemsUnionWithinEither(base: map<Key, Spec>, override: map<Key, Spec>, path: seq<Key>)
    requires forall k | k in base :: WellFormed(base[k])
    requires forall k | k in override :: WellFormed(override[k])
    ensures MergeItems(base, override, false).Ok?
    ensures Selects(MergeItems(base, override, false).value, path) ==>
      Selects(KeyMap(base), path) || Selects(KeyMap(override), path)
    decreases |path|, 0
  {
    MergeItemsClean(base, override, false);
    var r := MergeItems(base, override, false).value;
    if path != [] && Selects(r, path) {
      var k := path[0];
      assert k in r.items && Selects(r.items[k], path[1..]);
      MergeItemsEntry(base, override, false, k);
      MergeUnionWithinEither(Get(base, k), Get(override, k), path[1..]);
      if k in base && Selects(base[k], path[1..]) {
        assert Selects(KeyMap(base), path);
      } else {
        assert k in override && Selects(override[k], path[1..]);
      }
    }
  }

  /** Merging a set or mapping with an empty override selects what the set
      or mapping selects. */
  lemma MergeWithEmpty(a: Spec, path: seq<Key>)
    requires WellFormed(a) && (a.KeyMap? || a.KeySet?)
    ensures Merge(a, KeyMap(map[]), false).Ok?
    ensures Selects(Merge(a, KeyMap(map[]), false).value, path) <==> Selects(a, path)
  {
    MergeClean(a, KeyMap(map[]), false);
    CoerceClean(a);
    var c := CoerceValue(a).value;
    if path != [] && path[0] in c.items {
      MergeItemsEntry(c.items, map[], false, path[0]);
      CoerceClean(c.items[path[0]]);
    }
  }

  // ---------------------------------------------------------------------------
  // Building a ValueItems
  // ---------------------------------------------------------------------------

  /** The value being filtered: a list or tuple of `length` elements, or
      anything else. */
  datatype Target = Sequence(length: nat) | NotSequence

  /** The normalised specification and the queries on it. */
  datatype ValueItems = ValueItems(items: map<Key, Spec>)
  {
    /** `is_excluded`: the key is selected whole. */
    function IsExcluded(k: Key): (r: bool)
      ensures r ==> IsIncluded(k)
    {
      IsTrue(Get(items, k))
    }

    /** `is_included`: the key is named at all. */
    predicate IsIncluded(k: Key)
    {
      k in items
    }

    /** `for_element`: the nested specification for `k`, or `None` when the
        key is absent or selected whole. */
    function ForElement(k: Key): (r: Spec)
      ensures r == None <==> !IsIncluded(k) || IsExcluded(k) || items[k] == None
      ensures r != None ==> r == items[k] && !IsTrue(r)
    {
      var item := Get(items, k);
      if IsTrue(item) then None else item
    }
  }

  /** `order` lists `keys` once each: the iteration order of a Python dict or set. */
  ghost predicate IsOrderOf(order: seq<Key>, keys: set<Key>)
  {
    (forall k :: k in order <==> k in keys) &&
    forall i, j | 0 <= i < j < |order| :: order[i] != order[j]
  }

  /** The values a sequence's specification may hold under a key. */
  predicate IndexValue(v: Spec)
  {
    v.KeyMap? || v.KeySet? || IsTrue(v)
  }

  /** A negative index counts from the end; it is not checked against the length. */
  function NormIndex(i: int, length: nat): (r: int)
    ensures i < 0 ==> r == length + i
    ensures 0 <= i ==> r == i
  {
    if i < 0 then length + i else i
  }

  /** The indexes of a sequence of `length` elements. */
  function IndexKeys(length: nat): set<Key>
  {
    set i | 0 <= i < length :: Index(i)
  }

  /** The state of the first pass of `_normalize_indexes`: the entries so far,
      keyed by normalised index, and the coerced `__all__` entry (`None` until
      one is met). */
  datatype Pass = Pass(normalized: map<Key, Spec>, all: Spec)

  /** The first pass of `_normalize_indexes` over the entries in `order`: each
      entry's value is checked, `__all__` is set aside, any other key must be an
      index, and an entry whose index normalises to one already met is merged
      into it. */
  function NormalizeEntries(items: map<Key, Spec>, order: seq<Key>, length: nat, pass: Pass): Result<Pass>
    requires forall k | k in order :: k in items
    decreases |order|
  {
    if order == [] then Ok(pass)
    else
      var k := order[0];
      var v := items[k];
      if !IndexValue(v) then Err(UnexpectedIndexValue(k))
      else if k == AllKey then
        NormalizeEntries(items, order[1..], length, pass.(all := CoerceValue(v).value))
      else if !k.Index? then Err(NotIndexWise)
      else
        var n := Index(NormIndex(k.i, length));
        var m :- Merge(v, Get(pass.normalized, n), false);
        NormalizeEntries(items, order[1..], length, pass.(normalized := pass.normalized[n := m]))
  }

  /** The second pass of `_normalize_indexes`: an empty or missing `__all__`
      changes nothing; a full one adds every missing index as full; a mapping
      is merged into every index that is not already full, starting from an
      empty mapping for a missing one. Keys outside the sequence stay. */
  function ExpandAll(normalized: map<Key, Spec>, all: Spec, length: nat): Result<map<Key, Spec>>
  {
    if all == None || all == KeyMap(map[]) then Ok(normalized)
    else if IsTrue(all) then
      Ok(map k | k in normalized.Keys + IndexKeys(length) :: if k in normalized then normalized[k] else Ellipsis)
    else
      var merged := AllMerged(normalized, all, length);
      if exists k | k in merged :: merged[k].Err? then Err(UnexpectedType)
      else Ok(map k | k in normalized.Keys + merged.Keys :: if k in merged then merged[k].value else normalized[k])
  }

  /** Each index's entry with a mapping `__all__` merged into it: a missing
      entry counts as an empty mapping, and a full entry stays as it is. */
  function AllMerged(normalized: map<Key, Spec>, all: Spec, length: nat): map<Key, Result<Spec>>
  {
    map k | k in IndexKeys(length) ::
      var item := if k in normalized then normalized[k] else KeyMap(map[]);
      if IsTrue(item) then Ok(item) else Merge(all, item, false)
  }

  /** `ValueItems(value, items)`: the specification is coerced to a mapping;
      against a list or tuple its indexes are then normalised. */
  function NewValueItems(value: Target, items: Spec, order: seq<Key>): (r: Result<ValueItems>)
    requires IsOrderOf(order, KeysOf(items))
    ensures !(items.KeyMap? || items.KeySet?) ==> r == Err(UnexpectedType)
    ensures value.NotSequence? && items.KeyMap? ==> r == Ok(ValueItems(items.items))
    ensures value.NotSequence? && items.KeySet? ==>
      r.Ok? && r.value.items.Keys == items.keys && forall k | k in items.keys :: r.value.IsExcluded(k)
  {
    var coerced :- CoerceItems(items);
    if value.NotSequence? then Ok(ValueItems(coerced))
    else
      var pass :- NormalizeEntries(coerced, order, value.length, Pass(map[], None));
      var expanded :- ExpandAll(pass.normalized, pass.all, value.length);
      Ok(ValueItems(expanded))
  }

  // ---------------------------------------------------------------------------
  // Properties of the normalisation
  // ---------------------------------------------------------------------------

  /** The indexes `keys` name, negative ones counted from the end. */
  function Resolved(keys: set<Key>, length: nat): set<Key>
  {
    set k | k in keys && k.Index? :: Index(NormIndex(k.i, length))
  }

  /** The keys a sequence holds. */
  function ElementsOf(s: seq<Key>): set<Key>
  {
    set k | k in s
  }

  lemma ResolvedStep(order: seq<Key>, length: nat)
    requires order != [] && order[0].Index?
    ensures Resolved(ElementsOf(order), length)
         == {Index(NormIndex(order[0].i, length))} + Resolved(ElementsOf(order[1..]), length)
  {
    var whole, rest := ElementsOf(order), ElementsOf(order[1..]);
    assert whole == {order[0]} + rest;
  }

  lemma {:induction false} NormalizeFullIndexes(items: map<Key, Spec>, order: seq<Key>, length: nat, pass: Pass)
    requires forall k | k in order :: k in items && k.Index? && items[k] == Ellipsis
    requires forall k | k in pass.normalized :: pass.normalized[k] == Ellipsis
    ensures NormalizeEntries(items, order, length, pass)
         == Ok(Pass(map k | k in pass.normalized.Keys + Resolved(ElementsOf(order), length) :: Ellipsis, pass.all))
    decreases |order|
  {
    if order == [] {
      assert ElementsOf(order) == {};
      assert Resolved(ElementsOf(order), length) == {};
      assert pass.normalized == map k | k in pass.normalized.Keys + Resolved(ElementsOf(order), length) :: Ellipsis;
    } else {
      var k := order[0];
      var n := Index(NormIndex(k.i, length));
      assert Merge(Ellipsis, Get(pass.normalized, n), false) == Ok(Ellipsis);
      var next := pass.(normalized := pass.normalized[n := Ellipsis]);
      assert NormalizeEntries(items, order, length, pass) == NormalizeEntries(items, order[1..], length, next);
      NormalizeFullIndexes(items, order[1..], length, next);
      ResolvedStep(order, length);
      assert next.normalized.Keys + Resolved(ElementsOf(order[1..]), length)
          == pass.normalized.Keys + Resolved(ElementsOf(order), length);
    }
  }

  /** A set of indexes against a sequence: each index, a negative one counted
      from the end, is selected whole, and nothing else is named. */
  lemma NormalizeSetOfIndexes(keys: set<Key>, order: seq<Key>, length: nat)
    requires forall k | k in keys :: k.Index?
    requires IsOrderOf(order, keys)
    ensures NewValueItems(Sequence(length), KeySet(keys), order)
         == Ok(ValueItems(map k | k in Resolved(keys, length) :: Ellipsis))
  {
    var coerced := CoerceItems(KeySet(keys)).value;
    NormalizeFullIndexes(coerced, order, length, Pass(map[], None));
    assert ElementsOf(order) == keys;
    var normalized := map k | k in Resolved(keys, length) :: Ellipsis;
    var empty: map<Key, Spec> := map[];
    assert empty.Keys + Resolved(keys, length) == Resolved(keys, length);
    assert NormalizeEntries(coerced, order, length, Pass(map[], None)) == Ok(Pass(normalized, None));
    assert ExpandAll(normalized, None, length) == Ok(normalized);
  }

  /** A specification holding only `__all__`, against a sequence: an empty
      `__all__` names nothing; a full one names every index of the sequence,
      selected whole; a set or mapping names every index, each with the merge
      of `__all__` into an empty mapping. */
  lemma OnlyAllEntries(length: nat, all: Spec)
    requires WellFormed(all)
    ensures Merge(all, KeyMap(map[]), false).Ok?
    ensures NewValueItems(Sequence(length), KeyMap(map[AllKey := all]), [AllKey]).Ok?
    ensures var vi := NewValueItems(Sequence(length), KeyMap(map[AllKey := all]), [AllKey]).value;
      KeysOf(all) == {} && !IsTrue(all) ==> vi.items == map[]
    ensures var vi := NewValueItems(Sequence(length), KeyMap(map[AllKey := all]), [AllKey]).value;
      IsTrue(all) ==> vi.items == map k | k in IndexKeys(length) :: Ellipsis
    ensures var vi := NewValueItems(Sequence(length), KeyMap(map[AllKey := all]), [AllKey]).value;
      KeysOf(all) != {} ==> vi.items == map k | k in IndexKeys(length) :: Merge(all, KeyMap(map[]), false).value
  {
    CoerceClean(all);
    MergeClean(all, KeyMap(map[]), false);
    var c := CoerceValue(all).value;
    NormalizeOnlyAll(all, length);
    if IsTrue(c) {
      ExpandFullFromEmpty(c, length);
    } else if c != KeyMap(map[]) {
      ExpandMapFromEmpty(c, length);
      assert Merge(all, KeyMap(map[]), false) == Merge(c, KeyMap(map[]), false);
    }
  }

  lemma NormalizeOnlyAll(all: Spec, length: nat)
    requires IndexValue(all)
    ensures NormalizeEntries(map[AllKey := all], [AllKey], length, Pass(map[], None))
         == Ok(Pass(map[], CoerceValue(all).value))
  {
    assert [AllKey][1..] == [];
  }

  lemma ExpandFullFromEmpty(all: Spec, length: nat)
    requires IsTrue(all)
    ensures ExpandAll(map[], all, length) == Ok(map k | k in IndexKeys(length) :: Ellipsis)
  {
    var r := ExpandAll(map[], all, length).value;
    assert r.Keys == IndexKeys(length);
    assert forall k | k in r :: r[k] == Ellipsis;
    ConstantMap(r, IndexKeys(length), Ellipsis);
  }

  lemma AllMergedFromEmpty(all: Spec, length: nat)
    requires all.KeyMap?
    ensures AllMerged(map[], all, length).Keys == IndexKeys(length)
    ensures forall k | k in AllMerged(map[], all, length) ::
      AllMerged(map[], all, length)[k] == Merge(all, KeyMap(map[]), false)
  {
  }

  /** A mapping of `keys`, each to `v`. */
  lemma ConstantMap<V>(m: map<Key, V>, keys: set<Key>, v: V)
    requires m.Keys == keys && forall k | k in m :: m[k] == v
    ensures m == map k | k in keys :: v
  {
  }

  lemma ExpandMapFromEmpty(all: Spec, length: nat)
    requires all.KeyMap? && WellFormed(all) && all != KeyMap(map[])
    ensures Merge(all, KeyMap(map[]), false).Ok?
    ensures ExpandAll(map[], all, length) == Ok(map k | k in IndexKeys(length) :: Merge(all, KeyMap(map[]), false).value)
  {
    MergeClean(all, KeyMap(map[]), false);
    var m := Merge(all, KeyMap(map[]), false);
    var merged := AllMerged(map[], all, length);
    AllMergedFromEmpty(all, length);
    assert !exists k | k in merged :: merged[k].Err?;
    var r := ExpandAll(map[], all, length).value;
    assert r.Keys == IndexKeys(length);
    assert forall k | k in r :: r[k] == m.value;
    ConstantMap(r, IndexKeys(length), m.value);
  }

  /** A specification holding only a non-empty `__all__`, against a sequence:
      every index of the sequence is named, and selects exactly what `__all__`
      selects. */
  lemma OnlyAllCoversEveryIndex(length: nat, all: Spec, path: seq<Key>)
    requires WellFormed(all) && (KeysOf(all) != {} || IsTrue(all))
    ensures NewValueItems(Sequence(length), KeyMap(map[AllKey := all]), [AllKey]).Ok?
    ensures var vi := NewValueItems(Sequence(length), KeyMap(map[AllKey := all]), [AllKey]).value;
      vi.items.Keys == IndexKeys(length) &&
      forall i | 0 <= i < length :: (Selects(vi.items[Index(i)], path) <==> Selects(all, path))
  {
    OnlyAllEntries(length, all);
    if !IsTrue(all) {
      MergeWithEmpty(all, path);
    }
  }

  lemma {:induction false} BadEntryStopsNormalization(items: map<Key, Spec>, order: seq<Key>, length: nat, pass: Pass)
    requires forall k | k in order :: k in items
    requires exists k | k in order :: !IndexValue(items[k]) || (k != AllKey && !k.Index?)
    ensures NormalizeEntries(items, order, length, pass).Err?
    decreases |order|
  {
    var k := order[0];
    if IndexValue(items[k]) && (k == AllKey || k.Index?) {
      var bad :| bad in order && (!IndexValue(items[bad]) || (bad != AllKey && !bad.Index?));
      assert bad in order[1..];
      if k == AllKey {
        BadEntryStopsNormalization(items, order[1..], length, pass.(all := CoerceValue(items[k]).value));
      } else {
        var n := Index(NormIndex(k.i, length));
        var m := Merge(items[k], Get(pass.normalized, n), false);
        if m.Ok? {
          BadEntryStopsNormalization(items, order[1..], length, pass.(normalized := pass.normalized[n := m.value]));
        }
      }
    }
  }

  /** Against a sequence, an entry whose value is not a mapping, set or full
      marker, or whose key is neither an index nor `__all__`, is refused. */
  lemma SequenceEntriesChecked(length: nat, spec: Spec, order: seq<Key>)
    requires IsOrderOf(order, KeysOf(spec))
    requires spec.KeyMap? || spec.KeySet?
    requires exists k | k in KeysOf(spec) :: !IndexValue(CoerceItems(spec).value[k]) || (k != AllKey && !k.Index?)
    ensures NewValueItems(Sequence(length), spec, order).Err?
  {
    BadEntryStopsNormalization(CoerceItems(spec).value, order, length, Pass(map[], None));
  }

  // ---------------------------------------------------------------------------
  // A mapping against a sequence, index by index
  // ---------------------------------------------------------------------------

  /** The keys in `order` that are indexes landing on index `n`, a negative
      one counted from the end, in order. */
  function Colliding(order: seq<Key>, length: nat, n: int): (r: seq<Key>)
    ensures forall k | k in r :: k in order && k.Index? && NormIndex(k.i, length) == n
    ensures forall k | k in order && k.Index? && NormIndex(k.i, length) == n :: k in r
    ensures |r| <= |order|
  {
    if order == [] then []
    else
      var rest := Colliding(order[1..], length, n);
      assert forall k | k in order && k != order[0] :: k in order[1..];
      if order[0].Index? && NormIndex(order[0].i, length) == n then [order[0]] + rest else rest
  }

  /** Entries that land on one index, merged one after the other, each over
      what was there before (`merge(v, existing)`), starting from `acc`. */
  function MergedInOrder(items: map<Key, Spec>, ks: seq<Key>, acc: Spec): Result<Spec>
    requires forall k | k in ks :: k in items
    decreases |ks|
  {
    if ks == [] then Ok(acc)
    else
      var m :- Merge(items[ks[0]], acc, false);
      MergedInOrder(items, ks[1..], m)
  }

  /** Merging an index value over anything never gives `None`. */
  lemma MergeNotNone(v: Spec, acc: Spec)
    requires IndexValue(v)
    ensures Merge(v, acc, false).Ok? ==> Merge(v, acc, false).value != None
  {
  }

  /** The first pass at index `n`: the entries landing there are merged in
      order over what `pass` held; no `None` entry appears; nothing but
      indexes is added. */
  lemma {:induction false} NormalizeEntriesAt(items: map<Key, Spec>, order: seq<Key>, length: nat, pass: Pass, n: int)
    requires forall k | k in order :: k in items
    requires forall k | k in pass.normalized :: pass.normalized[k] != None
    requires NormalizeEntries(items, order, length, pass).Ok?
    ensures MergedInOrder(items, Colliding(order, length, n), Get(pass.normalized, Index(n))).Ok?
    ensures var r := NormalizeEntries(items, order, length, pass).value;
      Get(r.normalized, Index(n)) == MergedInOrder(items, Colliding(order, length, n), Get(pass.normalized, Index(n))).value &&
      (Index(n) in r.normalized <==> Index(n) in pass.normalized || Colliding(order, length, n) != []) &&
      (Index(n) in r.normalized ==> r.normalized[Index(n)] != None)
    decreases |order|
  {
    if order != [] {
      var k := order[0];
      var v := items[k];
      if k == AllKey {
        NormalizeEntriesAt(items, order[1..], length, pass.(all := CoerceValue(v).value), n);
      } else {
        var n0 := Index(NormIndex(k.i, length));
        var m := Merge(v, Get(pass.normalized, n0), false).value;
        MergeNotNone(v, Get(pass.normalized, n0));
        var next := pass.(normalized := pass.normalized[n0 := m]);
        NormalizeEntriesAt(items, order[1..], length, next, n);
        if n0 == Index(n) {
          assert Colliding(order, length, n) == [k] + Colliding(order[1..], length, n);
          assert ([k] + Colliding(order[1..], length, n))[1..] == Colliding(order[1..], length, n);
        } else {
          assert Colliding(order, length, n) == Colliding(order[1..], length, n);
        }
      }
    }
  }

  /** The first pass keeps the `__all__` entry, coerced, and adds only indexes. */
  lemma {:induction false} NormalizeEntriesAll(items: map<Key, Spec>, order: seq<Key>, length: nat, pass: Pass)
    requires forall k | k in order :: k in items
    requires NormalizeEntries(items, order, length, pass).Ok?
    ensures AllKey in order ==> CoerceValue(items[AllKey]).Ok?
    ensures var r := NormalizeEntries(items, order, length, pass).value;
      r.all == (if AllKey in order then CoerceValue(items[AllKey]).value else pass.all) &&
      forall k | k in r.normalized :: k in pass.normalized || k.Index?
    decreases |order|
  {
    if order != [] {
      var k := order[0];
      var v := items[k];
      assert forall j | j in order && j != k :: j in order[1..];
      if k == AllKey {
        NormalizeEntriesAll(items, order[1..], length, pass.(all := CoerceValue(v).value));
      } else {
        var n0 := Index(NormIndex(k.i, length));
        var m := Merge(v, Get(pass.normalized, n0), false).value;
        NormalizeEntriesAll(items, order[1..], length, pass.(normalized := pass.normalized[n0 := m]));
      }
    }
  }

  /** The second pass at one index: the entry `entry` the first pass left
      there (`None` when it left none) under the coerced `__all__` entry
      `all`. An empty `__all__` and an index outside the sequence keep the
      entry; a full `__all__` fills a missing entry with `...`; a mapping
      `__all__` keeps a full entry and is merged into any other, a missing one
      counting as an empty mapping. */
  function AllAt(entry: Spec, all: Spec, inRange: bool): Result<Spec>
  {
    if !inRange || all == None || all == KeyMap(map[]) then Ok(entry)
    else if IsTrue(all) then Ok(if entry == None then Ellipsis else entry)
    else if IsTrue(entry) then Ok(entry)
    else Merge(all, if entry == None then KeyMap(map[]) else entry, false)
  }

  /** The second pass, index by index, and it adds nothing but indexes. */
  lemma ExpandAllAt(normalized: map<Key, Spec>, all: Spec, length: nat, n: int)
    requires forall k | k in normalized :: normalized[k] != None
    requires ExpandAll(normalized, all, length).Ok?
    ensures AllAt(Get(normalized, Index(n)), all, 0 <= n < length) == Ok(Get(ExpandAll(normalized, all, length).value, Index(n)))
    ensures forall k | k in ExpandAll(normalized, all, length).value :: k in normalized || k.Index?
    ensures forall k | k in normalized :: k in ExpandAll(normalized, all, length).value
  {
    var k := Index(n);
    if all != None && all != KeyMap(map[]) && !IsTrue(all) {
      var merged := AllMerged(normalized, all, length);
      if 0 <= n < length {
        assert k in IndexKeys(length);
        assert merged[k].Ok?;
      } else {
        assert k !in merged;
      }
    } else if IsTrue(all) && 0 <= n < length {
      assert k in IndexKeys(length);
    }
  }

  /** A mapping against a list or tuple of `length` elements, at index `n`:
      the entries whose index lands on `n` (a negative one counted from the
      end) are merged in their order, and the `__all__` entry then applies
      as `AllAt` says. Every key of the result is an index. */
  lemma NormalizeIndexMapping(length: nat, items: map<Key, Spec>, order: seq<Key>, n: int)
    requires IsOrderOf(order, items.Keys)
    requires NewValueItems(Sequence(length), KeyMap(items), order).Ok?
    ensures MergedInOrder(items, Colliding(order, length, n), None).Ok?
    ensures AllKey in items ==> CoerceValue(items[AllKey]).Ok?
    ensures var r := NewValueItems(Sequence(length), KeyMap(items), order).value.items;
      var all := if AllKey in items then CoerceValue(items[AllKey]).value else None;
      AllAt(MergedInOrder(items, Colliding(order, length, n), None).value, all, 0 <= n < length) == Ok(Get(r, Index(n))) &&
      (Colliding(order, length, n) != [] ==> Index(n) in r) &&
      forall k | k in r :: k.Index?
  {
    var start := Pass(map[], None);
    var pass := NormalizeEntries(items, order, length, start).value;
    NormalizeEntriesAt(items, order, length, start, n);
    NormalizeEntriesAll(items, order, length, start);
    forall k | k in pass.normalized
      ensures pass.normalized[k] != None
    {
      if k.Index? {
        NormalizeEntriesAt(items, order, length, start, k.i);
      }
    }
    ExpandAllAt(pass.normalized, pass.all, length, n);
  }

  /** No key appears twice in `order`. */
  predicate Distinct(order: seq<Key>)
  {
    forall i, j | 0 <= i < j < |order| :: order[i] != order[j]
  }

  /** The only key of a duplicate-free `order` that lands on `n` is `k`. */
  lemma {:induction false} CollidingOnce(order: seq<Key>, length: nat, n: int, k: Key)
    requires Distinct(order) && k in order && k.Index? && NormIndex(k.i, length) == n
    requires forall j | j in order && j.Index? && NormIndex(j.i, length) == n :: j == k
    ensures Colliding(order, length, n) == [k]
    decreases |order|
  {
    var rest := order[1..];
    if order[0] == k {
      assert forall j | 0 <= j < |rest| :: rest[j] == order[j + 1] && order[j + 1] != order[0];
      CollidingNone(rest, length, n);
    } else {
      assert k in rest;
      CollidingOnce(rest, length, n, k);
    }
  }

  /** No key of `order` lands on `n`. */
  lemma {:induction false} CollidingNone(order: seq<Key>, length: nat, n: int)
    requires forall k | k in order :: !(k.Index? && NormIndex(k.i, length) == n)
    ensures Colliding(order, length, n) == []
    decreases |order|
  {
    if order != [] {
      assert forall k | k in order[1..] :: k in order;
      CollidingNone(order[1..], length, n);
    }
  }

  /** Two keys of a duplicate-free `order`, `a` before `b`, are the only ones
      landing on `n`. */
  lemma {:induction false} CollidingTwo(order: seq<Key>, length: nat, n: int, i: nat, j: nat)
    requires Distinct(order) && i < j < |order|
    requires order[i].Index? && NormIndex(order[i].i, length) == n
    requires order[j].Index? && NormIndex(order[j].i, length) == n
    requires forall k | k in order && k.Index? && NormIndex(k.i, length) == n :: k == order[i] || k == order[j]
    ensures Colliding(order, length, n) == [order[i], order[j]]
    decreases |order|
  {
    var rest := order[1..];
    assert Distinct(rest);
    if i == 0 {
      assert rest[j - 1] == order[j];
      CollidingOnce(rest, length, n, order[j]);
    } else {
      assert rest[i - 1] == order[i] && rest[j - 1] == order[j];
      assert order[0] != order[i] && order[0] != order[j];
      CollidingTwo(rest, length, n, i - 1, j - 1);
    }
  }

  /** Against a sequence, a mapping whose keys are indexes or `__all__` and
      whose entries are well-formed mappings, sets or full markers is
      accepted: the partner of `SequenceEntriesChecked`. */
  lemma AcceptedIndexMapping(length: nat, items: map<Key, Spec>, order: seq<Key>)
    requires IsOrderOf(order, items.Keys)
    requires forall k | k in items :: (k.Index? || k == AllKey) && IndexValue(items[k]) && WellFormed(items[k])
    ensures NewValueItems(Sequence(length), KeyMap(items), order).Ok?
  {
    var start := Pass(map[], None);
    NormalizeCleanEntries(items, order, length, start);
    var pass := NormalizeEntries(items, order, length, start).value;
    var merged := AllMerged(pass.normalized, pass.all, length);
    forall k | k in merged
      ensures merged[k].Ok?
    {
      var item := if k in pass.normalized then pass.normalized[k] else KeyMap(map[]);
      MergeClean(pass.all, item, false);
    }
  }

  lemma {:induction false} NormalizeCleanEntries(items: map<Key, Spec>, order: seq<Key>, length: nat, pass: Pass)
    requires forall k | k in order :: k in items && (k.Index? || k == AllKey) && IndexValue(items[k]) && WellFormed(items[k])
    requires forall k | k in pass.normalized :: WellFormed(pass.normalized[k])
    requires Clean(pass.all)
    ensures NormalizeEntries(items, order, length, pass).Ok?
    ensures var r := NormalizeEntries(items, order, length, pass).value;
      Clean(r.all) && forall k | k in r.normalized :: WellFormed(r.normalized[k])
    decreases |order|
  {
    if order != [] {
      var k := order[0];
      var v := items[k];
      if k == AllKey {
        CoerceClean(v);
        NormalizeCleanEntries(items, order[1..], length, pass.(all := CoerceValue(v).value));
      } else {
        var n0 := Index(NormIndex(k.i, length));
        MergeClean(v, Get(pass.normalized, n0), false);
        var m := Merge(v, Get(pass.normalized, n0), false).value;
        NormalizeCleanEntries(items, order[1..], length, pass.(normalized := pass.normalized[n0 := m]));
      }
    }
  }

  /** An entry whose index no other key lands on, with no `__all__`: it is
      found, coerced, at its index, a negative one counted from the end. */
  lemma LoneIndexEntry(length: nat, items: map<Key, Spec>, order: seq<Key>, i: int)
    requires IsOrderOf(order, items.Keys)
    requires NewValueItems(Sequence(length), KeyMap(items), order).Ok?
    requires Index(i) in items && AllKey !in items
    requires forall k | k in items && k.Index? && NormIndex(k.i, length) == NormIndex(i, length) :: k == Index(i)
    ensures CoerceValue(items[Index(i)]).Ok?
    ensures var r := NewValueItems(Sequence(length), KeyMap(items), order).value.items;
      Index(NormIndex(i, length)) in r && r[Index(NormIndex(i, length))] == CoerceValue(items[Index(i)]).value
  {
    var n := NormIndex(i, length);
    var v := items[Index(i)];
    CollidingOnce(order, length, n, Index(i));
    NormalizeIndexMapping(length, items, order, n);
    assert [Index(i)][1..] == [];
    assert MergedInOrder(items, [Index(i)], None) == Merge(v, None, false);
    assert Merge(v, None, false) == CoerceValue(v);
  }

  /** Two entries landing on one index, with no `__all__`: the later one is
      merged over the earlier, coerced one (`merge(v, existing)`). */
  lemma CollidingEntries(length: nat, items: map<Key, Spec>, order: seq<Key>, i: nat, j: nat)
    requires IsOrderOf(order, items.Keys) && i < j < |order| && AllKey !in items
    requires NewValueItems(Sequence(length), KeyMap(items), order).Ok?
    requires order[i].Index? && order[j].Index? && NormIndex(order[i].i, length) == NormIndex(order[j].i, length)
    requires forall k | k in items && k.Index? && NormIndex(k.i, length) == NormIndex(order[i].i, length) ::
      k == order[i] || k == order[j]
    ensures CoerceValue(items[order[i]]).Ok?
    ensures Merge(items[order[j]], CoerceValue(items[order[i]]).value, false).Ok?
    ensures var r := NewValueItems(Sequence(length), KeyMap(items), order).value.items;
      Get(r, Index(NormIndex(order[i].i, length))) == Merge(items[order[j]], CoerceValue(items[order[i]]).value, false).value
  {
    var n := NormIndex(order[i].i, length);
    CollidingTwo(order, length, n, i, j);
    NormalizeIndexMapping(length, items, order, n);
    var a, b := items[order[i]], items[order[j]];
    assert [order[i], order[j]][1..] == [order[j]];
    assert [order[j]][1..] == [];
    assert Merge(a, None, false) == CoerceValue(a);
    assert MergedInOrder(items, [order[i], order[j]], None) == MergedInOrder(items, [order[j]], CoerceValue(a).value);
    assert MergedInOrder(items, [order[j]], CoerceValue(a).value) == Merge(b, CoerceValue(a).value, false);
  }
}
