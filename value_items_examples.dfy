/** The examples the test suite checks for `ValueItems` and its `merge`. */
module ValueItemsExamples {
  import opened ValueItemsModel

  const A: Key := Name("a")
  const B: Key := Name("b")
  const C: Key := Name("c")
  const D: Key := Name("d")

  /** `{}`: the empty mapping. */
  const Empty: Spec := KeyMap(map[])

  // ---------------------------------------------------------------------------
  // merge: the rows where a side is missing or full
  // ---------------------------------------------------------------------------

  lemma MergeUnionScalarRows()
    ensures Merge(Ellipsis, Ellipsis, false) == Ok(Ellipsis)
    ensures Merge(None, None, false) == Ok(None)
    ensures Merge(Ellipsis, None, false) == Ok(Ellipsis)
    ensures Merge(None, Ellipsis, false) == Ok(Ellipsis)
    ensures Merge(None, Empty, false) == Ok(Empty)
    ensures Merge(Empty, None, false) == Ok(Empty)
    ensures Merge(Ellipsis, Empty, false) == Ok(Empty)
    ensures Merge(Empty, Ellipsis, false) == Ok(Ellipsis)
    ensures Merge(KeySet({A}), Ellipsis, false) == Ok(Ellipsis)
  {
  }

  lemma MergeIntersectionScalarRows()
    ensures Merge(Ellipsis, Ellipsis, true) == Ok(Ellipsis)
    ensures Merge(None, None, true) == Ok(None)
    ensures Merge(Ellipsis, None, true) == Ok(Ellipsis)
    ensures Merge(None, Ellipsis, true) == Ok(Ellipsis)
    ensures Merge(None, Empty, true) == Ok(Empty)
    ensures Merge(Empty, None, true) == Ok(Empty)
    ensures Merge(Ellipsis, Empty, true) == Ok(Empty)
    ensures Merge(Empty, Ellipsis, true) == Ok(Empty)
  {
  }

  lemma MergeIntersectionSetWithFull()
    ensures Merge(KeySet({A}), Ellipsis, true) == Ok(KeyMap(map[A := Ellipsis]))
  {
    CoerceKeySet({A}, map[A := Ellipsis]);
  }

  lemma MergeTrueScalarRows()
    ensures Merge(Ellipsis, True, false) == Ok(True)
    ensures Merge(True, Ellipsis, false) == Ok(Ellipsis)
    ensures Merge(True, None, false) == Ok(True)
  {
  }

  // ---------------------------------------------------------------------------
  // merge: the rows where both sides are mappings or sets, merged key by key
  // ---------------------------------------------------------------------------


  /** Both empty. */
  lemma MergeUnionEmptyMaps()
    ensures Merge(Empty, Empty, false) == Ok(Empty)
  {
    MergeOfMapsIs(Empty, Empty, false, map[], map[], map[]);
  }

  /** Both empty. */
  lemma MergeIntersectionEmptyMaps()
    ensures Merge(Empty, Empty, true) == Ok(Empty)
  {
    MergeOfMapsIs(Empty, Empty, true, map[], map[], map[]);
  }

  /** An entry that merges to `None` is dropped. */
  lemma MergeUnionDropsNone()
    ensures Merge(KeyMap(map[A := None]), KeyMap(map[A := None]), false) == Ok(Empty)
  {
    MergeUnionDropsNoneKeys();
    MergeUnionDropsNoneA();
    MergeOfMapsIs(KeyMap(map[A := None]), KeyMap(map[A := None]), false, map[A := None], map[A := None], map[]);
  }

  lemma MergeUnionDropsNoneKeys()
    ensures MergeKeys(map[A := None], map[A := None], false) == {A}
  {
  }

  lemma MergeUnionDropsNoneA()
    ensures Merge(Get(map[A := None], A), Get(map[A := None], A), false) == Ok(None)
  {
  }

  /** An entry that merges to `None` is dropped. */
  lemma MergeIntersectionDropsNone()
    ensures Merge(KeyMap(map[A := None]), KeyMap(map[A := None]), true) == Ok(Empty)
  {
    MergeIntersectionDropsNoneKeys();
    MergeIntersectionDropsNoneA();
    MergeOfMapsIs(KeyMap(map[A := None]), KeyMap(map[A := None]), true, map[A := None], map[A := None], map[]);
  }

  lemma MergeIntersectionDropsNoneKeys()
    ensures MergeKeys(map[A := None], map[A := None], true) == {A}
  {
  }

  lemma MergeIntersectionDropsNoneA()
    ensures Merge(Get(map[A := None], A), Get(map[A := None], A), true) == Ok(None)
  {
  }

  /** A set's keys are kept, selected whole. */
  lemma MergeUnionSetWithEmpty()
    ensures Merge(KeySet({A}), Empty, false) == Ok(KeyMap(map[A := Ellipsis]))
  {
    CoerceKeySet({A}, map[A := Ellipsis]);
    MergeUnionSetWithEmptyKeys();
    MergeUnionSetWithEmptyA();
    MergeOfMapsIs(KeySet({A}), Empty, false, map[A := Ellipsis], map[], map[A := Ellipsis]);
  }

  lemma MergeUnionSetWithEmptyKeys()
    ensures MergeKeys(map[A := Ellipsis], map[], false) == {A}
  {
  }

  lemma MergeUnionSetWithEmptyA()
    ensures Merge(Get(map[A := Ellipsis], A), Get(map[], A), false) == Ok(Ellipsis)
  {
  }

  /** No key is shared. */
  lemma MergeIntersectionSetWithEmpty()
    ensures Merge(KeySet({A}), Empty, true) == Ok(Empty)
  {
    CoerceKeySet({A}, map[A := Ellipsis]);
    MergeOfMapsIs(KeySet({A}), Empty, true, map[A := Ellipsis], map[], map[]);
  }

  /** The keys of both sets. */
  lemma MergeUnionTwoSets()
    ensures Merge(KeySet({A}), KeySet({B}), false) == Ok(KeyMap(map[A := Ellipsis, B := Ellipsis]))
  {
    CoerceKeySet({A}, map[A := Ellipsis]);
    CoerceKeySet({B}, map[B := Ellipsis]);
    MergeUnionTwoSetsKeys();
    MergeUnionTwoSetsA();
    MergeUnionTwoSetsB();
    MergeOfMapsIs(KeySet({A}), KeySet({B}), false, map[A := Ellipsis], map[B := Ellipsis], map[A := Ellipsis, B := Ellipsis]);
  }

  lemma MergeUnionTwoSetsKeys()
    ensures MergeKeys(map[A := Ellipsis], map[B := Ellipsis], false) == {A, B}
  {
  }

  lemma MergeUnionTwoSetsA()
    ensures Merge(Get(map[A := Ellipsis], A), Get(map[B := Ellipsis], A), false) == Ok(Ellipsis)
  {
  }

  lemma MergeUnionTwoSetsB()
    ensures Merge(Get(map[A := Ellipsis], B), Get(map[B := Ellipsis], B), false) == Ok(Ellipsis)
  {
  }

  /** No key is shared. */
  lemma MergeIntersectionTwoSets()
    ensures Merge(KeySet({A}), KeySet({B}), true) == Ok(Empty)
  {
    CoerceKeySet({A}, map[A := Ellipsis]);
    CoerceKeySet({B}, map[B := Ellipsis]);
    MergeOfMapsIs(KeySet({A}), KeySet({B}), true, map[A := Ellipsis], map[B := Ellipsis], map[]);
  }

  /** The entries of both mappings. */
  lemma MergeUnionDisjointKeys()
    ensures Merge(KeyMap(map[A := Ellipsis]), KeyMap(map[B := KeySet({C})]), false) == Ok(KeyMap(map[A := Ellipsis, B := KeyMap(map[C := Ellipsis])]))
  {
    MergeUnionDisjointKeysKeys();
    MergeUnionDisjointKeysA();
    MergeUnionDisjointKeysB();
    MergeOfMapsIs(KeyMap(map[A := Ellipsis]), KeyMap(map[B := KeySet({C})]), false, map[A := Ellipsis], map[B := KeySet({C})], map[A := Ellipsis, B := KeyMap(map[C := Ellipsis])]);
  }

  lemma MergeUnionDisjointKeysKeys()
    ensures MergeKeys(map[A := Ellipsis], map[B := KeySet({C})], false) == {A, B}
  {
  }

  lemma MergeUnionDisjointKeysA()
    ensures Merge(Get(map[A := Ellipsis], A), Get(map[B := KeySet({C})], A), false) == Ok(Ellipsis)
  {
  }

  lemma MergeUnionDisjointKeysB()
    ensures Merge(Get(map[A := Ellipsis], B), Get(map[B := KeySet({C})], B), false) == Ok(KeyMap(map[C := Ellipsis]))
  {
    CoerceKeySet({C}, map[C := Ellipsis]);
  }

  /** No key is shared. */
  lemma MergeIntersectionDisjointKeys()
    ensures Merge(KeyMap(map[A := Ellipsis]), KeyMap(map[B := KeySet({C})]), true) == Ok(Empty)
  {
    MergeOfMapsIs(KeyMap(map[A := Ellipsis]), KeyMap(map[B := KeySet({C})]), true, map[A := Ellipsis], map[B := KeySet({C})], map[]);
  }

  /** A full base entry gives way to the override's set. */
  lemma MergeUnionNarrowsFullEntry()
    ensures Merge(KeyMap(map[A := Ellipsis]), KeyMap(map[A := KeySet({C})]), false) == Ok(KeyMap(map[A := KeyMap(map[C := Ellipsis])]))
  {
    MergeUnionNarrowsFullEntryKeys();
    MergeUnionNarrowsFullEntryA();
    MergeOfMapsIs(KeyMap(map[A := Ellipsis]), KeyMap(map[A := KeySet({C})]), false, map[A := Ellipsis], map[A := KeySet({C})], map[A := KeyMap(map[C := Ellipsis])]);
  }

  lemma MergeUnionNarrowsFullEntryKeys()
    ensures MergeKeys(map[A := Ellipsis], map[A := KeySet({C})], false) == {A}
  {
  }

  lemma MergeUnionNarrowsFullEntryA()
    ensures Merge(Get(map[A := Ellipsis], A), Get(map[A := KeySet({C})], A), false) == Ok(KeyMap(map[C := Ellipsis]))
  {
    CoerceKeySet({C}, map[C := Ellipsis]);
  }

  /** A full base entry gives way to the override's set. */
  lemma MergeIntersectionNarrowsFullEntry()
    ensures Merge(KeyMap(map[A := Ellipsis]), KeyMap(map[A := KeySet({C})]), true) == Ok(KeyMap(map[A := KeyMap(map[C := Ellipsis])]))
  {
    MergeIntersectionNarrowsFullEntryKeys();
    MergeIntersectionNarrowsFullEntryA();
    MergeOfMapsIs(KeyMap(map[A := Ellipsis]), KeyMap(map[A := KeySet({C})]), true, map[A := Ellipsis], map[A := KeySet({C})], map[A := KeyMap(map[C := Ellipsis])]);
  }

  lemma MergeIntersectionNarrowsFullEntryKeys()
    ensures MergeKeys(map[A := Ellipsis], map[A := KeySet({C})], true) == {A}
  {
  }

  lemma MergeIntersectionNarrowsFullEntryA()
    ensures Merge(Get(map[A := Ellipsis], A), Get(map[A := KeySet({C})], A), true) == Ok(KeyMap(map[C := Ellipsis]))
  {
    CoerceKeySet({C}, map[C := Ellipsis]);
  }

  /** A full override entry wins; the base's other entry is kept. */
  lemma MergeUnionWidensEntry()
    ensures Merge(KeyMap(map[A := KeyMap(map[C := Ellipsis]), B := KeySet({D})]), KeyMap(map[A := Ellipsis]), false) == Ok(KeyMap(map[A := Ellipsis, B := KeyMap(map[D := Ellipsis])]))
  {
    MergeUnionWidensEntryKeys();
    MergeUnionWidensEntryA();
    MergeUnionWidensEntryB();
    MergeOfMapsIs(KeyMap(map[A := KeyMap(map[C := Ellipsis]), B := KeySet({D})]), KeyMap(map[A := Ellipsis]), false, map[A := KeyMap(map[C := Ellipsis]), B := KeySet({D})], map[A := Ellipsis], map[A := Ellipsis, B := KeyMap(map[D := Ellipsis])]);
  }

  lemma MergeUnionWidensEntryKeys()
    ensures MergeKeys(map[A := KeyMap(map[C := Ellipsis]), B := KeySet({D})], map[A := Ellipsis], false) == {A, B}
  {
  }

  lemma MergeUnionWidensEntryA()
    ensures Merge(Get(map[A := KeyMap(map[C := Ellipsis]), B := KeySet({D})], A), Get(map[A := Ellipsis], A), false) == Ok(Ellipsis)
  {
  }

  lemma MergeUnionWidensEntryB()
    ensures Merge(Get(map[A := KeyMap(map[C := Ellipsis]), B := KeySet({D})], B), Get(map[A := Ellipsis], B), false) == Ok(KeyMap(map[D := Ellipsis]))
  {
    CoerceKeySet({D}, map[D := Ellipsis]);
  }

  /** A full override entry yields to the base's; the unshared key is dropped. */
  lemma MergeIntersectionKeepsNarrowEntry()
    ensures Merge(KeyMap(map[A := KeyMap(map[C := Ellipsis]), B := KeySet({D})]), KeyMap(map[A := Ellipsis]), true) == Ok(KeyMap(map[A := KeyMap(map[C := Ellipsis])]))
  {
    MergeIntersectionKeepsNarrowEntryKeys();
    MergeIntersectionKeepsNarrowEntryA();
    MergeOfMapsIs(KeyMap(map[A := KeyMap(map[C := Ellipsis]), B := KeySet({D})]), KeyMap(map[A := Ellipsis]), true, map[A := KeyMap(map[C := Ellipsis]), B := KeySet({D})], map[A := Ellipsis], map[A := KeyMap(map[C := Ellipsis])]);
  }

  lemma MergeIntersectionKeepsNarrowEntryKeys()
    ensures MergeKeys(map[A := KeyMap(map[C := Ellipsis]), B := KeySet({D})], map[A := Ellipsis], true) == {A}
  {
  }

  lemma MergeIntersectionKeepsNarrowEntryA()
    ensures Merge(Get(map[A := KeyMap(map[C := Ellipsis]), B := KeySet({D})], A), Get(map[A := Ellipsis], A), true) == Ok(KeyMap(map[C := Ellipsis]))
  {
  }

  /** `True` wins like `...` and is kept as `True`. */
  lemma MergeTrueWidensEntry()
    ensures Merge(KeyMap(map[A := KeyMap(map[C := True]), B := KeySet({D})]), KeyMap(map[A := True]), false) == Ok(KeyMap(map[A := True, B := KeyMap(map[D := Ellipsis])]))
  {
    MergeTrueWidensEntryKeys();
    MergeTrueWidensEntryA();
    MergeTrueWidensEntryB();
    MergeOfMapsIs(KeyMap(map[A := KeyMap(map[C := True]), B := KeySet({D})]), KeyMap(map[A := True]), false, map[A := KeyMap(map[C := True]), B := KeySet({D})], map[A := True], map[A := True, B := KeyMap(map[D := Ellipsis])]);
  }

  lemma MergeTrueWidensEntryKeys()
    ensures MergeKeys(map[A := KeyMap(map[C := True]), B := KeySet({D})], map[A := True], false) == {A, B}
  {
  }

  lemma MergeTrueWidensEntryA()
    ensures Merge(Get(map[A := KeyMap(map[C := True]), B := KeySet({D})], A), Get(map[A := True], A), false) == Ok(True)
  {
  }

  lemma MergeTrueWidensEntryB()
    ensures Merge(Get(map[A := KeyMap(map[C := True]), B := KeySet({D})], B), Get(map[A := True], B), false) == Ok(KeyMap(map[D := Ellipsis]))
  {
    CoerceKeySet({D}, map[D := Ellipsis]);
  }

  // ---------------------------------------------------------------------------
  // ValueItems against a list, and the queries
  // ---------------------------------------------------------------------------

  /** The elements of `v` whose index is not excluded, in order. */
  function NotExcluded<T>(v: seq<T>, vi: ValueItems): seq<T>
  {
    if v == [] then []
    else NotExcluded(v[..|v| - 1], vi) + if vi.IsExcluded(Index(|v| - 1)) then [] else [v[|v| - 1]]
  }

  /** The elements of `v` whose index is included, in order. */
  function Included<T>(v: seq<T>, vi: ValueItems): seq<T>
  {
    if v == [] then []
    else Included(v[..|v| - 1], vi) + if vi.IsIncluded(Index(|v| - 1)) then [v[|v| - 1]] else []
  }

  /** `{0, -1}` against a list of three: the first and the last index, both
      selected whole. */
  lemma FirstAndLastOfThree()
    ensures NewValueItems(Sequence(3), KeySet({Index(0), Index(-1)}), [Index(0), Index(-1)])
         == Ok(ValueItems(map[Index(0) := Ellipsis, Index(2) := Ellipsis]))
  {
    NormalizeSetOfIndexes({Index(0), Index(-1)}, [Index(0), Index(-1)], 3);
    FirstAndLastResolved();
  }

  lemma FirstAndLastResolved()
    ensures (map k | k in Resolved({Index(0), Index(-1)}, 3) :: Ellipsis) == map[Index(0) := Ellipsis, Index(2) := Ellipsis]
  {
    assert Resolved({Index(0), Index(-1)}, 3) == {Index(0), Index(2)};
  }

  /** Filtering the list of three by those queries. */
  lemma FirstAndLastQueries()
    ensures var vi := ValueItems(map[Index(0) := Ellipsis, Index(2) := Ellipsis]);
      vi.IsExcluded(Index(2)) && vi.IsIncluded(Index(2)) &&
      NotExcluded(["a", "b", "c"], vi) == ["b"] &&
      Included(["a", "b", "c"], vi) == ["a", "c"]
  {
    var vi := ValueItems(map[Index(0) := Ellipsis, Index(2) := Ellipsis]);
    assert ["a", "b", "c"][..2] == ["a", "b"] && ["a", "b"][..1] == ["a"] && ["a"][..0] == [];
    assert !vi.IsExcluded(Index(1)) && !vi.IsIncluded(Index(1));
  }

  // ---------------------------------------------------------------------------
  // ValueItems against a dict
  // ---------------------------------------------------------------------------

  /** The nested specification of the dict example. */
  const Nested: Spec := KeyMap(map[A := KeySet({Index(0), Index(-1)}), B := KeyMap(map[A := Ellipsis, B := Other(-1)])])

  /** Against a value that is not a list or tuple the mapping is kept as it
      is: `a` and `b` are included but not excluded, `c` is neither. */
  lemma MappingAgainstDict()
    ensures NewValueItems(NotSequence, Nested, [A, B]) == Ok(ValueItems(Nested.items))
    ensures var vi := ValueItems(Nested.items);
      !vi.IsExcluded(A) && vi.IsIncluded(A) &&
      !vi.IsExcluded(B) && vi.IsIncluded(B) &&
      !vi.IsExcluded(C) && !vi.IsIncluded(C)
  {
  }

  /** The entry for `a`, built against the list under `a`, is the first
      example again. */
  lemma ForElementThenList()
    ensures ValueItems(Nested.items).ForElement(A) == KeySet({Index(0), Index(-1)})
    ensures NewValueItems(Sequence(3), ValueItems(Nested.items).ForElement(A), [Index(0), Index(-1)])
         == Ok(ValueItems(map[Index(0) := Ellipsis, Index(2) := Ellipsis]))
  {
    FirstAndLastOfThree();
  }

  /** `{0: {'a'}, -1: {'b'}}`, in that order. */
  const FirstLast: map<Key, Spec> := map[Index(0) := KeySet({A}), Index(-1) := KeySet({B})]
  const FirstLastOrder: seq<Key> := [Index(0), Index(-1)]

  /** `{2: {'a'}, -1: {'b'}}`, in that order. */
  const LastTwice: map<Key, Spec> := map[Index(2) := KeySet({A}), Index(-1) := KeySet({B})]
  const LastTwiceOrder: seq<Key> := [Index(2), Index(-1)]

  /** Nested specifications under indexes of a list of three: index `-1`
      lands on `2`, and index `1`, named by nobody, has no entry. */
  lemma NestedIndexesOfThree()
    ensures NewValueItems(Sequence(3), KeyMap(FirstLast), FirstLastOrder).Ok?
    ensures var vi := NewValueItems(Sequence(3), KeyMap(FirstLast), FirstLastOrder).value;
      vi.ForElement(Index(0)) == KeyMap(map[A := Ellipsis]) &&
      vi.ForElement(Index(2)) == KeyMap(map[B := Ellipsis]) &&
      vi.ForElement(Index(1)) == None
  {
    FirstLastAccepted();
    FirstLastEntry(0, A);
    FirstLastEntry(-1, B);
    FirstLastMiddle();
  }

  lemma FirstLastAccepted()
    ensures IsOrderOf(FirstLastOrder, FirstLast.Keys)
    ensures NewValueItems(Sequence(3), KeyMap(FirstLast), FirstLastOrder).Ok?
  {
    AcceptedIndexMapping(3, FirstLast, FirstLastOrder);
  }

  lemma FirstLastEntry(i: int, k: Key)
    requires (i, k) == (0, A) || (i, k) == (-1, B)
    ensures NewValueItems(Sequence(3), KeyMap(FirstLast), FirstLastOrder).Ok?
    ensures Get(NewValueItems(Sequence(3), KeyMap(FirstLast), FirstLastOrder).value.items, Index(NormIndex(i, 3)))
         == KeyMap(map[k := Ellipsis])
  {
    FirstLastAccepted();
    LoneIndexEntry(3, FirstLast, FirstLastOrder, i);
    CoerceKeySet({k}, map[k := Ellipsis]);
  }

  lemma FirstLastMiddle()
    ensures NewValueItems(Sequence(3), KeyMap(FirstLast), FirstLastOrder).Ok?
    ensures Get(NewValueItems(Sequence(3), KeyMap(FirstLast), FirstLastOrder).value.items, Index(1)) == None
  {
    FirstLastAccepted();
    CollidingNone(FirstLastOrder, 3, 1);
    NormalizeIndexMapping(3, FirstLast, FirstLastOrder, 1);
  }

  /** Indexes `2` and `-1` both land on `2` of a list of three: the entry for
      `-1`, met later, is merged over the one for `2`. */
  lemma CollidingIndexesOfThree()
    ensures NewValueItems(Sequence(3), KeyMap(LastTwice), LastTwiceOrder).Ok?
    ensures NewValueItems(Sequence(3), KeyMap(LastTwice), LastTwiceOrder).value.ForElement(Index(2))
         == KeyMap(map[A := Ellipsis, B := Ellipsis])
  {
    LastTwiceMerged();
    SetOverSet();
  }

  lemma LastTwiceMerged()
    ensures NewValueItems(Sequence(3), KeyMap(LastTwice), LastTwiceOrder).Ok?
    ensures Get(NewValueItems(Sequence(3), KeyMap(LastTwice), LastTwiceOrder).value.items, Index(2))
         == Merge(KeySet({B}), CoerceValue(KeySet({A})).value, false).value
  {
    AcceptedIndexMapping(3, LastTwice, LastTwiceOrder);
    CollidingEntries(3, LastTwice, LastTwiceOrder, 0, 1);
  }

  /** `{'b'}` merged over `{'a': ...}`. */
  lemma SetOverSet()
    ensures CoerceValue(KeySet({A})) == Ok(KeyMap(map[A := Ellipsis]))
    ensures Merge(KeySet({B}), KeyMap(map[A := Ellipsis]), false) == Ok(KeyMap(map[A := Ellipsis, B := Ellipsis]))
  {
    CoerceKeySet({A}, map[A := Ellipsis]);
    CoerceKeySet({B}, map[B := Ellipsis]);
    assert MergeKeys(map[B := Ellipsis], map[A := Ellipsis], false) == {A, B};
    MergeOfMapsIs(KeySet({B}), KeyMap(map[A := Ellipsis]), false, map[B := Ellipsis], map[A := Ellipsis],
      map[A := Ellipsis, B := Ellipsis]);
  }

  // ---------------------------------------------------------------------------
  // `__all__`
  // ---------------------------------------------------------------------------

  /** An empty `__all__` against an empty list names nothing. */
  lemma EmptyAllOnEmptyList()
    ensures NewValueItems(Sequence(0), KeyMap(map[AllKey := Empty]), [AllKey]) == Ok(ValueItems(map[]))
  {
    OnlyAllEntries(0, Empty);
  }

  /** A full `__all__` against a list of four selects every index whole. */
  lemma FullAllOnFour()
    ensures NewValueItems(Sequence(4), KeyMap(map[AllKey := True]), [AllKey])
         == Ok(ValueItems(map[Index(0) := Ellipsis, Index(1) := Ellipsis, Index(2) := Ellipsis, Index(3) := Ellipsis]))
  {
    OnlyAllEntries(4, True);
    IndexKeysOfFour();
    ConstantMap(map[Index(0) := Ellipsis, Index(1) := Ellipsis, Index(2) := Ellipsis, Index(3) := Ellipsis],
      {Index(0), Index(1), Index(2), Index(3)}, Ellipsis);
  }

  lemma IndexKeysOfFour()
    ensures IndexKeys(4) == {Index(0), Index(1), Index(2), Index(3)}
  {
    assert forall k | k in IndexKeys(4) :: k.i in {0, 1, 2, 3};
  }

  /** `__all__` as the set `{1, 2}` against a list of two: each index gets
      that set as a mapping. */
  lemma SetAllOnTwo()
    ensures NewValueItems(Sequence(2), KeyMap(map[AllKey := KeySet({Index(1), Index(2)})]), [AllKey])
         == Ok(ValueItems(map[Index(0) := KeyMap(map[Index(1) := Ellipsis, Index(2) := Ellipsis]),
                              Index(1) := KeyMap(map[Index(1) := Ellipsis, Index(2) := Ellipsis])]))
  {
    var all := KeySet({Index(1), Index(2)});
    var entry := KeyMap(map[Index(1) := Ellipsis, Index(2) := Ellipsis]);
    OnlyAllEntries(2, all);
    SetAllMerged();
    IndexKeysOfTwo();
    ConstantMap(map[Index(0) := entry, Index(1) := entry], {Index(0), Index(1)}, entry);
  }

  lemma SetAllMerged()
    ensures Merge(KeySet({Index(1), Index(2)}), KeyMap(map[]), false)
         == Ok(KeyMap(map[Index(1) := Ellipsis, Index(2) := Ellipsis]))
  {
    var items := map[Index(1) := Ellipsis, Index(2) := Ellipsis];
    CoerceKeySet({Index(1), Index(2)}, items);
    assert MergeKeys(items, map[], false) == {Index(1), Index(2)};
    MergeOfMapsIs(KeySet({Index(1), Index(2)}), KeyMap(map[]), false, items, map[], items);
  }

  lemma IndexKeysOfTwo()
    ensures IndexKeys(2) == {Index(0), Index(1)}
  {
    assert forall k | k in IndexKeys(2) :: k.i in {0, 1};
  }

  // ---------------------------------------------------------------------------
  // The three type errors
  // ---------------------------------------------------------------------------

  /** Against a list, `None` is not a valid entry. */
  lemma NoneEntryRefused()
    ensures NewValueItems(Sequence(2), KeyMap(map[A := None]), [A]) == Err(UnexpectedIndexValue(A))
  {
  }

  /** Against a list, a field name is not a valid key. */
  lemma NameKeyRefused()
    ensures NewValueItems(Sequence(2), KeyMap(map[A := Empty]), [A]) == Err(NotIndexWise)
  {
  }

  /** A tuple is neither a mapping nor a set. */
  lemma TupleRefused()
    ensures NewValueItems(NotSequence, Other(0), []) == Err(UnexpectedType)
  {
  }

}
