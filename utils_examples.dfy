/** The examples the test suite checks for `unique_list`, `deep_update` and
    `all_identical`. */
module UtilsExamples {
  import opened Utils

  // ---------------------------------------------------------------------------
  // unique_list: integers and strings are named by `str`, which tells them
  // apart, so an element is its own name here.
  // ---------------------------------------------------------------------------

  /** The naming the examples use: every element is its own name. */
  function Itself<T>(x: T): T
  {
    x
  }

  lemma UniqueListEmpty()
    ensures UniqueList([], Itself<int>) == []
    ensures UniqueList(UniqueList([], Itself<int>), Itself) == UniqueList([], Itself<int>)
  {
  }

  lemma UniqueListInts()
    ensures UniqueList([1, 1, 1, 2, 1, 2, 3, 2, 3, 1, 4, 2, 3, 1], Itself) == [1, 2, 3, 4]
    ensures var once := UniqueList([1, 1, 1, 2, 1, 2, 3, 2, 3, 1, 4, 2, 3, 1], Itself);
      UniqueList(once, Itself) == once
  {
    var xs := [1, 1, 1, 2, 1, 2, 3, 2, 3, 1, 4, 2, 3, 1];
    UniqueListByValue(xs, Itself);
    DistinctOfInts();
    UniqueListIdempotent(xs, Itself);
  }

  lemma DistinctOfInts()
    ensures Distinct([1, 1, 1, 2, 1, 2, 3, 2, 3, 1, 4, 2, 3, 1]) == [1, 2, 3, 4]
  {
    DistinctOfIntBlocks();
    IntBlocks();
  }

  /** The input cut into blocks, each a new element followed by old ones;
      the blocks are added one at a time. */
  lemma DistinctOfIntBlocks()
    ensures Distinct(([1] + [1, 1]) + ([2] + [1, 2]) + ([3] + [2, 3, 1]) + ([4] + [2, 3, 1])) == [1, 2, 3, 4]
  {
    var front := ([1] + [1, 1]) + ([2] + [1, 2]) + ([3] + [2, 3, 1]);
    DistinctOfFirstIntBlocks();
    DistinctAfterConcat(front, [4] + [2, 3, 1], {});
    ElementsOfFirstIntBlocks();
    DistinctAfterBlock(4, [2, 3, 1], {1, 2, 3});
  }

  lemma ElementsOfFirstIntBlocks()
    ensures {} + Elements(([1] + [1, 1]) + ([2] + [1, 2]) + ([3] + [2, 3, 1])) == {1, 2, 3}
  {
    var front := ([1] + [1, 1]) + ([2] + [1, 2]) + ([3] + [2, 3, 1]);
    assert front == [1, 1, 1, 2, 1, 2, 3, 2, 3, 1];
    assert forall x | x in front :: x in {1, 2, 3};
    assert front[0] == 1 && front[3] == 2 && front[6] == 3;
  }

  lemma DistinctOfFirstIntBlocks()
    ensures Distinct(([1] + [1, 1]) + ([2] + [1, 2]) + ([3] + [2, 3, 1])) == [1, 2, 3]
  {
    var front := ([1] + [1, 1]) + ([2] + [1, 2]);
    DistinctAfterConcat([1] + [1, 1], [2] + [1, 2], {});
    assert {} + Elements([1] + [1, 1]) == {1};
    DistinctAfterBlock(1, [1, 1], {});
    DistinctAfterBlock(2, [1, 2], {1});
    DistinctAfterConcat(front, [3] + [2, 3, 1], {});
    assert {} + Elements(front) == {1, 2};
    DistinctAfterBlock(3, [2, 3, 1], {1, 2});
  }

  lemma IntBlocks()
    ensures ([1] + [1, 1]) + ([2] + [1, 2]) + ([3] + [2, 3, 1]) + ([4] + [2, 3, 1])
         == [1, 1, 1, 2, 1, 2, 3, 2, 3, 1, 4, 2, 3, 1]
  {
  }

  lemma UniqueListStrings()
    ensures UniqueList(["a", "a", "b", "a", "b", "c", "b", "c", "a"], Itself) == ["a", "b", "c"]
    ensures var once := UniqueList(["a", "a", "b", "a", "b", "c", "b", "c", "a"], Itself);
      UniqueList(once, Itself) == once
  {
    var xs := ["a", "a", "b", "a", "b", "c", "b", "c", "a"];
    UniqueListByValue(xs, Itself);
    DistinctOfStrings();
    UniqueListIdempotent(xs, Itself);
  }

  lemma DistinctOfStrings()
    ensures Distinct(["a", "a", "b", "a", "b", "c", "b", "c", "a"]) == ["a", "b", "c"]
  {
    DistinctOfStringBlocks();
    StringBlocks();
  }

  lemma DistinctOfStringBlocks()
    ensures Distinct((["a"] + ["a"]) + (["b"] + ["a", "b"]) + (["c"] + ["b", "c", "a"])) == ["a", "b", "c"]
  {
    var front := (["a"] + ["a"]) + (["b"] + ["a", "b"]);
    DistinctOfFirstStringBlocks();
    DistinctAfterConcat(front, ["c"] + ["b", "c", "a"], {});
    assert {} + Elements(front) == {"a", "b"};
    DistinctAfterBlock("c", ["b", "c", "a"], {"a", "b"});
  }

  lemma DistinctOfFirstStringBlocks()
    ensures Distinct((["a"] + ["a"]) + (["b"] + ["a", "b"])) == ["a", "b"]
  {
    DistinctAfterConcat(["a"] + ["a"], ["b"] + ["a", "b"], {});
    assert {} + Elements(["a"] + ["a"]) == {"a"};
    DistinctAfterBlock("a", ["a"], {});
    DistinctAfterBlock("b", ["a", "b"], {"a"});
  }

  lemma StringBlocks()
    ensures (["a"] + ["a"]) + (["b"] + ["a", "b"]) + (["c"] + ["b", "c", "a"])
         == ["a", "a", "b", "a", "b", "c", "b", "c", "a"]
  {
  }

  // ---------------------------------------------------------------------------
  // deep_update
  // ---------------------------------------------------------------------------

  /** The non-dict values the examples use. */
  datatype Atom = Int(i: int) | IntList(items: seq<int>)

  type Value = Tree<string, Atom>

  function Num(i: int): Value { Leaf(Int(i)) }

  lemma DeepUpdateInsertsExtraKeys()
    ensures DeepUpdate(map["key" := Dict(map["inner_key" := Num(0)])], [map["other_key" := Num(1)]])
         == map["key" := Dict(map["inner_key" := Num(0)]), "other_key" := Num(1)]
  {
  }

  lemma DeepUpdateReplacesUnmergeable()
    ensures DeepUpdate(map["key" := Dict(map["inner_key" := Num(0)]), "other_key" := Num(1)],
                       [map["key" := Leaf(IntList([1, 2, 3]))]])
         == map["key" := Leaf(IntList([1, 2, 3])), "other_key" := Num(1)]
  {
  }

  lemma DeepUpdateMergesNested()
    ensures DeepUpdate(map["key" := Dict(map["inner_key" := Num(0)])], [map["key" := Dict(map["other_key" := Num(1)])]])
         == map["key" := Dict(map["inner_key" := Num(0), "other_key" := Num(1)])]
  {
    assert UpdateWith(map["inner_key" := Num(0)], map["other_key" := Num(1)])
        == map["inner_key" := Num(0), "other_key" := Num(1)];
  }

  lemma DeepUpdateMergesDeeplyNested()
    ensures DeepUpdate(map["key" := Dict(map["inner_key" := Dict(map["deep_key" := Num(0)])])],
                       [map["key" := Dict(map["inner_key" := Dict(map["other_deep_key" := Num(1)])])]])
         == map["key" := Dict(map["inner_key" := Dict(map["deep_key" := Num(0), "other_deep_key" := Num(1)])])]
  {
    InnerKeysMerged();
  }

  /** Two updating mappings are applied in turn: the first inserts a key,
      the second merges into the nested dict. */
  lemma DeepUpdateTwoMappings()
    ensures DeepUpdate(map["key" := Dict(map["inner_key" := Num(0)])],
                       [map["other_key" := Num(1)], map["key" := Dict(map["other_key" := Num(1)])]])
         == map["key" := Dict(map["inner_key" := Num(0), "other_key" := Num(1)]), "other_key" := Num(1)]
  {
    var start := map["key" := Dict(map["inner_key" := Num(0)])];
    var first, second := map["other_key" := Num(1)], map["key" := Dict(map["other_key" := Num(1)])];
    assert [first, second] == [first] + [second];
    DeepUpdateAppend(start, [first], second);
    DeepUpdateOne(start, first);
    DeepUpdateInsertsExtraKeys();
    SecondUpdateMerges();
  }

  lemma SecondUpdateMerges()
    ensures UpdateWith(map["key" := Dict(map["inner_key" := Num(0)]), "other_key" := Num(1)],
                       map["key" := Dict(map["other_key" := Num(1)])])
         == map["key" := Dict(map["inner_key" := Num(0), "other_key" := Num(1)]), "other_key" := Num(1)]
  {
    assert UpdateWith(map["inner_key" := Num(0)], map["other_key" := Num(1)])
        == map["inner_key" := Num(0), "other_key" := Num(1)];
  }

  lemma InnerKeysMerged()
    ensures UpdateWith(map["inner_key" := Dict(map["deep_key" := Num(0)])], map["inner_key" := Dict(map["other_deep_key" := Num(1)])])
         == map["inner_key" := Dict(map["deep_key" := Num(0), "other_deep_key" := Num(1)])]
  {
    assert UpdateWith(map["deep_key" := Num(0)], map["other_deep_key" := Num(1)])
        == map["deep_key" := Num(0), "other_deep_key" := Num(1)];
  }

  // ---------------------------------------------------------------------------
  // all_identical
  // ---------------------------------------------------------------------------

  /** `a`, `b` and the list `c = [b]` are distinct objects; the two lists `[b]`
      written out twice are two new objects. */
  method AllIdenticalExamples() returns (same: bool, sameWithList: bool, newLists: bool, shorter: bool)
    ensures same && sameWithList && !newLists && !shorter
  {
    var a := new PyObject();
    var b := new PyObject();
    var c := new PyObject();
    same := AllIdentical([a, b], [a, b]) && AllIdentical([a, b, b], [a, b, b]);
    sameWithList := AllIdentical([a, c, b], [a, c, b]);
    shorter := AllIdentical([], [a]) || AllIdentical([a], []);
    var first := new PyObject();
    var second := new PyObject();
    newLists := AllIdentical([a, first, b], [a, second, b]);
    assert [a, first, b][1] != [a, second, b][1];
  }
}
