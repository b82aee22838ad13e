/** Three helpers of pydantic's internal utilities: order-preserving
    de-duplication (`unique_list`), recursive dictionary update
    (`deep_update`) and element-wise identity of two sequences
    (`all_identical`). */
module Utils {

  // ---------------------------------------------------------------------------
  // unique_list
  // ---------------------------------------------------------------------------

  /** The names that `name` gives to the elements of `xs`, in order. */
  function Names<T, N(==)>(xs: seq<T>, name: T -> N): (r: seq<N>)
    ensures |r| == |xs|
    ensures forall i | 0 <= i < |xs| :: r[i] == name(xs[i])
  {
    if xs == [] then [] else Names(xs[..|xs| - 1], name) + [name(xs[|xs| - 1])]
  }

  /** The position of the first `x` in `xs`, as Python's `list.index`. */
  function IndexOf<N(==)>(xs: seq<N>, x: N): (i: nat)
    requires x in xs
    ensures i < |xs| && xs[i] == x && x !in xs[..i]
  {
    if xs[0] == x then 0
    else
      var j := IndexOf(xs[1..], x);
      assert xs[..j + 1] == [xs[0]] + xs[1..][..j];
      j + 1
  }

  /** `unique_list(xs, name_factory=name)`: one element per name. A name keeps
      the position where it first appeared; its slot holds the element that
      carried it last (an element whose name is already present overwrites the
      earlier one in place). */
  function UniqueList<T, N(==)>(xs: seq<T>, name: T -> N): seq<T>
    decreases |xs|
  {
    if xs == [] then []
    else
      var r := UniqueList(xs[..|xs| - 1], name);
      var v := xs[|xs| - 1];
      var names := Names(r, name);
      if name(v) in names then r[IndexOf(names, name(v)) := v] else r + [v]
  }

  /** The set of elements of `s`. */
  function Elements<N(==)>(s: seq<N>): set<N>
  {
    set x | x in s
  }

  /** No element occurs twice in `s`. */
  predicate NoDuplicates<N(==)>(s: seq<N>)
  {
    forall i, j | 0 <= i < j < |s| :: s[i] != s[j]
  }

  /** Reference: the distinct elements of `s`, in order of first appearance. */
  function Distinct<N(==)>(s: seq<N>): seq<N>
  {
    DistinctAfter(s, {})
  }

  /** The elements of `s` that are not in `seen` and not earlier in `s`. */
  function DistinctAfter<N(==)>(s: seq<N>, seen: set<N>): seq<N>
    decreases |s|
  {
    if s == [] then []
    else if s[0] in seen then DistinctAfter(s[1..], seen)
    else [s[0]] + DistinctAfter(s[1..], seen + {s[0]})
  }

  lemma {:induction false} DistinctAfterFacts<N>(s: seq<N>, seen: set<N>)
    ensures NoDuplicates(DistinctAfter(s, seen))
    ensures Elements(DistinctAfter(s, seen)) == Elements(s) - seen
    decreases |s|
  {
    if s != [] {
      var rest := if s[0] in seen then seen else seen + {s[0]};
      DistinctAfterFacts(s[1..], rest);
      assert Elements(s) == {s[0]} + Elements(s[1..]) by {
        assert s == [s[0]] + s[1..];
      }
      if s[0] !in seen {
        var d := DistinctAfter(s[1..], rest);
        assert s[0] !in Elements(d);
        assert Elements([s[0]] + d) == {s[0]} + Elements(d);
      }
    }
  }

  /** The result of `Distinct` has no duplicates and the same elements. */
  lemma DistinctFacts<N>(s: seq<N>)
    ensures NoDuplicates(Distinct(s)) && Elements(Distinct(s)) == Elements(s)
  {
    DistinctAfterFacts(s, {});
  }

  /** Appending one element to the input appends it to the output exactly when
      it is new. */
  lemma {:induction false} DistinctAfterAppend<N>(s: seq<N>, seen: set<N>, v: N)
    ensures DistinctAfter(s + [v], seen)
         == if v in seen || v in s then DistinctAfter(s, seen) else DistinctAfter(s, seen) + [v]
    decreases |s|
  {
    if s == [] {
      assert [v][1..] == [];
    } else {
      assert (s + [v])[1..] == s[1..] + [v];
      var rest := if s[0] in seen then seen else seen + {s[0]};
      DistinctAfterAppend(s[1..], rest, v);
      assert v in s <==> v == s[0] || v in s[1..] by {
        assert s == [s[0]] + s[1..];
      }
    }
  }

  lemma DistinctAppend<N>(s: seq<N>, v: N)
    ensures Distinct(s + [v]) == if v in s then Distinct(s) else Distinct(s) + [v]
  {
    DistinctAfterAppend(s, {}, v);
  }

  /** `DistinctAfter` distributes over concatenation. */
  lemma {:induction false} DistinctAfterConcat<N>(a: seq<N>, b: seq<N>, seen: set<N>)
    ensures DistinctAfter(a + b, seen) == DistinctAfter(a, seen) + DistinctAfter(b, seen + Elements(a))
    decreases |a|
  {
    if a == [] {
      assert a + b == b;
      assert seen + Elements(a) == seen;
    } else {
      assert (a + b)[0] == a[0];
      assert (a + b)[1..] == a[1..] + b;
      var rest := if a[0] in seen then seen else seen + {a[0]};
      DistinctAfterConcat(a[1..], b, rest);
      assert rest + Elements(a[1..]) == seen + Elements(a) by {
        assert a == [a[0]] + a[1..];
      }
      var x, y := DistinctAfter(a[1..], rest), DistinctAfter(b, rest + Elements(a[1..]));
      if a[0] !in seen {
        assert [a[0]] + (x + y) == ([a[0]] + x) + y;
      }
    }
  }

  /** A block made of one new element followed by elements already met
      contributes just that element. */
  lemma {:induction false} DistinctAfterBlock<N>(x: N, earlier: seq<N>, seen: set<N>)
    requires x !in seen && Elements(earlier) <= seen + {x}
    ensures DistinctAfter([x] + earlier, seen) == [x]
  {
    assert ([x] + earlier)[1..] == earlier;
    DistinctAfterSeen(earlier, seen + {x});
  }

  lemma {:induction false} DistinctAfterSeen<N>(s: seq<N>, seen: set<N>)
    requires Elements(s) <= seen
    ensures DistinctAfter(s, seen) == []
    decreases |s|
  {
    if s != [] {
      assert s[0] in Elements(s);
      assert Elements(s[1..]) <= Elements(s);
      DistinctAfterSeen(s[1..], seen);
    }
  }

  /** Overwriting an element with one of the same name leaves the names alone. */
  lemma NamesUpdate<T, N>(r: seq<T>, name: T -> N, i: nat, v: T)
    requires i < |r| && name(r[i]) == name(v)
    ensures Names(r[i := v], name) == Names(r, name)
  {
  }

  lemma NamesAppend<T, N>(r: seq<T>, name: T -> N, v: T)
    ensures Names(r + [v], name) == Names(r, name) + [name(v)]
  {
  }

  /** The names of the result are the distinct names of the input, in order of
      first appearance. */
  lemma {:induction false} UniqueListNames<T, N>(xs: seq<T>, name: T -> N)
    ensures Names(UniqueList(xs, name), name) == Distinct(Names(xs, name))
    decreases |xs|
  {
    if xs != [] {
      var p := xs[..|xs| - 1];
      var v := xs[|xs| - 1];
      var r := UniqueList(p, name);
      UniqueListNames(p, name);
      assert Names(xs, name) == Names(p, name) + [name(v)];
      DistinctAppend(Names(p, name), name(v));
      DistinctFacts(Names(p, name));
      assert name(v) in Names(r, name) <==> name(v) in Names(p, name) by {
        assert name(v) in Names(r, name) <==> name(v) in Elements(Names(r, name));
        assert name(v) in Names(p, name) <==> name(v) in Elements(Names(p, name));
      }
      if name(v) in Names(r, name) {
        NamesUpdate(r, name, IndexOf(Names(r, name), name(v)), v);
      } else {
        NamesAppend(r, name, v);
      }
    }
  }

  /** The element that last carries name `n` in `xs`. */
  function LastNamed<T, N(==)>(xs: seq<T>, name: T -> N, n: N): T
    requires n in Names(xs, name)
    decreases |xs|
  {
    var v := xs[|xs| - 1];
    if name(v) == n then v
    else
      assert Names(xs, name) == Names(xs[..|xs| - 1], name) + [name(v)];
      LastNamed(xs[..|xs| - 1], name, n)
  }

  /** Every slot of the result holds the element that last carried its name. */
  lemma {:induction false} UniqueListKeepsLast<T, N>(xs: seq<T>, name: T -> N)
    ensures forall i | 0 <= i < |UniqueList(xs, name)| ::
      name(UniqueList(xs, name)[i]) in Names(xs, name) &&
      UniqueList(xs, name)[i] == LastNamed(xs, name, name(UniqueList(xs, name)[i]))
    decreases |xs|
  {
    if xs != [] {
      var p := xs[..|xs| - 1];
      var v := xs[|xs| - 1];
      var r := UniqueList(p, name);
      UniqueListKeepsLast(p, name);
      assert Names(xs, name) == Names(p, name) + [name(v)];
      var u := UniqueList(xs, name);
      forall i | 0 <= i < |u|
        ensures name(u[i]) in Names(xs, name) && u[i] == LastNamed(xs, name, name(u[i]))
      {
        if u[i] != v {
          assert i < |r| && u[i] == r[i];
          assert name(r[i]) != name(v) by {
            if name(v) in Names(r, name) {
              var j := IndexOf(Names(r, name), name(v));
              UniqueListNames(p, name);
              DistinctFacts(Names(p, name));
              assert i != j;
            }
          }
        }
      }
    }
  }

  /** When no two elements share a name there is nothing to remove. */
  lemma {:induction false} UniqueListOfDistinctNames<T, N>(xs: seq<T>, name: T -> N)
    requires NoDuplicates(Names(xs, name))
    ensures UniqueList(xs, name) == xs
    decreases |xs|
  {
    if xs != [] {
      var p := xs[..|xs| - 1];
      var v := xs[|xs| - 1];
      assert Names(xs, name) == Names(p, name) + [name(v)];
      NoDuplicatesLast(Names(p, name), name(v));
      UniqueListOfDistinctNames(p, name);
    }
  }

  lemma NoDuplicatesLast<N>(s: seq<N>, x: N)
    requires NoDuplicates(s + [x])
    ensures NoDuplicates(s) && x !in s
  {
    assert forall i | 0 <= i < |s| :: s[i] == (s + [x])[i];
    assert (s + [x])[|s|] == x;
  }

  /** `unique_list(unique_list(xs)) == unique_list(xs)`, for any naming. */
  lemma UniqueListIdempotent<T, N>(xs: seq<T>, name: T -> N)
    ensures UniqueList(UniqueList(xs, name), name) == UniqueList(xs, name)
  {
    UniqueListNames(xs, name);
    DistinctFacts(Names(xs, name));
    UniqueListOfDistinctNames(UniqueList(xs, name), name);
  }

  /** Where an element is its own name, `unique_list` keeps the first
      occurrence of every element, in order. */
  lemma UniqueListByValue<N>(xs: seq<N>, name: N -> N)
    requires forall x :: name(x) == x
    ensures UniqueList(xs, name) == Distinct(xs)
  {
    UniqueListNames(xs, name);
    var r := UniqueList(xs, name);
    assert Names(r, name) == r;
    assert Names(xs, name) == xs;
  }

  // ---------------------------------------------------------------------------
  // deep_update
  // ---------------------------------------------------------------------------

  /** A Python value as `deep_update` sees it: a dict, or anything else. */
  datatype Tree<K, A> = Dict(items: map<K, Tree<K, A>>) | Leaf(value: A)

  /** One updating mapping applied to a copy of `mapping`: a key present in
      both with a dict on each side is updated recursively; otherwise the
      update's value replaces or inserts. */
  function UpdateWith<K, A>(mapping: map<K, Tree<K, A>>, update: map<K, Tree<K, A>>): (r: map<K, Tree<K, A>>)
    ensures r.Keys == mapping.Keys + update.Keys
    decreases Tree<K, A>.Dict(update)
  {
    map k | k in mapping.Keys + update.Keys ::
      if k !in update then mapping[k]
      else if k in mapping && mapping[k].Dict? && update[k].Dict? then Dict(UpdateWith(mapping[k].items, update[k].items))
      else update[k]
  }

  /** The keys of all the updating mappings together. */
  function UpdatedKeys<K, A>(updates: seq<map<K, Tree<K, A>>>): set<K>
  {
    if updates == [] then {} else updates[0].Keys + UpdatedKeys(updates[1..])
  }

  /** `deep_update(mapping, *updating_mappings)`: the updating mappings are
      applied one after the other, and the result has the keys of the
      mapping and of every update. */
  function DeepUpdate<K, A>(mapping: map<K, Tree<K, A>>, updates: seq<map<K, Tree<K, A>>>): (r: map<K, Tree<K, A>>)
    ensures r.Keys == mapping.Keys + UpdatedKeys(updates)
    decreases |updates|
  {
    if updates == [] then mapping else DeepUpdate(UpdateWith(mapping, updates[0]), updates[1..])
  }

  /** A key is among the updated keys exactly when some updating mapping has it. */
  lemma {:induction false} UpdatedKeysOf<K, A>(updates: seq<map<K, Tree<K, A>>>, k: K)
    ensures k in UpdatedKeys(updates) <==> exists i :: 0 <= i < |updates| && k in updates[i]
    decreases |updates|
  {
    if updates != [] {
      var rest := updates[1..];
      UpdatedKeysOf(rest, k);
      if k in UpdatedKeys(rest) {
        var j :| 0 <= j < |rest| && k in rest[j];
        assert k in updates[j + 1];
      }
      if exists i :: 0 <= i < |updates| && k in updates[i] {
        var i :| 0 <= i < |updates| && k in updates[i];
        if i > 0 {
          assert k in rest[i - 1];
        }
      }
    }
  }

  /** With a single updating mapping, `deep_update` is one update step. */
  lemma DeepUpdateOne<K, A>(mapping: map<K, Tree<K, A>>, update: map<K, Tree<K, A>>)
    ensures DeepUpdate(mapping, [update]) == UpdateWith(mapping, update)
  {
    assert [update][1..] == [];
  }

  /** One more updating mapping is one more update step on the result so far. */
  lemma {:induction false} DeepUpdateAppend<K, A>(mapping: map<K, Tree<K, A>>, updates: seq<map<K, Tree<K, A>>>, update: map<K, Tree<K, A>>)
    ensures DeepUpdate(mapping, updates + [update]) == UpdateWith(DeepUpdate(mapping, updates), update)
    decreases |updates|
  {
    if updates == [] {
      assert updates + [update] == [update];
      DeepUpdateOne(mapping, update);
    } else {
      assert (updates + [update])[0] == updates[0];
      assert (updates + [update])[1..] == updates[1..] + [update];
      DeepUpdateAppend(UpdateWith(mapping, updates[0]), updates[1..], update);
    }
  }

  /** The result holds all of the last updating mapping. */
  lemma DeepUpdateHoldsLast<K, A>(mapping: map<K, Tree<K, A>>, updates: seq<map<K, Tree<K, A>>>, update: map<K, Tree<K, A>>)
    ensures Holds(DeepUpdate(mapping, updates + [update]), update)
  {
    DeepUpdateAppend(mapping, updates, update);
    UpdateWithHoldsUpdate(DeepUpdate(mapping, updates), update);
  }

  /** Whether every value of `update` can be found in `m`: leaves and
      non-mergeable values as they are, dicts met by dicts recursively. */
  predicate Holds<K, A(==)>(m: map<K, Tree<K, A>>, update: map<K, Tree<K, A>>)
    decreases Tree<K, A>.Dict(update)
  {
    forall k | k in update ::
      k in m &&
      if m[k].Dict? && update[k].Dict? then Holds(m[k].items, update[k].items) else m[k] == update[k]
  }

  /** After an update the result holds all of it; what the update does not
      mention is kept as it was. */
  lemma {:induction false} UpdateWithHoldsUpdate<K, A>(mapping: map<K, Tree<K, A>>, update: map<K, Tree<K, A>>)
    ensures Holds(UpdateWith(mapping, update), update)
    ensures forall k | k in mapping && k !in update :: UpdateWith(mapping, update)[k] == mapping[k]
    decreases Tree<K, A>.Dict(update)
  {
    var r := UpdateWith(mapping, update);
    forall k | k in update
      ensures k in r && if r[k].Dict? && update[k].Dict? then Holds(r[k].items, update[k].items) else r[k] == update[k]
    {
      if k in mapping && mapping[k].Dict? && update[k].Dict? {
        UpdateWithHoldsUpdate(mapping[k].items, update[k].items);
      } else if update[k].Dict? {
        HoldsItself(update[k].items);
      }
    }
  }

  lemma {:induction false} HoldsItself<K, A>(m: map<K, Tree<K, A>>)
    ensures Holds(m, m)
    decreases Tree<K, A>.Dict(m)
  {
    forall k | k in m && m[k].Dict?
      ensures Holds(m[k].items, m[k].items)
    {
      HoldsItself(m[k].items);
    }
  }

  /** Applying the same update twice is applying it once. */
  lemma {:induction false} UpdateWithIdempotent<K, A>(mapping: map<K, Tree<K, A>>, update: map<K, Tree<K, A>>)
    ensures UpdateWith(UpdateWith(mapping, update), update) == UpdateWith(mapping, update)
    decreases Tree<K, A>.Dict(update)
  {
    var r := UpdateWith(mapping, update);
    var rr := UpdateWith(r, update);
    forall k | k in rr.Keys
      ensures rr[k] == r[k]
    {
      if k in update && r[k].Dict? && update[k].Dict? {
        if k in mapping && mapping[k].Dict? {
          UpdateWithIdempotent(mapping[k].items, update[k].items);
        } else {
          UpdateWithItself(update[k].items);
        }
      }
    }
  }

  /** Updating a mapping with itself changes nothing. */
  lemma {:induction false} UpdateWithItself<K, A>(m: map<K, Tree<K, A>>)
    ensures UpdateWith(m, m) == m
    decreases Tree<K, A>.Dict(m)
  {
    forall k | k in m && m[k].Dict?
      ensures UpdateWith(m, m)[k] == m[k]
    {
      UpdateWithItself(m[k].items);
    }
  }

  /** An empty update leaves the mapping as it is; an update of an empty
      mapping is the update itself. */
  lemma UpdateWithEmpty<K, A>(m: map<K, Tree<K, A>>)
    ensures UpdateWith(m, map[]) == m
    ensures UpdateWith(map[], m) == m
  {
  }

  // ---------------------------------------------------------------------------
  // all_identical
  // ---------------------------------------------------------------------------

  /** A Python object, compared by identity (`is`). */
  class PyObject {
    constructor ()
    {
    }
  }

  /** `all_identical(left, right)`: the two sequences are walked together, the
      shorter one padded with a sentinel no element is identical to. */
  function AllIdentical(left: seq<PyObject>, right: seq<PyObject>): (r: bool)
    ensures r <==> left == right
  {
    if left == [] || right == [] then left == [] && right == []
    else left[0] == right[0] && AllIdentical(left[1..], right[1..])
  }
}
