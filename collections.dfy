/** Helpers over sequences and sets: hash-map walks and substrings. */
module Collections {

  /** The elements of a sequence, as a set. */
  function Elems<T>(s: seq<T>): set<T> {
    set x | x in s
  }

  /** No element occurs twice. */
  predicate Distinct<T(==)>(s: seq<T>) {
    forall i, j | 0 <= i < j < |s| :: s[i] != s[j]
  }

  /** `walk` visits every key of a hash map exactly once, in an order nobody promises:
      the model of `HashMap::iter` and `HashMap::keys`. */
  predicate IsWalk<T(==)>(walk: seq<T>, keys: set<T>) {
    Distinct(walk) && Elems(walk) == keys
  }

  /** `t` occurs in `s` starting at index `i`. */
  predicate OccursAt<T(==)>(s: seq<T>, t: seq<T>, i: int) {
    0 <= i <= |s| - |t| && s[i..i + |t|] == t
  }

  /** `t` occurs in `s` as a contiguous piece. */
  ghost predicate Contains<T>(s: seq<T>, t: seq<T>) {
    exists i :: OccursAt(s, t, i)
  }

  lemma ContainsInConcat<T>(a: seq<T>, b: seq<T>, c: seq<T>, t: seq<T>)
    requires Contains(b, t)
    ensures Contains(a + b + c, t)
  {
    var i :| OccursAt(b, t, i);
    assert (a + b + c)[|a| + i..|a| + i + |t|] == t;
    assert OccursAt(a + b + c, t, |a| + i);
  }

  lemma ContainsBefore<T>(a: seq<T>, b: seq<T>, t: seq<T>)
    requires Contains(a, t)
    ensures Contains(a + b, t)
  {
    var i :| OccursAt(a, t, i);
    assert (a + b)[i..i + |t|] == a[i..i + |t|];
    assert OccursAt(a + b, t, i);
  }

  lemma ContainsSuffix<T>(a: seq<T>, t: seq<T>)
    ensures Contains(a + t, t)
  {
    assert (a + t)[|a|..|a| + |t|] == t;
    assert OccursAt(a + t, t, |a|);
  }

  lemma ContainsItself<T>(t: seq<T>)
    ensures Contains(t, t)
  {
    assert t[0..|t|] == t;
    assert OccursAt(t, t, 0);
  }

  /** Extending a walk with an element it has not visited yet. */
  lemma WalkSnoc<T>(walk: seq<T>, x: T)
    requires Distinct(walk) && x !in Elems(walk)
    ensures Distinct(walk + [x])
    ensures Elems(walk + [x]) == Elems(walk) + {x}
  {
  }

  /** The invariant of a loop that walks a key set: `walk` holds the keys visited so
      far, `remaining` the others. */
  ghost predicate WalkSplit<T>(walk: seq<T>, remaining: set<T>, keys: set<T>) {
    Distinct(walk) && Elems(walk) !! remaining && Elems(walk) + remaining == keys
  }

  /** Visiting one more key keeps the split and shrinks what remains; once nothing
      remains the walk covers the keys. */
  lemma WalkStep<T>(walk: seq<T>, remaining: set<T>, keys: set<T>, x: T)
    requires WalkSplit(walk, remaining, keys) && x in remaining
    ensures WalkSplit(walk + [x], remaining - {x}, keys)
    ensures |remaining - {x}| < |remaining|
  {
    WalkSnoc(walk, x);
  }

  lemma WalkDone<T>(walk: seq<T>, keys: set<T>)
    requires WalkSplit(walk, {}, keys)
    ensures IsWalk(walk, keys)
  {
  }

  lemma WalkStart<T>(keys: set<T>)
    ensures WalkSplit([], keys, keys)
  {
  }

  /** A walk without repetitions is as long as the set it covers. */
  lemma {:induction false} DistinctCardinality<T>(s: seq<T>)
    requires Distinct(s)
    ensures |Elems(s)| == |s|
  {
    if |s| > 0 {
      var init := s[..|s| - 1];
      assert Distinct(init);
      DistinctCardinality(init);
      assert Elems(s) == Elems(init) + {s[|s| - 1]};
      assert s[|s| - 1] !in Elems(init);
    }
  }
}
