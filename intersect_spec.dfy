/**
 The intersection of set_intersect.c at the level of values: a set is its
 map from keys to ints. `Visit` is what one call of set_intersect_helper
 does to the destination, `Pass` is one set_iterate over a set whose keys
 come in the given order, and `Intersection` is the reference definition
 the two passes are proved to compute.
 */
module IntersectSpec {

  /** set_insert on values: the first value stored under a key stays. */
  function InsertIfAbsent(m: map<string, int>, key: string, v: int): map<string, int>
  {
    if key in m then m else m[key := v]
  }

  /** One call of set_intersect_helper on `key`: when both `a` and `b`
      hold the key, `b`'s value is inserted into `dest`. */
  function Visit(dest: map<string, int>, key: string, a: map<string, int>, b: map<string, int>): map<string, int>
  {
    if key in a && key in b then InsertIfAbsent(dest, key, b[key]) else dest
  }

  /** One set_iterate(s, data, set_intersect_helper), the keys of `s`
      being visited in `order`. */
  function Pass(dest: map<string, int>, order: seq<string>, a: map<string, int>, b: map<string, int>): map<string, int>
    decreases |order|
  {
    if order == [] then dest
    else Visit(Pass(dest, order[..|order| - 1], a, b), order[|order| - 1], a, b)
  }

  /** The keys common to `a` and `b`, each with its value in `b`. */
  function Intersection(a: map<string, int>, b: map<string, int>): map<string, int>
  {
    map k | k in a && k in b :: b[k]
  }

  /** The entries of `m` whose keys are in `keys`. */
  function Restrict(m: map<string, int>, keys: set<string>): map<string, int>
  {
    map k | k in m && k in keys :: m[k]
  }

  /** Every entry of `m` is an entry of `n`. */
  ghost predicate IsSubmap(m: map<string, int>, n: map<string, int>)
  {
    forall k :: k in m ==> k in n && m[k] == n[k]
  }

  /** Visiting one more key extends the part of the intersection held by
      the destination by that key, when it is common. */
  lemma RestrictStep(a: map<string, int>, b: map<string, int>, keys: set<string>, key: string)
    ensures Visit(Restrict(Intersection(a, b), keys), key, a, b) == Restrict(Intersection(a, b), keys + {key})
  {
    var c := Intersection(a, b);
    var before := Restrict(c, keys);
    if key in a && key in b && key !in before {
      assert before[key := b[key]] == Restrict(c, keys + {key});
    } else {
      assert before == Restrict(c, keys + {key});
    }
  }

  /** Starting from a part of the intersection, a pass over any order adds
      exactly the common keys it visits, each with its value in `b`. */
  lemma {:induction false} PassShape(dest: map<string, int>, order: seq<string>, a: map<string, int>, b: map<string, int>)
    requires IsSubmap(dest, Intersection(a, b))
    ensures Pass(dest, order, a, b) == Restrict(Intersection(a, b), dest.Keys + set k | k in order)
    decreases |order|
  {
    var c := Intersection(a, b);
    if order == [] {
      assert Restrict(c, dest.Keys + set k | k in order) == dest;
    } else {
      var n := |order| - 1;
      var init, key := order[..n], order[n];
      assert order == init + [key];
      assert dest.Keys + (set k | k in order) == (dest.Keys + set k | k in init) + {key};
      PassShape(dest, init, a, b);
      RestrictStep(a, b, dest.Keys + (set k | k in init), key);
    }
  }

  /** Whatever the destination, a pass adds exactly the visited keys
      that both inputs hold. */
  lemma {:induction false} PassKeys(dest: map<string, int>, order: seq<string>, a: map<string, int>, b: map<string, int>)
    ensures Pass(dest, order, a, b).Keys == dest.Keys + set k | k in order && k in a && k in b
    decreases |order|
  {
    if order != [] {
      var n := |order| - 1;
      assert order == order[..n] + [order[n]];
      PassKeys(dest, order[..n], a, b);
    }
  }

  /** The pass over the first argument already yields the intersection. */
  lemma FirstPassIsIntersection(a: map<string, int>, b: map<string, int>, orderA: seq<string>)
    requires forall k :: k in orderA <==> k in a
    ensures Pass(map[], orderA, a, b) == Intersection(a, b)
  {
    PassShape(map[], orderA, a, b);
    assert Restrict(Intersection(a, b), set k | k in orderA) == Intersection(a, b);
  }

  /** Once the destination is the intersection, a pass over any order
      (in particular over the second argument) changes nothing: every
      common key it visits is already present. */
  lemma SecondPassIsNoop(a: map<string, int>, b: map<string, int>, order: seq<string>)
    ensures Pass(Intersection(a, b), order, a, b) == Intersection(a, b)
  {
    var c := Intersection(a, b);
    PassShape(c, order, a, b);
    assert Restrict(c, c.Keys + set k | k in order) == c;
  }

  /** The two passes of set_intersect: over the keys of `a`, then over any
      order of keys, starting from an empty destination. */
  lemma TwoPassesAreIntersection(a: map<string, int>, b: map<string, int>, orderA: seq<string>, orderB: seq<string>)
    requires forall k :: k in orderA <==> k in a
    ensures Pass(Pass(map[], orderA, a, b), orderB, a, b) == Intersection(a, b)
  {
    FirstPassIsIntersection(a, b, orderA);
    SecondPassIsNoop(a, b, orderB);
  }

  /** The result of the two passes does not depend on either iteration order. */
  lemma OrderIndependent(a: map<string, int>, b: map<string, int>,
                         orderA: seq<string>, orderA': seq<string>, orderB: seq<string>, orderB': seq<string>)
    requires forall k :: k in orderA <==> k in a
    requires forall k :: k in orderA' <==> k in a
    ensures Pass(Pass(map[], orderA, a, b), orderB, a, b) == Pass(Pass(map[], orderA', a, b), orderB', a, b)
  {
    TwoPassesAreIntersection(a, b, orderA, orderB);
    TwoPassesAreIntersection(a, b, orderA', orderB');
  }

  /** If either input is empty, the two passes leave the destination empty. */
  lemma EmptyInputGivesEmpty(a: map<string, int>, b: map<string, int>, orderA: seq<string>, orderB: seq<string>)
    requires forall k :: k in orderA <==> k in a
    requires a == map[] || b == map[]
    ensures Pass(Pass(map[], orderA, a, b), orderB, a, b) == map[]
  {
    TwoPassesAreIntersection(a, b, orderA, orderB);
    assert Intersection(a, b) == map[];
  }

  /** The keys of the result are exactly the common keys, and each carries
      the value of the second argument. */
  lemma IntersectionMeaning(a: map<string, int>, b: map<string, int>, orderA: seq<string>, orderB: seq<string>, k: string)
    requires forall k :: k in orderA <==> k in a
    ensures var r := Pass(Pass(map[], orderA, a, b), orderB, a, b);
            (k in r <==> k in a && k in b) && (k in r ==> r[k] == b[k])
  {
    TwoPassesAreIntersection(a, b, orderA, orderB);
  }

  /** Extending the visited prefix of an order by one key is one more visit. */
  lemma PassStep(dest: map<string, int>, order: seq<string>, i: nat, a: map<string, int>, b: map<string, int>)
    requires i < |order|
    ensures Pass(dest, order[..i + 1], a, b) == Visit(Pass(dest, order[..i], a, b), order[i], a, b)
  {
    assert order[..i + 1][..i] == order[..i];
  }

  /** How many copies the helper as written leaks over a pass: one for each
      visited key that both inputs hold and that the destination already
      holds when the key is visited (set_insert rejects the copy and nobody
      frees it). */
  function Leaks(dest: map<string, int>, order: seq<string>, a: map<string, int>, b: map<string, int>): nat
    decreases |order|
  {
    if order == [] then 0
    else
      var init, key := order[..|order| - 1], order[|order| - 1];
      Leaks(dest, init, a, b) + (if key in a && key in b && key in Pass(dest, init, a, b) then 1 else 0)
  }

  /** Extending the visited prefix of an order by one key adds that
      visit's leak. */
  lemma LeaksStep(dest: map<string, int>, order: seq<string>, i: nat, a: map<string, int>, b: map<string, int>)
    requires i < |order|
    ensures Leaks(dest, order[..i + 1], a, b)
         == Leaks(dest, order[..i], a, b) + (if order[i] in a && order[i] in b && order[i] in Pass(dest, order[..i], a, b) then 1 else 0)
  {
    assert order[..i + 1][..i] == order[..i];
  }

  /** Over an order that visits each key once, the leaks are the common
      keys the destination held before the pass. */
  lemma {:induction false} LeaksCount(dest: map<string, int>, order: seq<string>, a: map<string, int>, b: map<string, int>)
    requires forall p, q :: 0 <= p < q < |order| ==> order[p] != order[q]
    ensures Leaks(dest, order, a, b) == |set k | k in order && k in a && k in b && k in dest|
    decreases |order|
  {
    if order != [] {
      var n := |order| - 1;
      var init, key := order[..n], order[n];
      assert order == init + [key];
      LeaksCount(dest, init, a, b);
      PassKeys(dest, init, a, b);
      assert key !in init;
      var before := set k | k in init && k in a && k in b && k in dest;
      if key in a && key in b && key in dest {
        assert (set k | k in order && k in a && k in b && k in dest) == before + {key};
      } else {
        assert (set k | k in order && k in a && k in b && k in dest) == before;
      }
    }
  }

  /** The first pass of set_intersect starts from an empty destination and
      leaks nothing. */
  lemma FirstPassLeaksNothing(a: map<string, int>, b: map<string, int>, orderA: seq<string>)
    requires forall p, q :: 0 <= p < q < |orderA| ==> orderA[p] != orderA[q]
    ensures Leaks(map[], orderA, a, b) == 0
  {
    var empty: map<string, int> := map[];
    LeaksCount(empty, orderA, a, b);
    assert (set k | k in orderA && k in a && k in b && k in empty) == {};
  }

  /** The second pass of set_intersect, over the keys of `b` once each,
      finds every common key already in the destination and leaks one copy
      for each. */
  lemma SecondPassLeaksAll(a: map<string, int>, b: map<string, int>, orderB: seq<string>)
    requires forall k :: k in orderB <==> k in b
    requires forall p, q :: 0 <= p < q < |orderB| ==> orderB[p] != orderB[q]
    ensures Leaks(Intersection(a, b), orderB, a, b) == |Intersection(a, b)|
  {
    var c := Intersection(a, b);
    LeaksCount(c, orderB, a, b);
    assert (set k | k in orderB && k in a && k in b && k in c) == c.Keys;
  }
}
