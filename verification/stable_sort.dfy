/** Python's `sorted(xs, key=key)` on a real-valued key: a stable sort,
    modelled as insertion sort. Stability is stated twice: per key value (the
    items with one key keep their order) and per pair (two sorted items with
    equal keys stood in the same order before). */
module StableSort {

  predicate SortedBy<T>(s: seq<T>, key: T -> real) {
    forall a, b :: 0 <= a < b < |s| ==> key(s[a]) <= key(s[b])
  }

  /** The items whose key is exactly `v`, in their order in `s`. */
  function WithKey<T>(s: seq<T>, key: T -> real, v: real): seq<T>
  {
    if |s| == 0 then []
    else (if key(s[0]) == v then [s[0]] else []) + WithKey(s[1..], key, v)
  }

  /** Places `x` before the first item of `t` whose key is not smaller, so
      `x` precedes every item with an equal key. */
  function Insert<T>(x: T, t: seq<T>, key: T -> real): (r: seq<T>)
    ensures |r| == |t| + 1
    ensures multiset(r) == multiset(t) + multiset{x}
  {
    if |t| == 0 then [x]
    else if key(x) <= key(t[0]) then [x] + t
    else
      assert t == [t[0]] + t[1..];
      [t[0]] + Insert(x, t[1..], key)
  }

  lemma InsertMembers<T>(x: T, t: seq<T>, key: T -> real, y: T)
    ensures y in Insert(x, t, key) <==> y == x || y in t
  {
    assert y in Insert(x, t, key) <==> y in multiset(Insert(x, t, key));
    assert y in t <==> y in multiset(t);
  }

  lemma {:induction false} InsertSorted<T>(x: T, t: seq<T>, key: T -> real)
    requires SortedBy(t, key)
    ensures SortedBy(Insert(x, t, key), key)
    decreases |t|
  {
    if |t| > 0 && key(x) > key(t[0]) {
      InsertSorted(x, t[1..], key);
      var rest := Insert(x, t[1..], key);
      forall j | 0 <= j < |rest| ensures key(t[0]) <= key(rest[j]) {
        assert rest[j] in rest;
        InsertMembers(x, t[1..], key, rest[j]);
      }
    }
  }

  /** One step of `WithKey`: the head, if its key is `v`, in front of the
      matching items of the rest. */
  lemma {:induction false} WithKeyStep<T>(s: seq<T>, key: T -> real, v: real)
    requires |s| > 0
    ensures WithKey(s, key, v) == (if key(s[0]) == v then [s[0]] else []) + WithKey(s[1..], key, v)
  {
  }

  lemma {:induction false} WithKeyKeep<T>(s: seq<T>, key: T -> real, v: real)
    requires |s| > 0 && key(s[0]) == v
    ensures |WithKey(s, key, v)| == |WithKey(s[1..], key, v)| + 1
    ensures WithKey(s, key, v)[0] == s[0]
    ensures WithKey(s, key, v)[1..] == WithKey(s[1..], key, v)
  {
    WithKeyStep(s, key, v);
  }

  lemma {:induction false} WithKeySkip<T>(s: seq<T>, key: T -> real, v: real)
    requires |s| > 0 && key(s[0]) != v
    ensures WithKey(s, key, v) == WithKey(s[1..], key, v)
  {
    WithKeyStep(s, key, v);
  }

  /** Inserting puts `x` first among its equals: the items it passes have
      smaller keys, so they are not among them. */
  lemma {:induction false} InsertStable<T>(x: T, t: seq<T>, key: T -> real, v: real)
    ensures WithKey(Insert(x, t, key), key, v) == (if key(x) == v then [x] else []) + WithKey(t, key, v)
    decreases |t|
  {
    if |t| == 0 || key(x) <= key(t[0]) {
      InsertStableFront(x, t, key, v);
    } else {
      InsertStable(x, t[1..], key, v);
      InsertStablePass(x, t, key, v);
    }
  }

  lemma {:induction false} InsertStableFront<T>(x: T, t: seq<T>, key: T -> real, v: real)
    requires |t| == 0 || key(x) <= key(t[0])
    ensures WithKey(Insert(x, t, key), key, v) == (if key(x) == v then [x] else []) + WithKey(t, key, v)
  {
    var r := Insert(x, t, key);
    assert r == [x] + t && r[0] == x && r[1..] == t;
    WithKeyStep(r, key, v);
  }

  lemma {:induction false} InsertStablePass<T>(x: T, t: seq<T>, key: T -> real, v: real)
    requires |t| > 0 && key(x) > key(t[0])
    requires WithKey(Insert(x, t[1..], key), key, v) == (if key(x) == v then [x] else []) + WithKey(t[1..], key, v)
    ensures WithKey(Insert(x, t, key), key, v) == (if key(x) == v then [x] else []) + WithKey(t, key, v)
  {
    var r, r' := Insert(x, t, key), Insert(x, t[1..], key);
    assert r == [t[0]] + r' && r[0] == t[0] && r[1..] == r';
    var w, wt := WithKey(r', key, v), WithKey(t[1..], key, v);
    if key(x) == v {
      WithKeySkip(r, key, v);
      WithKeySkip(t, key, v);
      assert WithKey(r, key, v) == w == [x] + wt;
    } else {
      assert w == wt;
      WithKeyStep(r, key, v);
      WithKeyStep(t, key, v);
    }
  }

  /** `sorted(s, key=key)`: ascending by key, and a rearrangement of `s`. */
  function Sort<T>(s: seq<T>, key: T -> real): (r: seq<T>)
    ensures |r| == |s|
    ensures multiset(r) == multiset(s)
    ensures SortedBy(r, key)
  {
    if |s| == 0 then []
    else
      var t := Sort(s[1..], key);
      assert s == [s[0]] + s[1..];
      InsertSorted(s[0], t, key);
      Insert(s[0], t, key)
  }

  lemma SortMembers<T>(s: seq<T>, key: T -> real, y: T)
    ensures y in Sort(s, key) <==> y in s
  {
    assert y in Sort(s, key) <==> y in multiset(Sort(s, key));
    assert y in s <==> y in multiset(s);
  }

  /** The sort is stable: for every key value, the items with that key keep
      their relative order. Together with sortedness this pins the output
      down completely. */
  lemma {:induction false} SortIsStable<T>(s: seq<T>, key: T -> real, v: real)
    ensures WithKey(Sort(s, key), key, v) == WithKey(s, key, v)
    decreases |s|
  {
    if |s| > 0 {
      SortIsStable(s[1..], key, v);
      InsertStable(s[0], Sort(s[1..], key), key, v);
      WithKeyStep(s, key, v);
    }
  }

  /** Two items with key `v`, in order in `s`, stand in the same order among
      the items with key `v`, at positions `i < j`. */
  lemma {:induction false} TiesInFiltered<T>(s: seq<T>, key: T -> real, v: real, a: nat, b: nat)
    returns (i: nat, j: nat)
    requires a < b < |s| && key(s[a]) == v && key(s[b]) == v
    ensures i < j < |WithKey(s, key, v)|
    ensures WithKey(s, key, v)[i] == s[a] && WithKey(s, key, v)[j] == s[b]
    decreases |s|
  {
    var w, t := WithKey(s, key, v), s[1..];
    if a == 0 {
      WithKeyKeep(s, key, v);
      var j' := MemberInFiltered(t, key, v, b - 1);
      assert w[j' + 1] == w[1..][j'];
      i, j := 0, j' + 1;
    } else if key(s[0]) == v {
      WithKeyKeep(s, key, v);
      var i', j' := TiesInFiltered(t, key, v, a - 1, b - 1);
      assert w[i' + 1] == w[1..][i'] && w[j' + 1] == w[1..][j'];
      i, j := i' + 1, j' + 1;
    } else {
      WithKeySkip(s, key, v);
      i, j := TiesInFiltered(t, key, v, a - 1, b - 1);
    }
  }

  /** An item with key `v` appears among the items with key `v`. */
  lemma {:induction false} MemberInFiltered<T>(s: seq<T>, key: T -> real, v: real, b: nat) returns (j: nat)
    requires b < |s| && key(s[b]) == v
    ensures j < |WithKey(s, key, v)| && WithKey(s, key, v)[j] == s[b]
    decreases |s|
  {
    var w, t := WithKey(s, key, v), s[1..];
    if b == 0 {
      WithKeyKeep(s, key, v);
      j := 0;
    } else if key(s[0]) == v {
      WithKeyKeep(s, key, v);
      var j' := MemberInFiltered(t, key, v, b - 1);
      assert w[j' + 1] == w[1..][j'];
      j := j' + 1;
    } else {
      WithKeySkip(s, key, v);
      j := MemberInFiltered(t, key, v, b - 1);
    }
  }

  /** Back from the filtered view: two items in order among those with key
      `v` stand at positions `a < b` of `s`. */
  lemma {:induction false} TiesFromFiltered<T>(s: seq<T>, key: T -> real, v: real, i: nat, j: nat)
    returns (a: nat, b: nat)
    requires i < j < |WithKey(s, key, v)|
    ensures a < b < |s| && s[a] == WithKey(s, key, v)[i] && s[b] == WithKey(s, key, v)[j]
    decreases |s|
  {
    var w, t := WithKey(s, key, v), s[1..];
    assert |s| > 0;
    if key(s[0]) == v {
      WithKeyKeep(s, key, v);
      if i == 0 {
        var b' := MemberFromFiltered(t, key, v, j - 1);
        assert w[j] == w[1..][j - 1];
        a, b := 0, b' + 1;
      } else {
        var a', b' := TiesFromFiltered(t, key, v, i - 1, j - 1);
        assert w[i] == w[1..][i - 1] && w[j] == w[1..][j - 1];
        a, b := a' + 1, b' + 1;
      }
    } else {
      WithKeySkip(s, key, v);
      var a', b' := TiesFromFiltered(t, key, v, i, j);
      a, b := a' + 1, b' + 1;
    }
  }

  /** Every item among those with key `v` stands somewhere in `s`. */
  lemma {:induction false} MemberFromFiltered<T>(s: seq<T>, key: T -> real, v: real, j: nat) returns (b: nat)
    requires j < |WithKey(s, key, v)|
    ensures b < |s| && s[b] == WithKey(s, key, v)[j]
    decreases |s|
  {
    var w, t := WithKey(s, key, v), s[1..];
    assert |s| > 0;
    if key(s[0]) == v {
      WithKeyKeep(s, key, v);
      if j == 0 {
        b := 0;
      } else {
        var b' := MemberFromFiltered(t, key, v, j - 1);
        assert w[j] == w[1..][j - 1];
        b := b' + 1;
      }
    } else {
      WithKeySkip(s, key, v);
      var b' := MemberFromFiltered(t, key, v, j);
      b := b' + 1;
    }
  }

  /** Stability, pairwise: two sorted items with equal keys stood at
      positions `a' < b'` before sorting. */
  lemma {:induction false} SortTiesKeepOrder<T>(s: seq<T>, key: T -> real, a: nat, b: nat) returns (a': nat, b': nat)
    requires a < b < |Sort(s, key)| && key(Sort(s, key)[a]) == key(Sort(s, key)[b])
    ensures a' < b' < |s| && s[a'] == Sort(s, key)[a] && s[b'] == Sort(s, key)[b]
  {
    var r := Sort(s, key);
    var v := key(r[a]);
    var i, j := TiesInFiltered(r, key, v, a, b);
    SortIsStable(s, key, v);
    a', b' := TiesFromFiltered(s, key, v, i, j);
  }
}
