/** Comparison callbacks, and finite maps kept as sorted lists of pairs. */
module Orders {
  import opened Basics

  /** A three-way comparison that orders all keys; distinct keys may compare equal. */
  ghost predicate TotalPreorder<K(!new)>(cmp: (K, K) -> int) {
    && (forall a :: cmp(a, a) == 0)
    && (forall a, b :: cmp(a, b) < 0 <==> cmp(b, a) > 0)
    && (forall a, b, c :: cmp(a, b) <= 0 && cmp(b, c) <= 0 ==> cmp(a, c) <= 0)
  }

  lemma Reflexive<K(!new)>(cmp: (K, K) -> int, a: K)
    requires TotalPreorder(cmp)
    ensures cmp(a, a) == 0
  {
  }

  lemma Opposite<K(!new)>(cmp: (K, K) -> int, a: K, b: K)
    requires TotalPreorder(cmp)
    ensures cmp(a, b) < 0 <==> cmp(b, a) > 0
    ensures cmp(a, b) > 0 <==> cmp(b, a) < 0
    ensures cmp(a, b) == 0 <==> cmp(b, a) == 0
  {
  }

  lemma Transitive<K(!new)>(cmp: (K, K) -> int, a: K, b: K, c: K)
    requires TotalPreorder(cmp)
    ensures cmp(a, b) <= 0 && cmp(b, c) <= 0 ==> cmp(a, c) <= 0
    ensures cmp(a, b) < 0 && cmp(b, c) <= 0 ==> cmp(a, c) < 0
    ensures cmp(a, b) <= 0 && cmp(b, c) < 0 ==> cmp(a, c) < 0
    ensures cmp(a, b) == 0 && cmp(b, c) == 0 ==> cmp(a, c) == 0
  {
    Opposite(cmp, a, b);
    Opposite(cmp, b, c);
    Opposite(cmp, a, c);
    assert cmp(c, a) <= 0 && cmp(a, b) <= 0 ==> cmp(c, b) <= 0;
    assert cmp(b, c) <= 0 && cmp(c, a) <= 0 ==> cmp(b, a) <= 0;
    assert cmp(c, b) <= 0 && cmp(b, a) <= 0 ==> cmp(c, a) <= 0;
  }

  // ---------- Maps as sorted lists ----------

  /** Keys ascend strictly. */
  ghost predicate Ascending<K, V>(cmp: (K, K) -> int, s: seq<(K, V)>) {
    forall i, j | 0 <= i < j < |s| :: cmp(s[i].0, s[j].0) < 0
  }

  /** The value of the key that compares equal to q. */
  function Find<K, V>(cmp: (K, K) -> int, s: seq<(K, V)>, q: K): Option<V> {
    if s == [] then None
    else if cmp(q, s[0].0) == 0 then Some(s[0].1)
    else Find(cmp, s[1..], q)
  }

  /** s with key k set to v; a key that compares equal to k is replaced along with its value. */
  function Put<K, V>(cmp: (K, K) -> int, s: seq<(K, V)>, k: K, v: V): seq<(K, V)> {
    if s == [] then [(k, v)]
    else if cmp(k, s[0].0) < 0 then [(k, v)] + s
    else if cmp(k, s[0].0) == 0 then [(k, v)] + s[1..]
    else [s[0]] + Put(cmp, s[1..], k, v)
  }

  /** s without the key that compares equal to k. */
  function Cut<K, V>(cmp: (K, K) -> int, s: seq<(K, V)>, k: K): seq<(K, V)> {
    if s == [] then []
    else if cmp(k, s[0].0) == 0 then s[1..]
    else [s[0]] + Cut(cmp, s[1..], k)
  }

  /** Every key of s compares with k as c says. */
  ghost predicate AllBelow<K, V>(cmp: (K, K) -> int, s: seq<(K, V)>, k: K) {
    forall i | 0 <= i < |s| :: cmp(s[i].0, k) < 0
  }

  ghost predicate AllAbove<K, V>(cmp: (K, K) -> int, s: seq<(K, V)>, k: K) {
    forall i | 0 <= i < |s| :: cmp(k, s[i].0) < 0
  }

  lemma AscendingParts<K, V>(cmp: (K, K) -> int, l: seq<(K, V)>, m: (K, V), r: seq<(K, V)>)
    ensures Ascending(cmp, l + [m] + r) ==>
              Ascending(cmp, l) && Ascending(cmp, r) && AllBelow(cmp, l, m.0) && AllAbove(cmp, r, m.0)
  {
    var s := l + [m] + r;
    if Ascending(cmp, s) {
      forall i | 0 <= i < |l|
        ensures cmp(l[i].0, m.0) < 0
      {
        assert s[i] == l[i] && s[|l|] == m;
      }
      forall i | 0 <= i < |r|
        ensures cmp(m.0, r[i].0) < 0
      {
        assert s[|l| + 1 + i] == r[i] && s[|l|] == m;
      }
      forall i, j | 0 <= i < j < |l|
        ensures cmp(l[i].0, l[j].0) < 0
      {
        assert s[i] == l[i] && s[j] == l[j];
      }
      forall i, j | 0 <= i < j < |r|
        ensures cmp(r[i].0, r[j].0) < 0
      {
        assert s[|l| + 1 + i] == r[i] && s[|l| + 1 + j] == r[j];
      }
    }
  }

  lemma FirstPair<K, V>(cmp: (K, K) -> int, x: (K, V), t: seq<(K, V)>, k: K, v: V)
    ensures Put(cmp, [x] + t, k, v) ==
            if cmp(k, x.0) < 0 then [(k, v), x] + t
            else if cmp(k, x.0) == 0 then [(k, v)] + t
            else [x] + Put(cmp, t, k, v)
    ensures Cut(cmp, [x] + t, k) == if cmp(k, x.0) == 0 then t else [x] + Cut(cmp, t, k)
    ensures Find(cmp, [x] + t, k) == if cmp(k, x.0) == 0 then Some(x.1) else Find(cmp, t, k)
  {
    assert ([x] + t)[1..] == t;
    assert [(k, v)] + ([x] + t) == [(k, v), x] + t;
  }

  lemma MiddleOf<T>(l: seq<T>, m: T, r: seq<T>)
    ensures l == [] ==> l + [m] + r == [m] + r
    ensures l != [] ==> l + [m] + r == [l[0]] + (l[1..] + [m] + r) && l == [l[0]] + l[1..]
  {
  }

  lemma InFront<T>(a: seq<T>, l: seq<T>, m: T, r: seq<T>)
    ensures a + (l + [m] + r) == a + l + [m] + r
  {
  }

  /** Below the middle key, only the part to its left matters. */
  lemma {:induction false} SearchLeft<K(!new), V>(cmp: (K, K) -> int, l: seq<(K, V)>, m: (K, V), r: seq<(K, V)>, k: K,
                                                  v: V)
    requires TotalPreorder(cmp) && AllAbove(cmp, r, m.0) && cmp(k, m.0) < 0
    ensures Put(cmp, l + [m] + r, k, v) == Put(cmp, l, k, v) + [m] + r
    ensures Cut(cmp, l + [m] + r, k) == Cut(cmp, l, k) + [m] + r
    ensures Find(cmp, l + [m] + r, k) == Find(cmp, l, k)
    decreases |l|
  {
    hide *;
    MiddleOf(l, m, r);
    if l == [] {
      FirstPair(cmp, m, r, k, v);
      Nowhere(cmp, r, m.0, k);
      EmptyList(cmp, k, v);
      assert [(k, v), m] + r == [(k, v)] + [m] + r;
    } else {
      var x, t := l[0], l[1..];
      SearchLeft(cmp, t, m, r, k, v);
      FirstPair(cmp, x, t + [m] + r, k, v);
      FirstPair(cmp, x, t, k, v);
      Shift(x, t, m, r);
      Shift(x, Put(cmp, t, k, v), m, r);
      Shift(x, Cut(cmp, t, k), m, r);
      InFront([(k, v), x], t, m, r);
      InFront([(k, v)], t, m, r);
    }
  }

  lemma Shift<T>(x: T, t: seq<T>, m: T, r: seq<T>)
    ensures [x] + (t + [m] + r) == [x] + t + [m] + r
  {
  }

  lemma EmptyList<K, V>(cmp: (K, K) -> int, k: K, v: V)
    ensures Put(cmp, [], k, v) == [(k, v)] && Cut<K, V>(cmp, [], k) == [] && Find<K, V>(cmp, [], k) == None
  {
  }

  /** A key that is below all keys of s is not in it. */
  lemma {:induction false} Nowhere<K(!new), V>(cmp: (K, K) -> int, s: seq<(K, V)>, m: K, k: K)
    requires TotalPreorder(cmp) && cmp(k, m) <= 0 && AllAbove(cmp, s, m)
    ensures Cut(cmp, s, k) == s && Find(cmp, s, k) == None
    decreases |s|
  {
    hide TotalPreorder;
    if s != [] {
      Transitive(cmp, k, m, s[0].0);
      Nowhere(cmp, s[1..], m, k);
    }
  }

  lemma {:induction false} SearchRight<K(!new), V>(cmp: (K, K) -> int, l: seq<(K, V)>, m: (K, V), r: seq<(K, V)>,
                                                   k: K, v: V)
    requires TotalPreorder(cmp) && AllBelow(cmp, l, m.0) && cmp(k, m.0) > 0
    ensures Put(cmp, l + [m] + r, k, v) == l + [m] + Put(cmp, r, k, v)
    ensures Cut(cmp, l + [m] + r, k) == l + [m] + Cut(cmp, r, k)
    ensures Find(cmp, l + [m] + r, k) == Find(cmp, r, k)
    decreases |l|
  {
    hide TotalPreorder, Put, Cut, Find;
    MiddleOf(l, m, r);
    MiddleOf(l, m, Put(cmp, r, k, v));
    MiddleOf(l, m, Cut(cmp, r, k));
    if l == [] {
      FirstPair(cmp, m, r, k, v);
    } else {
      var x, t := l[0], l[1..];
      Opposite(cmp, k, m.0);
      Transitive(cmp, x.0, m.0, k);
      Opposite(cmp, k, x.0);
      SearchRight(cmp, t, m, r, k, v);
      FirstPair(cmp, x, t + [m] + r, k, v);
    }
  }

  lemma {:induction false} SearchHere<K(!new), V>(cmp: (K, K) -> int, l: seq<(K, V)>, m: (K, V), r: seq<(K, V)>, k: K,
                                                  v: V)
    requires TotalPreorder(cmp) && AllBelow(cmp, l, m.0) && cmp(k, m.0) == 0
    ensures Put(cmp, l + [m] + r, k, v) == l + [(k, v)] + r
    ensures Cut(cmp, l + [m] + r, k) == l + r
    ensures Find(cmp, l + [m] + r, k) == Some(m.1)
    decreases |l|
  {
    hide TotalPreorder, Put, Cut, Find;
    MiddleOf(l, m, r);
    if l == [] {
      FirstPair(cmp, m, r, k, v);
    } else {
      var x, t := l[0], l[1..];
      Opposite(cmp, k, m.0);
      Transitive(cmp, x.0, m.0, k);
      Opposite(cmp, k, x.0);
      SearchHere(cmp, t, m, r, k, v);
      Shift(x, t, (k, v), r);
      assert [x] + (t + r) == [x] + t + r;
      FirstPair(cmp, x, t + [m] + r, k, v);
    }
  }

  // ---------- The laws of a map ----------

  lemma {:induction false} PutLaws<K(!new), V>(cmp: (K, K) -> int, s: seq<(K, V)>, k: K, v: V, q: K)
    requires TotalPreorder(cmp) && Ascending(cmp, s)
    ensures Find(cmp, Put(cmp, s, k, v), q) == if cmp(q, k) == 0 then Some(v) else Find(cmp, s, q)
    decreases |s|
  {
    hide TotalPreorder;
    if s != [] {
      assert s == [s[0]] + s[1..];
      Opposite(cmp, k, s[0].0);
      Opposite(cmp, q, k);
      Transitive(cmp, q, k, s[0].0);
      Transitive(cmp, k, q, s[0].0);
      if cmp(k, s[0].0) > 0 {
        PutLaws(cmp, s[1..], k, v, q);
      }
    }
  }

  lemma {:induction false} CutLaws<K(!new), V>(cmp: (K, K) -> int, s: seq<(K, V)>, k: K, q: K)
    requires TotalPreorder(cmp) && Ascending(cmp, s)
    ensures Find(cmp, Cut(cmp, s, k), q) == if cmp(q, k) == 0 then None else Find(cmp, s, q)
    decreases |s|
  {
    hide TotalPreorder;
    if s != [] {
      assert s == [] + [s[0]] + s[1..];
      AscendingParts(cmp, [], s[0], s[1..]);
      Opposite(cmp, q, k);
      Opposite(cmp, k, s[0].0);
      Transitive(cmp, q, k, s[0].0);
      Transitive(cmp, k, q, s[0].0);
      if cmp(k, s[0].0) == 0 {
        if cmp(q, k) == 0 {
          Nowhere(cmp, s[1..], s[0].0, q);
        }
      } else {
        CutLaws(cmp, s[1..], k, q);
      }
    }
  }

  lemma {:induction false} PutAbove<K, V>(cmp: (K, K) -> int, s: seq<(K, V)>, k: K, v: V, m: K)
    requires AllAbove(cmp, s, m) && cmp(m, k) < 0
    ensures AllAbove(cmp, Put(cmp, s, k, v), m)
    decreases |s|
  {
    if s != [] && cmp(k, s[0].0) > 0 {
      PutAbove(cmp, s[1..], k, v, m);
    }
  }

  lemma {:induction false} CutAbove<K, V>(cmp: (K, K) -> int, s: seq<(K, V)>, k: K, m: K)
    requires AllAbove(cmp, s, m)
    ensures AllAbove(cmp, Cut(cmp, s, k), m)
    decreases |s|
  {
    if s != [] {
      CutAbove(cmp, s[1..], k, m);
    }
  }

  lemma AscendingFirst<K, V>(cmp: (K, K) -> int, x: (K, V), t: seq<(K, V)>)
    ensures Ascending(cmp, [x] + t) <==> Ascending(cmp, t) && AllAbove(cmp, t, x.0)
  {
    if Ascending(cmp, [x] + t) {
      assert [] + [x] + t == [x] + t;
      AscendingParts(cmp, [], x, t);
    }
  }

  lemma {:induction false} PutAscending<K(!new), V>(cmp: (K, K) -> int, s: seq<(K, V)>, k: K, v: V)
    requires TotalPreorder(cmp) && Ascending(cmp, s)
    ensures Ascending(cmp, Put(cmp, s, k, v))
    decreases |s|
  {
    hide *;
    if s == [] {
      PutEmpty(cmp, k, v);
    } else {
      var x, t := s[0], s[1..];
      assert s == [x] + t;
      AscendingFirst(cmp, x, t);
      FirstPair(cmp, x, t, k, v);
      Opposite(cmp, k, x.0);
      if cmp(k, x.0) > 0 {
        PutAscending(cmp, t, k, v);
        PutAbove(cmp, t, k, v, x.0);
        AscendingFirst(cmp, x, Put(cmp, t, k, v));
      } else {
        PutInFront(cmp, (k, v), x, t);
      }
    }
  }

  /** A key that is no greater than the first may replace it, and a smaller one go before it. */
  lemma PutInFront<K(!new), V>(cmp: (K, K) -> int, kv: (K, V), x: (K, V), t: seq<(K, V)>)
    requires TotalPreorder(cmp) && Ascending(cmp, t) && AllAbove(cmp, t, x.0) && cmp(kv.0, x.0) <= 0
    ensures Ascending(cmp, [kv] + t)
    ensures cmp(kv.0, x.0) < 0 ==> Ascending(cmp, [kv, x] + t)
  {
    hide TotalPreorder;
    forall i | 0 <= i < |t|
      ensures cmp(kv.0, t[i].0) < 0
    {
      Transitive(cmp, kv.0, x.0, t[i].0);
    }
    AscendingFirst(cmp, kv, t);
    AscendingFirst(cmp, x, t);
    if cmp(kv.0, x.0) < 0 {
      AscendingFirst(cmp, kv, [x] + t);
      assert [kv, x] + t == [kv] + ([x] + t);
    }
  }

  lemma PutEmpty<K(!new), V>(cmp: (K, K) -> int, k: K, v: V)
    ensures Ascending(cmp, Put(cmp, [], k, v)) && Put(cmp, [], k, v) == [(k, v)]
  {
  }

  lemma {:induction false} CutAscending<K(!new), V>(cmp: (K, K) -> int, s: seq<(K, V)>, k: K)
    requires TotalPreorder(cmp) && Ascending(cmp, s)
    ensures Ascending(cmp, Cut(cmp, s, k))
    decreases |s|
  {
    hide TotalPreorder, Ascending;
    if s != [] {
      var x, t := s[0], s[1..];
      assert s == [x] + t;
      AscendingFirst(cmp, x, t);
      CutAscending(cmp, t, k);
      if cmp(k, x.0) != 0 {
        CutAbove(cmp, t, k, x.0);
        AscendingFirst(cmp, x, Cut(cmp, t, k));
      }
    }
  }
}
