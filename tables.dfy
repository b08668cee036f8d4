/**
 * Database tables as sequences of rows in insertion order, and the queryset
 * operations the models use on them: `filter` on a key (Select, Where),
 * `exclude` / bulk `delete` (Reject), `.first()` (First) and the set of keys
 * a queryset holds (KeysOf). Each query keeps the table's order.
 */
module Tables {
  import opened Wrappers

  /** The rows whose key lies in `keep`, in table order. */
  function Select<T(!new), K(==,!new)>(s: seq<T>, key: T -> K, keep: set<K>): (r: seq<T>)
    ensures forall x :: x in r <==> x in s && key(x) in keep
    ensures |r| <= |s|
  {
    if s == [] then []
    else (if key(s[0]) in keep then [s[0]] else []) + Select(s[1..], key, keep)
  }

  /** The rows whose key does not lie in `gone`, in table order. */
  function Reject<T(!new), K(==,!new)>(s: seq<T>, key: T -> K, gone: set<K>): (r: seq<T>)
    ensures forall x :: x in r <==> x in s && key(x) !in gone
    ensures |r| <= |s|
  {
    if s == [] then []
    else (if key(s[0]) !in gone then [s[0]] else []) + Reject(s[1..], key, gone)
  }

  /** `filter(key=k)`. */
  function Where<T(!new), K(==,!new)>(s: seq<T>, key: T -> K, k: K): seq<T>
  {
    Select(s, key, {k})
  }

  /** `filter(key=k).first()`. */
  function First<T(!new), K(==,!new)>(s: seq<T>, key: T -> K, k: K): (r: Option<T>)
    ensures r.Some? <==> exists x :: x in s && key(x) == k
    ensures r.Some? ==> r.value in s && key(r.value) == k
  {
    var w := Where(s, key, k);
    if |w| == 0 then None
    else
      assert w[0] in w;
      Some(w[0])
  }

  /** The keys of the rows of a queryset. */
  function KeysOf<T(==,!new), K(==,!new)>(s: seq<T>, key: T -> K): (r: set<K>)
    ensures forall k :: k in r <==> exists x :: x in s && key(x) == k
  {
    set x | x in s :: key(x)
  }

  /** No two rows share a key: a `.get` on any key finds at most one row. */
  ghost predicate UniqueBy<T(!new), K(!new)>(s: seq<T>, key: T -> K)
  {
    forall k :: |Where(s, key, k)| <= 1
  }

  // ---------------------------------------------------------------------------

  lemma {:induction false} SelectConcat<T(!new), K(!new)>(a: seq<T>, b: seq<T>, key: T -> K, keep: set<K>)
    ensures Select(a + b, key, keep) == Select(a, key, keep) + Select(b, key, keep)
  {
    if a == [] {
      assert a + b == b;
    } else {
      var hx := if key(a[0]) in keep then [a[0]] else [];
      assert (a + b)[0] == a[0];
      assert (a + b)[1..] == a[1..] + b;
      calc {
        Select(a + b, key, keep);
        hx + Select(a[1..] + b, key, keep);
        { SelectConcat(a[1..], b, key, keep); }
        hx + (Select(a[1..], key, keep) + Select(b, key, keep));
        (hx + Select(a[1..], key, keep)) + Select(b, key, keep);
        Select(a, key, keep) + Select(b, key, keep);
      }
    }
  }

  lemma {:induction false} RejectConcat<T(!new), K(!new)>(a: seq<T>, b: seq<T>, key: T -> K, gone: set<K>)
    ensures Reject(a + b, key, gone) == Reject(a, key, gone) + Reject(b, key, gone)
  {
    if a == [] {
      assert a + b == b;
    } else {
      var hx := if key(a[0]) !in gone then [a[0]] else [];
      assert (a + b)[0] == a[0];
      assert (a + b)[1..] == a[1..] + b;
      calc {
        Reject(a + b, key, gone);
        hx + Reject(a[1..] + b, key, gone);
        { RejectConcat(a[1..], b, key, gone); }
        hx + (Reject(a[1..], key, gone) + Reject(b, key, gone));
        (hx + Reject(a[1..], key, gone)) + Reject(b, key, gone);
        Reject(a, key, gone) + Reject(b, key, gone);
      }
    }
  }

  lemma SelectAppend<T(!new), K(!new)>(s: seq<T>, x: T, key: T -> K, keep: set<K>)
    ensures Select(s + [x], key, keep) == Select(s, key, keep) + (if key(x) in keep then [x] else [])
  {
    SelectConcat(s, [x], key, keep);
    assert [x][1..] == [];
  }

  lemma RejectAppend<T(!new), K(!new)>(s: seq<T>, x: T, key: T -> K, gone: set<K>)
    ensures Reject(s + [x], key, gone) == Reject(s, key, gone) + (if key(x) !in gone then [x] else [])
  {
    RejectConcat(s, [x], key, gone);
    assert [x][1..] == [];
  }

  /** Filtering and excluding commute. */
  lemma {:induction false} SelectReject<T(!new), K(!new), L(!new)>(s: seq<T>, f: T -> K, gone: set<K>, g: T -> L, keep: set<L>)
    ensures Select(Reject(s, f, gone), g, keep) == Reject(Select(s, g, keep), f, gone)
  {
    if s != [] {
      var x, t := s[0], s[1..];
      var hx := if f(x) !in gone then [x] else [];
      var sx := if g(x) in keep then [x] else [];
      assert Reject(s, f, gone) == hx + Reject(t, f, gone);
      assert Select(s, g, keep) == sx + Select(t, g, keep);
      SelectConcat(hx, Reject(t, f, gone), g, keep);
      RejectConcat(sx, Select(t, g, keep), f, gone);
      SelectReject(t, f, gone, g, keep);
      assert Select(hx, g, keep) == Reject(sx, f, gone) by {
        if hx != [] { assert hx[1..] == []; }
        if sx != [] { assert sx[1..] == []; }
      }
    }
  }

  /** Excluding rows changes no filter that none of the excluded rows passes. */
  lemma WhereReject<T(!new), K(!new), L(!new)>(s: seq<T>, key: T -> K, gone: set<K>, f: T -> L, w: L)
    requires forall x :: x in s && f(x) == w ==> key(x) !in gone
    ensures Where(Reject(s, key, gone), f, w) == Where(s, f, w)
  {
    SelectReject(s, key, gone, f, {w});
    RejectNone(Where(s, f, w), key, gone);
  }

  /** Excluding rows none of which is affected changes nothing. */
  lemma {:induction false} RejectNone<T(!new), K(!new)>(s: seq<T>, key: T -> K, gone: set<K>)
    requires forall x :: x in s ==> key(x) !in gone
    ensures Reject(s, key, gone) == s
  {
    if s != [] {
      assert s[0] in s;
      assert forall x :: x in s[1..] ==> x in s;
      RejectNone(s[1..], key, gone);
      assert s == [s[0]] + s[1..];
    }
  }

  /** Selecting rows all of which qualify keeps them all. */
  lemma {:induction false} SelectAll<T(!new), K(!new)>(s: seq<T>, key: T -> K, keep: set<K>)
    requires forall x :: x in s ==> key(x) in keep
    ensures Select(s, key, keep) == s
  {
    if s != [] {
      assert s[0] in s;
      assert forall x :: x in s[1..] ==> x in s;
      SelectAll(s[1..], key, keep);
      assert s == [s[0]] + s[1..];
    }
  }

  /** Excluding two key sets one after the other excludes their union. */
  lemma {:induction false} RejectTwice<T(!new), K(!new)>(s: seq<T>, key: T -> K, a: set<K>, b: set<K>)
    ensures Reject(Reject(s, key, a), key, b) == Reject(s, key, a + b)
  {
    if s != [] {
      var x, t := s[0], s[1..];
      var ha := if key(x) !in a then [x] else [];
      assert Reject(s, key, a) == ha + Reject(t, key, a);
      RejectConcat(ha, Reject(t, key, a), key, b);
      RejectTwice(t, key, a, b);
      if ha != [] { assert ha[1..] == []; }
    }
  }

  /** Two filters on the same key are one filter on the intersection. */
  lemma {:induction false} SelectSelect<T(!new), K(!new)>(s: seq<T>, key: T -> K, a: set<K>, b: set<K>)
    ensures Select(Select(s, key, a), key, b) == Select(s, key, a * b)
  {
    if s != [] {
      var x, t := s[0], s[1..];
      var ha := if key(x) in a then [x] else [];
      assert Select(s, key, a) == ha + Select(t, key, a);
      SelectConcat(ha, Select(t, key, a), key, b);
      SelectSelect(t, key, a, b);
      if ha != [] { assert ha[1..] == []; }
    }
  }

  /** A table that gains one row with a key nobody else has stays key-unique. */
  lemma AppendUnique<T(!new), K(!new)>(s: seq<T>, x: T, key: T -> K)
    requires UniqueBy(s, key)
    requires Where(s, key, key(x)) == []
    ensures UniqueBy(s + [x], key)
    ensures Where(s + [x], key, key(x)) == [x]
  {
    forall k
      ensures |Where(s + [x], key, k)| <= 1
    {
      SelectAppend(s, x, key, {k});
      assert |Where(s, key, k)| <= 1;
      if k == key(x) {
        assert Where(s + [x], key, k) == [x];
      } else {
        assert key(x) !in {k};
        assert Where(s + [x], key, k) == Where(s, key, k);
      }
    }
    SelectAppend(s, x, key, {key(x)});
  }

  /** Excluding rows keeps a table key-unique. */
  lemma RejectUnique<T(!new), K(!new), L(!new)>(s: seq<T>, f: T -> K, gone: set<K>, key: T -> L)
    requires UniqueBy(s, key)
    ensures UniqueBy(Reject(s, f, gone), key)
  {
    forall k
      ensures |Where(Reject(s, f, gone), key, k)| <= 1
    {
      SelectReject(s, f, gone, key, {k});
      assert |Where(s, key, k)| <= 1;
    }
  }

  /** In a key-unique table, a key some row has is held by exactly one row. */
  lemma UniqueWhere<T(!new), K(!new)>(s: seq<T>, key: T -> K, x: T)
    requires UniqueBy(s, key) && x in s
    ensures Where(s, key, key(x)) == [x]
  {
    var w := Where(s, key, key(x));
    assert x in w;
    assert |w| <= 1;
    assert w[0] in w;
  }

  /** A filter no row passes is empty. */
  lemma {:induction false} WhereEmpty<T(!new), K(!new)>(s: seq<T>, key: T -> K, k: K)
    requires forall x :: x in s ==> key(x) != k
    ensures Where(s, key, k) == []
  {
    if s != [] {
      assert forall x :: x in s[1..] ==> x in s;
      WhereEmpty(s[1..], key, k);
      assert s[0] in s;
    }
  }

  /** A key no row has selects nothing. */
  lemma WhereNone<T(!new), K(!new)>(s: seq<T>, key: T -> K, k: K)
    requires First(s, key, k).None?
    ensures Where(s, key, k) == []
  {
    WhereEmpty(s, key, k);
  }

  /** Two filters one after the other are one filter on a combined key, when the combined key tells them apart. */
  lemma {:induction false} WhereWhere<T(!new), K(!new), L(!new), M(!new)>(s: seq<T>, f: T -> K, a: K, g: T -> L, b: L, h: T -> M, c: M)
    requires forall x :: x in s ==> (f(x) == a && g(x) == b <==> h(x) == c)
    ensures Where(Where(s, f, a), g, b) == Where(s, h, c)
  {
    if s != [] {
      var x, t := s[0], s[1..];
      var hx := if f(x) in {a} then [x] else [];
      assert Where(s, f, a) == hx + Where(t, f, a);
      SelectConcat(hx, Where(t, f, a), g, {b});
      assert forall y :: y in t ==> y in s;
      WhereWhere(t, f, a, g, b, h, c);
      assert x in s;
      if hx != [] { assert hx[1..] == []; }
    }
  }

  /** A member of a non-empty sequence lies in its front or is its last element. */
  lemma InitOrLast<T>(s: seq<T>, x: T)
    requires x in s
    ensures x in s[..|s| - 1] || x == s[|s| - 1]
  {
    assert s == s[..|s| - 1] + [s[|s| - 1]];
  }
}
