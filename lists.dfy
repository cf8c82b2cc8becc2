/** Sequence operations behind the table queries and the in-memory lists:
    `filter` (a `.eq(...)` match, or `Array.prototype.filter`) and the
    newest-first order of `.order('created_at', { ascending: false })`. */
module Lists {

  /** Keeps the elements satisfying `p`, in their original order. */
  function Filter<T(!new)>(s: seq<T>, p: T -> bool): (r: seq<T>)
    ensures |r| <= |s|
    ensures forall x :: x in r <==> x in s && p(x)
  {
    if s == [] then []
    else (if p(s[0]) then [s[0]] else []) + Filter(s[1..], p)
  }

  function Not<T(!new)>(p: T -> bool): T -> bool {
    x => !p(x)
  }

  /** A filter that no element passes yields the empty sequence. */
  lemma {:induction false} FilterNone<T(!new)>(s: seq<T>, p: T -> bool)
    requires forall x :: x in s ==> !p(x)
    ensures Filter(s, p) == []
  {
    if s != [] {
      assert s[0] in s;
      FilterNone(s[1..], p);
    }
  }

  /** Filtering a concatenation filters each part. */
  lemma {:induction false} FilterConcat<T(!new)>(a: seq<T>, b: seq<T>, p: T -> bool)
    ensures Filter(a + b, p) == Filter(a, p) + Filter(b, p)
  {
    if a != [] {
      assert (a + b)[0] == a[0];
      assert (a + b)[1..] == a[1..] + b;
      FilterConcat(a[1..], b, p);
    } else {
      assert a + b == b;
    }
  }

  /** A filter that every element passes changes nothing. */
  lemma {:induction false} FilterAll<T(!new)>(s: seq<T>, p: T -> bool)
    requires forall x :: x in s ==> p(x)
    ensures Filter(s, p) == s
  {
    if s != [] {
      assert forall x :: x in s[1..] ==> x in s;
      FilterAll(s[1..], p);
    }
  }

  /** Two filters can be applied in either order. */
  lemma {:induction false} FilterCommute<T(!new)>(s: seq<T>, p: T -> bool, q: T -> bool)
    ensures Filter(Filter(s, p), q) == Filter(Filter(s, q), p)
  {
    if s != [] {
      FilterCommute(s[1..], p, q);
      var h := if p(s[0]) then [s[0]] else [];
      FilterConcat(h, Filter(s[1..], p), q);
      var g := if q(s[0]) then [s[0]] else [];
      FilterConcat(g, Filter(s[1..], q), p);
    }
  }

  /** No two elements of `s` share a key. */
  predicate UniqueKeys<T(!new)>(s: seq<T>, key: T -> int) {
    forall i, j :: 0 <= i < j < |s| ==> key(s[i]) != key(s[j])
  }

  lemma {:induction false} FilterKeepsUnique<T(!new)>(s: seq<T>, p: T -> bool, key: T -> int)
    requires UniqueKeys(s, key)
    ensures UniqueKeys(Filter(s, p), key)
  {
    if s != [] {
      FilterKeepsUnique(s[1..], p, key);
      var r := Filter(s, p);
      var t := Filter(s[1..], p);
      if p(s[0]) {
        assert r == [s[0]] + t;
        forall i | 0 < i < |r| ensures key(r[0]) != key(r[i]) {
          assert r[i] in t;
          var j :| 0 <= j < |s[1..]| && s[1..][j] == r[i];
          assert s[j + 1] == r[i];
        }
      }
    }
  }

  /** Ordered by `key`, largest first. */
  predicate SortedDesc<T(!new)>(s: seq<T>, key: T -> int) {
    forall i, j :: 0 <= i < j < |s| ==> key(s[i]) >= key(s[j])
  }

  lemma {:induction false} FilterKeepsSorted<T(!new)>(s: seq<T>, p: T -> bool, key: T -> int)
    requires SortedDesc(s, key)
    ensures SortedDesc(Filter(s, p), key)
  {
    if s != [] {
      FilterKeepsSorted(s[1..], p, key);
      var r := Filter(s, p);
      var t := Filter(s[1..], p);
      if p(s[0]) {
        assert r == [s[0]] + t;
        forall i | 0 < i < |r| ensures key(r[0]) >= key(r[i]) {
          assert r[i] in t;
          var j :| 0 <= j < |s[1..]| && s[1..][j] == r[i];
          assert s[j + 1] == r[i];
        }
      }
    }
  }

  /** Places `x` before the first element whose key is not larger than its own. */
  function InsertDesc<T(!new)>(x: T, l: seq<T>, key: T -> int): (r: seq<T>)
    ensures |r| == |l| + 1
    ensures SortedDesc(l, key) ==> SortedDesc(r, key)
    decreases |l|, 1
  {
    if l == [] || key(x) >= key(l[0]) then
      assert SortedDesc(l, key) ==> forall j :: 0 <= j < |l| ==> key(x) >= key(l[j]);
      [x] + l
    else
      var rest := InsertDesc(x, l[1..], key);
      InsertDescPermutes(x, l[1..], key);
      InsertDescHead(x, l, rest, key);
      [l[0]] + rest
  }

  /** Inserting adds exactly `x` to the elements of `l`. */
  lemma {:induction false} InsertDescPermutes<T(!new)>(x: T, l: seq<T>, key: T -> int)
    ensures multiset(InsertDesc(x, l, key)) == multiset(l) + multiset{x}
    decreases |l|, 2
  {
    if l != [] && key(x) < key(l[0]) {
      InsertDescPermutes(x, l[1..], key);
      assert l == [l[0]] + l[1..];
    }
  }

  lemma {:induction false} InsertDescHead<T(!new)>(x: T, l: seq<T>, rest: seq<T>, key: T -> int)
    requires l != [] && key(x) < key(l[0])
    requires multiset(rest) == multiset(l[1..]) + multiset{x}
    requires SortedDesc(l, key) ==> SortedDesc(rest, key)
    ensures SortedDesc(l, key) ==> SortedDesc([l[0]] + rest, key)
  {
    if SortedDesc(l, key) {
      var r := [l[0]] + rest;
      forall i, j | 0 <= i < j < |r| ensures key(r[i]) >= key(r[j]) {
        if i == 0 {
          var y := r[j];
          assert y in multiset(rest);
          if y != x {
            assert y in multiset(l[1..]);
            assert y in l[1..];
            var k :| 0 <= k < |l[1..]| && l[1..][k] == y;
            assert l[k + 1] == y;
          }
        } else {
          assert r[i] == rest[i - 1] && r[j] == rest[j - 1];
        }
      }
    }
  }

  /** Every element of `s` is in `l`, counted with multiplicity. */
  lemma {:induction false} MembersOfMultiset<T(!new)>(a: seq<T>, b: seq<T>)
    requires multiset(a) == multiset(b)
    ensures forall y :: y in a <==> y in b
  {
    forall y ensures y in a <==> y in b {
      assert y in a <==> y in multiset(a);
      assert y in b <==> y in multiset(b);
    }
  }

  /** The listing order: a newest-first insertion sort that takes the table's
      rows from the most recently appended one backwards, so that among rows with
      equal keys the later-appended one comes first. */
  function SortDesc<T(!new)>(s: seq<T>, key: T -> int): (r: seq<T>)
    ensures multiset(r) == multiset(s)
    ensures forall y :: y in r <==> y in s
    ensures |r| == |s|
    ensures SortedDesc(r, key)
  {
    if s == [] then []
    else
      assert s == s[..|s| - 1] + [s[|s| - 1]];
      var r := InsertDesc(s[|s| - 1], SortDesc(s[..|s| - 1], key), key);
      InsertDescPermutes(s[|s| - 1], SortDesc(s[..|s| - 1], key), key);
      MembersOfMultiset(r, s);
      r
  }

  /** A row appended with a key no smaller than any other comes first. */
  lemma {:induction false} SortDescAppendNewest<T(!new)>(s: seq<T>, x: T, key: T -> int)
    requires forall y :: y in s ==> key(y) <= key(x)
    ensures SortDesc(s + [x], key) == [x] + SortDesc(s, key)
  {
    assert (s + [x])[..|s|] == s;
  }

  /** Filtering after an insertion is inserting into the filtered list. */
  lemma {:induction false} FilterInsertDesc<T(!new)>(x: T, l: seq<T>, p: T -> bool, key: T -> int)
    requires SortedDesc(l, key)
    ensures Filter(InsertDesc(x, l, key), p) ==
            if p(x) then InsertDesc(x, Filter(l, p), key) else Filter(l, p)
  {
    if l == [] || key(x) >= key(l[0]) {
      FilterInsertFront(x, l, p, key);
    } else {
      assert SortedDesc(l[1..], key) by {
        forall i, j | 0 <= i < j < |l[1..]| ensures key(l[1..][i]) >= key(l[1..][j]) {
          assert l[1..][i] == l[i + 1] && l[1..][j] == l[j + 1];
        }
      }
      FilterInsertDesc(x, l[1..], p, key);
      FilterInsertBehind(x, l, InsertDesc(x, l[1..], key), p, key);
    }
  }

  lemma {:induction false} FilterInsertFront<T(!new)>(x: T, l: seq<T>, p: T -> bool, key: T -> int)
    requires SortedDesc(l, key)
    requires l == [] || key(x) >= key(l[0])
    ensures Filter(InsertDesc(x, l, key), p) ==
            if p(x) then InsertDesc(x, Filter(l, p), key) else Filter(l, p)
  {
    var f := Filter(l, p);
    assert InsertDesc(x, l, key) == [x] + l;
    FilterConcat([x], l, p);
    if f != [] {
      assert f[0] in l;
      var j :| 0 <= j < |l| && l[j] == f[0];
      assert key(l[0]) >= key(l[j]);
      assert InsertDesc(x, f, key) == [x] + f;
    }
    if p(x) {
      assert Filter([x], p) == [x];
    } else {
      assert Filter([x], p) == [];
    }
  }

  lemma {:induction false} FilterInsertBehind<T(!new)>(x: T, l: seq<T>, rest: seq<T>, p: T -> bool, key: T -> int)
    requires l != [] && key(x) < key(l[0])
    requires Filter(rest, p) ==
             if p(x) then InsertDesc(x, Filter(l[1..], p), key) else Filter(l[1..], p)
    ensures Filter([l[0]] + rest, p) ==
            if p(x) then InsertDesc(x, Filter(l, p), key) else Filter(l, p)
  {
    var h, t := l[0], l[1..];
    var fr, ft := Filter(rest, p), Filter(t, p);
    var hp := if p(h) then [h] else [];
    assert Filter([h] + rest, p) == hp + fr by {
      FilterConcat([h], rest, p);
      assert Filter([h], p) == hp;
    }
    assert Filter(l, p) == hp + ft by {
      assert l == [h] + t;
      FilterConcat([h], t, p);
      assert Filter([h], p) == hp;
    }
    if p(x) && p(h) {
      var f := [h] + ft;
      assert f[0] == h && f[1..] == ft;
      assert InsertDesc(x, f, key) == [h] + InsertDesc(x, ft, key);
    } else if p(x) {
      assert hp + ft == ft && hp + fr == fr;
    }
  }

  /** Sorting a list with one more element at its end inserts that element
      into the sorted list. */
  lemma SortDescSnoc<T(!new)>(t: seq<T>, x: T, key: T -> int)
    ensures SortDesc(t + [x], key) == InsertDesc(x, SortDesc(t, key), key)
  {
    assert (t + [x])[..|t|] == t;
  }

  /** The listing order does not care whether rows are filtered before or after
      sorting. */
  lemma {:induction false} FilterSortDesc<T(!new)>(s: seq<T>, p: T -> bool, key: T -> int)
    ensures Filter(SortDesc(s, key), p) == SortDesc(Filter(s, p), key)
  {
    if s != [] {
      var init, x := s[..|s| - 1], s[|s| - 1];
      assert s == init + [x];
      SortDescSnoc(init, x, key);
      FilterSortDesc(init, p, key);
      FilterInsertDesc(x, SortDesc(init, key), p, key);
      FilterConcat(init, [x], p);
      if p(x) {
        assert Filter([x], p) == [x];
        SortDescSnoc(Filter(init, p), x, key);
      } else {
        assert Filter([x], p) == [];
        assert Filter(init, p) + [] == Filter(init, p);
      }
    }
  }
}
