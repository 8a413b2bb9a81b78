/** Generic sequence operations that stand for the pandas and Python idioms the
    script uses: boolean-mask filtering, `drop_duplicates`, `head(n)` and the
    insertion order of a `dict`. */
module Seqs {

  /** No element occurs twice. */
  ghost predicate Distinct<T>(s: seq<T>) {
    forall i, j :: 0 <= i < j < |s| ==> s[i] != s[j]
  }

  /** `a` is an order-preserving subsequence of `b` (what a boolean mask leaves). */
  ghost predicate IsSubsequence<T>(a: seq<T>, b: seq<T>)
    decreases |b|
  {
    a == [] ||
    (b != [] &&
     ((a[|a| - 1] == b[|b| - 1] && IsSubsequence(a[..|a| - 1], b[..|b| - 1])) ||
      IsSubsequence(a, b[..|b| - 1])))
  }

  /** Position of the first occurrence of `x` in `s`. */
  function IndexOf<T(==)>(s: seq<T>, x: T): (k: nat)
    requires x in s
    ensures k < |s| && s[k] == x
    ensures forall i :: 0 <= i < k ==> s[i] != x
  {
    if s[0] == x then 0 else 1 + IndexOf(s[1..], x)
  }

  /** The elements of `s` for which `p` holds, in their original order
      (a pandas boolean mask, `df[mask]`). */
  function Keep<T(==,!new)>(s: seq<T>, p: T -> bool): (r: seq<T>)
    ensures |r| <= |s|
    ensures forall x :: x in r <==> x in s && p(x)
    ensures forall x :: multiset(r)[x] == if p(x) then multiset(s)[x] else 0
  {
    if s == [] then []
    else
      var s0, x := s[..|s| - 1], s[|s| - 1];
      assert s == s0 + [x];
      assert multiset(s) == multiset(s0) + multiset{x};
      Keep(s0, p) + (if p(x) then [x] else [])
  }

  /** The distinct elements of `s`, each at its first occurrence, in that order
      (pandas `drop_duplicates`; also the key order of a Python dict filled by
      "insert if absent"). */
  function Dedup<T(==,!new)>(s: seq<T>): (d: seq<T>)
    ensures Distinct(d)
    ensures forall x :: x in d <==> x in s
    ensures |d| <= |s|
  {
    if s == [] then []
    else
      var d0 := Dedup(s[..|s| - 1]);
      if s[|s| - 1] in d0 then d0 else d0 + [s[|s| - 1]]
  }

  /** The first `n` elements, or all of them when there are fewer (pandas `head(n)`). */
  function Take<T>(s: seq<T>, n: nat): (r: seq<T>)
    ensures |r| == if n <= |s| then n else |s|
    ensures forall i :: 0 <= i < |r| ==> r[i] == s[i]
  {
    if n <= |s| then s[..n] else s
  }

  /** A mask that holds nowhere keeps nothing. */
  lemma {:induction false} KeepNone<T(!new)>(s: seq<T>, p: T -> bool)
    requires forall x :: !p(x)
    ensures Keep(s, p) == []
  {
    if s != [] {
      KeepNone(s[..|s| - 1], p);
    }
  }

  lemma KeepSnoc<T(!new)>(s: seq<T>, x: T, p: T -> bool)
    ensures Keep(s + [x], p) == Keep(s, p) + (if p(x) then [x] else [])
  {
    assert (s + [x])[..|s + [x]| - 1] == s;
  }

  lemma DedupSnoc<T(!new)>(s: seq<T>, x: T)
    ensures Dedup(s + [x]) == if x in s then Dedup(s) else Dedup(s) + [x]
  {
    assert (s + [x])[..|s + [x]| - 1] == s;
  }

  /** The first occurrence of an element of `s` does not move when more is appended. */
  lemma IndexOfAppend<T>(s: seq<T>, t: seq<T>, x: T)
    requires x in s + t
    ensures x in s ==> IndexOf(s + t, x) == IndexOf(s, x)
    ensures x !in s ==> IndexOf(s + t, x) == |s| + IndexOf(t, x)
  {
    var k := IndexOf(s + t, x);
    assert forall i :: 0 <= i < |s| ==> (s + t)[i] == s[i];
    if x in s {
      var k0 := IndexOf(s, x);
      assert (s + t)[k0] == x;
    } else {
      var k1 := IndexOf(t, x);
      assert (s + t)[|s| + k1] == x;
      assert k >= |s|;
      assert t[k - |s|] == x;
    }
  }

  /** Filtering keeps the original order. */
  lemma {:induction false} KeepIsSubsequence<T(!new)>(s: seq<T>, p: T -> bool)
    ensures IsSubsequence(Keep(s, p), s)
  {
    if s != [] {
      var s0, x := s[..|s| - 1], s[|s| - 1];
      assert s == s0 + [x];
      KeepIsSubsequence(s0, p);
      KeepSnoc(s0, x, p);
      var k0 := Keep(s0, p);
      if p(x) {
        assert Keep(s, p) == k0 + [x];
        assert (k0 + [x])[..|k0|] == k0;
      } else {
        assert Keep(s, p) == k0;
      }
    }
  }

  /** Being an order-preserving subsequence is transitive. */
  lemma {:induction false} SubsequenceTransitive<T>(a: seq<T>, b: seq<T>, c: seq<T>)
    requires IsSubsequence(a, b) && IsSubsequence(b, c)
    ensures IsSubsequence(a, c)
    decreases |c|
  {
    if a != [] {
      var c0 := c[..|c| - 1];
      if IsSubsequence(b, c0) {
        SubsequenceTransitive(a, b, c0);
      } else {
        var b0 := b[..|b| - 1];
        assert b[|b| - 1] == c[|c| - 1] && IsSubsequence(b0, c0);
        if a[|a| - 1] == b[|b| - 1] && IsSubsequence(a[..|a| - 1], b0) {
          SubsequenceTransitive(a[..|a| - 1], b0, c0);
        } else {
          SubsequenceTransitive(a, b0, c0);
        }
      }
    }
  }

  /** A predicate that holds everywhere removes nothing. */
  lemma {:induction false} KeepAll<T(!new)>(s: seq<T>, p: T -> bool)
    requires forall x :: x in s ==> p(x)
    ensures Keep(s, p) == s
  {
    if s != [] {
      var s0, x := s[..|s| - 1], s[|s| - 1];
      assert s == s0 + [x];
      KeepAll(s0, p);
    }
  }

  /** Two masks that agree on every element select the same rows. */
  lemma {:induction false} KeepAgree<T(!new)>(s: seq<T>, p: T -> bool, q: T -> bool)
    requires forall x :: x in s ==> p(x) == q(x)
    ensures Keep(s, p) == Keep(s, q)
  {
    if s != [] {
      var s0, x := s[..|s| - 1], s[|s| - 1];
      assert s == s0 + [x];
      KeepAgree(s0, p, q);
    }
  }

  /** Applying one mask after another is the same as applying their conjunction once. */
  lemma {:induction false} KeepKeep<T(!new)>(s: seq<T>, p: T -> bool, q: T -> bool, pq: T -> bool)
    requires forall x :: x in s ==> pq(x) == (p(x) && q(x))
    ensures Keep(Keep(s, p), q) == Keep(s, pq)
  {
    if s != [] {
      var s0, x := s[..|s| - 1], s[|s| - 1];
      assert s == s0 + [x];
      assert x in s && pq(x) == (p(x) && q(x));
      KeepKeep(s0, p, q, pq);
      KeepSnoc(s0, x, p);
      KeepSnoc(s0, x, pq);
      if p(x) {
        KeepSnoc(Keep(s0, p), x, q);
      } else {
        assert Keep(s, p) == Keep(s0, p);
        assert Keep(s, pq) == Keep(s0, pq);
      }
    }
  }

  /** Removing duplicates commutes with filtering. */
  lemma {:induction false} DedupKeep<T(!new)>(s: seq<T>, p: T -> bool)
    ensures Dedup(Keep(s, p)) == Keep(Dedup(s), p)
  {
    if s != [] {
      var s0, x := s[..|s| - 1], s[|s| - 1];
      assert s == s0 + [x];
      DedupKeep(s0, p);
      KeepSnoc(s0, x, p);
      DedupSnoc(s0, x);
      var k0 := Keep(s0, p);
      if p(x) {
        assert Keep(s, p) == k0 + [x];
        DedupSnoc(k0, x);
        assert x in k0 <==> x in s0;
      } else {
        assert Keep(s, p) == k0;
      }
      if x !in s0 {
        KeepSnoc(Dedup(s0), x, p);
      }
    }
  }

  /** On a duplicate-free sequence, keeping the members of its first `n`
      elements gives back exactly those first `n` elements. */
  lemma {:induction false} KeepMembersOfTake<T(!new)>(d: seq<T>, n: nat, p: T -> bool)
    requires Distinct(d)
    requires forall x :: x in d ==> (p(x) <==> x in Take(d, n))
    ensures Keep(d, p) == Take(d, n)
  {
    if n >= |d| {
      KeepAll(d, p);
    } else {
      var d0, x := d[..|d| - 1], d[|d| - 1];
      assert d == d0 + [x];
      assert Take(d0, n) == Take(d, n);
      assert forall i :: 0 <= i < n ==> d[i] != x;
      assert x !in Take(d, n);
      KeepMembersOfTake(d0, n, p);
      KeepSnoc(d0, x, p);
    }
  }

  /** The distinct elements of a prefix are a prefix of the distinct elements. */
  lemma {:induction false} DedupAppend<T(!new)>(s: seq<T>, t: seq<T>)
    ensures |Dedup(s)| <= |Dedup(s + t)|
    ensures Dedup(s + t)[..|Dedup(s)|] == Dedup(s)
    decreases |t|
  {
    if t == [] {
      assert s + t == s;
    } else {
      var t0, x := t[..|t| - 1], t[|t| - 1];
      assert s + t == (s + t0) + [x];
      DedupAppend(s, t0);
      DedupSnoc(s + t0, x);
    }
  }

  /** Dedup lists the distinct elements in the order of their first occurrence. */
  lemma {:induction false} DedupFirstSeenOrder<T(!new)>(s: seq<T>, i: nat, j: nat)
    requires i < j < |Dedup(s)|
    ensures Dedup(s)[i] in s && Dedup(s)[j] in s
    ensures IndexOf(s, Dedup(s)[i]) < IndexOf(s, Dedup(s)[j])
  {
    var d := Dedup(s);
    assert d[i] in d && d[j] in d;
    var s0, x := s[..|s| - 1], s[|s| - 1];
    assert s == s0 + [x];
    DedupSnoc(s0, x);
    var d0 := Dedup(s0);
    if j < |d0| {
      assert d[i] == d0[i] && d[j] == d0[j];
      assert d0[i] in d0 && d0[j] in d0;
      DedupFirstSeenOrder(s0, i, j);
      IndexOfAppend(s0, [x], d[i]);
      IndexOfAppend(s0, [x], d[j]);
    } else {
      assert d == d0 + [x] && x !in s0 && d[j] == x;
      assert d[i] == d0[i] && d0[i] in d0;
      IndexOfAppend(s0, [x], d[i]);
      IndexOfAppend(s0, [x], x);
    }
  }

  /** The set of elements of a duplicate-free sequence has one member per position. */
  lemma {:induction false} DistinctCard<T>(a: seq<T>)
    requires Distinct(a)
    ensures |set x | x in a| == |a|
  {
    if a != [] {
      var a0, x := a[..|a| - 1], a[|a| - 1];
      assert a == a0 + [x];
      DistinctCard(a0);
      assert x !in a0 by {
        assert forall i :: 0 <= i < |a0| ==> a[i] == a0[i];
      }
      assert (set y | y in a) == (set y | y in a0) + {x};
    }
  }

  /** A sequence has at least as many positions as distinct elements. */
  lemma {:induction false} CardAtMostLength<T>(b: seq<T>)
    ensures |set x | x in b| <= |b|
  {
    if b != [] {
      var b0, x := b[..|b| - 1], b[|b| - 1];
      assert b == b0 + [x];
      CardAtMostLength(b0);
      assert (set y | y in b) == (set y | y in b0) + {x};
    }
  }

  /** A duplicate-free sequence whose elements all occur in `b` is no longer than `b`. */
  lemma DistinctLength<T>(a: seq<T>, b: seq<T>)
    requires Distinct(a)
    requires forall x :: x in a ==> x in b
    ensures |a| <= |b|
  {
    DistinctCard(a);
    CardAtMostLength(b);
    var sa, sb := set x | x in a, set x | x in b;
    assert sa <= sb;
    SubsetCard(sa, sb);
  }

  lemma {:induction false} SubsetCard<T>(a: set<T>, b: set<T>)
    requires a <= b
    ensures |a| <= |b|
    decreases |a|
  {
    if a != {} {
      var x :| x in a;
      SubsetCard(a - {x}, b - {x});
    }
  }

  lemma AppendEmpty<T>(a: seq<T>)
    ensures a + [] == a
  {
  }

  lemma AppendAssoc<T>(a: seq<T>, b: seq<T>, c: seq<T>)
    ensures (a + b) + c == a + (b + c)
  {
  }

  lemma WholePrefix<T>(s: seq<T>)
    ensures s[..|s|] == s
  {
  }
}
