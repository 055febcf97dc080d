/** Sequence vocabulary shared by the whole model: "first occurrence wins"
    deduplication (the `some(...)`-then-`push` loops of the source) and the
    order-preserving subsequence relation. */
module Seqs {

  function Last<T>(s: seq<T>): T
    requires |s| > 0
  {
    s[|s| - 1]
  }

  function DropLast<T>(s: seq<T>): seq<T>
    requires |s| > 0
  {
    s[..|s| - 1]
  }

  predicate NoDuplicates<T(==)>(s: seq<T>) {
    forall i, j :: 0 <= i < j < |s| ==> s[i] != s[j]
  }

  /** `acc` followed, in order, by every element of `s` that is not already
      present at the moment it is reached: the loop
      `for x of s: if (!acc.some(y => y === x)) acc.push(x)`. */
  function AppendNew<T(==)>(acc: seq<T>, s: seq<T>): seq<T>
    decreases |s|
  {
    if s == [] then acc
    else
      var p := AppendNew(acc, DropLast(s));
      if Last(s) in p then p else p + [Last(s)]
  }

  /** The distinct elements of `s` in the order of their first occurrence. */
  function Distinct<T(==)>(s: seq<T>): seq<T> {
    AppendNew([], s)
  }

  /** `a` can be obtained from `b` by deleting elements: the last element of
      `b` is either matched by the last element of `a` or skipped. */
  predicate IsSubsequence<T(==)>(a: seq<T>, b: seq<T>)
    decreases |b|
  {
    a == [] ||
    (b != [] &&
     ((Last(a) == Last(b) && IsSubsequence(DropLast(a), DropLast(b))) ||
      IsSubsequence(a, DropLast(b))))
  }

  /** One more step of the dedup loop. */
  lemma AppendNewSnoc<T>(acc: seq<T>, s: seq<T>, x: T)
    ensures AppendNew(acc, s + [x]) ==
            (var p := AppendNew(acc, s); if x in p then p else p + [x])
  {
    assert DropLast(s + [x]) == s;
  }

  /** The accumulated list keeps what it started with, as a prefix. */
  lemma {:induction false} AppendNewKeepsPrefix<T>(acc: seq<T>, s: seq<T>, t: seq<T>)
    ensures var p := AppendNew(acc, s);
            var q := AppendNew(acc, s + t);
            |p| <= |q| && q[..|p|] == p
    decreases |t|
  {
    if t == [] {
      assert s + t == s;
    } else {
      AppendNewKeepsPrefix(acc, s, DropLast(t));
      assert s + t == (s + DropLast(t)) + [Last(t)];
      AppendNewSnoc(acc, s + DropLast(t), Last(t));
    }
  }

  /** Deduplicating a longer input only appends to the result. */
  lemma DistinctPrefix<T>(s: seq<T>, t: seq<T>)
    ensures |Distinct(s)| <= |Distinct(s + t)|
    ensures Distinct(s + t)[..|Distinct(s)|] == Distinct(s)
  {
    AppendNewKeepsPrefix([], s, t);
  }

  /** Nothing is invented and nothing is lost, only repeats are dropped. */
  lemma {:induction false} AppendNewMembers<T>(acc: seq<T>, s: seq<T>)
    ensures forall x :: x in AppendNew(acc, s) <==> x in acc || x in s
    decreases |s|
  {
    if s != [] {
      AppendNewMembers(acc, DropLast(s));
      assert s == DropLast(s) + [Last(s)];
    }
  }

  lemma {:induction false} AppendNewNoDuplicates<T>(acc: seq<T>, s: seq<T>)
    requires NoDuplicates(acc)
    ensures NoDuplicates(AppendNew(acc, s))
    decreases |s|
  {
    if s != [] {
      AppendNewNoDuplicates(acc, DropLast(s));
    }
  }

  lemma {:induction false} SubsequenceRefl<T>(a: seq<T>)
    ensures IsSubsequence(a, a)
    decreases |a|
  {
    if a != [] {
      SubsequenceRefl(DropLast(a));
    }
  }

  lemma SubsequenceSkip<T>(a: seq<T>, b: seq<T>, x: T)
    requires IsSubsequence(a, b)
    ensures IsSubsequence(a, b + [x])
  {
    assert DropLast(b + [x]) == b;
  }

  lemma SubsequenceTake<T>(a: seq<T>, b: seq<T>, x: T)
    requires IsSubsequence(a, b)
    ensures IsSubsequence(a + [x], b + [x])
  {
    assert DropLast(b + [x]) == b;
    assert DropLast(a + [x]) == a;
  }

  /** The deduplicated list is an order-preserving selection of `acc + s`. */
  lemma {:induction false} AppendNewSubsequence<T>(acc: seq<T>, s: seq<T>)
    ensures IsSubsequence(AppendNew(acc, s), acc + s)
    decreases |s|
  {
    if s == [] {
      SubsequenceRefl(acc);
      assert acc + s == acc;
    } else {
      var p := AppendNew(acc, DropLast(s));
      AppendNewSubsequence(acc, DropLast(s));
      assert acc + s == (acc + DropLast(s)) + [Last(s)];
      if Last(s) in p {
        SubsequenceSkip(p, acc + DropLast(s), Last(s));
      } else {
        SubsequenceTake(p, acc + DropLast(s), Last(s));
      }
    }
  }

  /** The three facts callers of `Distinct` rely on. */
  lemma DistinctProperties<T>(s: seq<T>)
    ensures NoDuplicates(Distinct(s))
    ensures forall x :: x in Distinct(s) <==> x in s
    ensures IsSubsequence(Distinct(s), s)
  {
    AppendNewNoDuplicates([], s);
    AppendNewMembers([], s);
    AppendNewSubsequence([], s);
    assert [] + s == s;
  }

  /** The position of the first occurrence of `x` in `s`. */
  function FirstIndex<T(==)>(s: seq<T>, x: T): (k: nat)
    requires x in s
    ensures k < |s| && s[k] == x
    ensures forall j :: 0 <= j < k ==> s[j] != x
    decreases |s|
  {
    if s[0] == x then 0 else 1 + FirstIndex(s[1..], x)
  }

  /** Appending to `s` does not move a first occurrence inside `s`. */
  lemma FirstIndexSnoc<T>(s: seq<T>, x: T, y: T)
    requires y in s
    ensures FirstIndex(s + [x], y) == FirstIndex(s, y)
  {
    var k := FirstIndex(s, y);
    assert (s + [x])[k] == y;
  }

  /** A new element first occurs where it is appended. */
  lemma FirstIndexNew<T>(s: seq<T>, x: T)
    requires x !in s
    ensures FirstIndex(s + [x], x) == |s|
  {
    assert (s + [x])[|s|] == x;
  }

  /** The elements of `d` occur in `s`, and their first occurrences come
      in the order of `d`. */
  predicate FirstSeenOrdered<T(==)>(d: seq<T>, s: seq<T>) {
    forall i, j :: 0 <= i < j < |d| ==>
      && d[i] in s && d[j] in s
      && FirstIndex(s, d[i]) < FirstIndex(s, d[j])
  }

  lemma DistinctOrderStep<T>(r: seq<T>, x: T)
    requires FirstSeenOrdered(Distinct(r), r)
    ensures FirstSeenOrdered(Distinct(r + [x]), r + [x])
  {
    var s := r + [x];
    var d, e := Distinct(r), Distinct(s);
    assert DropLast(s) == r && Last(s) == x;
    DistinctProperties(r);
    if x !in d {
      FirstIndexNew(r, x);
      assert e == d + [x];
    } else {
      assert e == d;
    }
    forall i, j | 0 <= i < j < |e|
      ensures e[i] in s && e[j] in s && FirstIndex(s, e[i]) < FirstIndex(s, e[j])
    {
      assert e[i] == d[i] && d[i] in d;
      assert d[i] in r;
      FirstIndexSnoc(r, x, d[i]);
      if j < |d| {
        assert e[j] == d[j] && d[j] in d;
        assert d[j] in r;
        FirstIndexSnoc(r, x, d[j]);
      } else {
        assert e[j] == x && s[|r|] == x;
      }
    }
  }

  /** `Distinct` lists the elements in the order of their first
      occurrences; with `DistinctProperties` this determines it. */
  lemma {:induction false} DistinctFirstSeenOrder<T>(s: seq<T>)
    ensures FirstSeenOrdered(Distinct(s), s)
    decreases |s|
  {
    if s != [] {
      DistinctFirstSeenOrder(DropLast(s));
      assert s == DropLast(s) + [Last(s)];
      DistinctOrderStep(DropLast(s), Last(s));
    } else {
      assert Distinct(s) == [];
    }
  }

  /** For `[1, 2, 1]` the first `1` is the one kept, so the result is not
      `[2, 1]`, which also has no repeats, the same members, and is a
      subsequence of the input. */
  lemma DistinctKeepsFirst()
    ensures Distinct([1, 2, 1]) == [1, 2]
  {
    assert DropLast([1, 2, 1]) == [1, 2] && Last([1, 2, 1]) == 1;
    assert DropLast([1, 2]) == [1] && Last([1, 2]) == 2;
    assert DropLast([1]) == [] && Last([1]) == 1;
    assert AppendNew([], [1]) == [1];
    assert AppendNew([], [1, 2]) == [1, 2];
  }

  lemma {:induction false} SubsequenceDropLast<T>(a: seq<T>, b: seq<T>)
    requires a != [] && IsSubsequence(a, b)
    ensures IsSubsequence(DropLast(a), b)
    decreases |b|
  {
    if DropLast(a) != [] {
      if Last(a) == Last(b) && IsSubsequence(DropLast(a), DropLast(b)) {
      } else {
        SubsequenceDropLast(a, DropLast(b));
      }
    }
  }

  /** A prefix of a subsequence is a subsequence. */
  lemma {:induction false} SubsequencePrefix<T>(a: seq<T>, b: seq<T>, k: nat)
    requires k <= |a| && IsSubsequence(a, b)
    ensures IsSubsequence(a[..k], b)
    decreases |a| - k
  {
    if k < |a| {
      assert a[..k + 1] != [];
      SubsequencePrefix(a, b, k + 1);
      SubsequenceDropLast(a[..k + 1], b);
      assert DropLast(a[..k + 1]) == a[..k];
    } else {
      assert a[..k] == a;
    }
  }
}
