/** Sequences of real numbers as the transfer-function model uses them:
    descending sort, element removal, sums, and the scans for positive
    values that drive the special rule. */
module RealSeq {

  function Abs(x: real): (r: real)
    ensures r >= 0.0
    ensures r == x || r == -x
  {
    if x < 0.0 then -x else x
  }

  function Min(a: real, b: real): (m: real)
    ensures m <= a && m <= b
    ensures m == a || m == b
  {
    if a <= b then a else b
  }

  /* ---------------------------------------------------------------------
     Sums
     --------------------------------------------------------------------- */

  function Sum(s: seq<real>): real
  {
    if |s| == 0 then 0.0 else s[0] + Sum(s[1..])
  }

  /** Sum of absolute values: how much a list of zeros adds to a delay. */
  function SumAbs(s: seq<real>): (r: real)
    ensures r >= 0.0
  {
    if |s| == 0 then 0.0 else Abs(s[0]) + SumAbs(s[1..])
  }

  predicate AllNonNegative(s: seq<real>)
  {
    forall i :: 0 <= i < |s| ==> s[i] >= 0.0
  }

  predicate AllPositive(s: seq<real>)
  {
    forall i :: 0 <= i < |s| ==> s[i] > 0.0
  }

  lemma {:induction false} SumNonNegative(s: seq<real>)
    requires AllNonNegative(s)
    ensures Sum(s) >= 0.0
  {
    if |s| > 0 {
      SumNonNegative(s[1..]);
    }
  }

  /* ---------------------------------------------------------------------
     Removal by index (java.util.List.remove(int))
     --------------------------------------------------------------------- */

  predicate SortedDesc(s: seq<real>)
  {
    forall i, j :: 0 <= i < j < |s| ==> s[i] >= s[j]
  }

  /** Deletes element i and shifts the rest left. */
  function RemoveAt(s: seq<real>, i: nat): (r: seq<real>)
    requires i < |s|
    ensures |r| == |s| - 1
    ensures r[..i] == s[..i]
    ensures r[i..] == s[i + 1..]
    ensures multiset(r) == multiset(s) - multiset{s[i]}
    ensures SortedDesc(s) ==> SortedDesc(r)
  {
    assert s == s[..i] + [s[i]] + s[i + 1..];
    s[..i] + s[i + 1..]
  }

  lemma AllPositiveRemoveAt(s: seq<real>, i: nat)
    requires i < |s| && AllPositive(s)
    ensures AllPositive(RemoveAt(s, i))
  {
    var r := RemoveAt(s, i);
    forall k | 0 <= k < |r|
      ensures r[k] > 0.0
    {
      assert r[k] in multiset(r);
      assert r[k] in multiset(s);
      assert r[k] in s;
    }
  }

  /* ---------------------------------------------------------------------
     Descending sort (Collections.sort followed by Collections.reverse)
     --------------------------------------------------------------------- */

  function InsertDesc(x: real, s: seq<real>): (r: seq<real>)
    requires SortedDesc(s)
    ensures SortedDesc(r)
    ensures multiset(r) == multiset(s) + multiset{x}
    ensures r[0] == x || (|s| > 0 && r[0] == s[0])
  {
    if |s| == 0 then [x]
    else if x >= s[0] then [x] + s
    else
      var rest := InsertDesc(x, s[1..]);
      assert s == [s[0]] + s[1..];
      ConsSorted(s[0], rest);
      [s[0]] + rest
  }

  /** A head no smaller than the first element keeps a descending list
      descending. */
  lemma ConsSorted(h: real, t: seq<real>)
    requires SortedDesc(t) && (|t| > 0 ==> h >= t[0])
    ensures SortedDesc([h] + t)
  {
  }

  function SortDesc(s: seq<real>): (r: seq<real>)
    ensures SortedDesc(r)
    ensures multiset(r) == multiset(s)
  {
    if |s| == 0 then []
    else
      assert s == [s[0]] + s[1..];
      InsertDesc(s[0], SortDesc(s[1..]))
  }

  /** The head of a descending list bounds every element of it. */
  lemma HeadIsMax(s: seq<real>, x: real)
    requires SortedDesc(s) && x in multiset(s)
    ensures |s| > 0 && s[0] >= x
  {
    assert x in s;
    var i :| 0 <= i < |s| && s[i] == x;
    assert s[0] >= s[i];
  }

  /** Two descending lists with the same elements start with the same
      (largest) element. */
  lemma SameHead(a: seq<real>, b: seq<real>)
    requires SortedDesc(a) && SortedDesc(b)
    requires multiset(a) == multiset(b) && |a| > 0
    ensures |b| > 0 && a[0] == b[0]
  {
    assert a[0] in a;
    HeadIsMax(b, a[0]);
    assert b[0] in b;
    HeadIsMax(a, b[0]);
  }

  /** A descending-sorted sequence is determined by its multiset, so every
      correct sort yields the same list as SortDesc. */
  lemma {:induction false} SortedDescUnique(a: seq<real>, b: seq<real>)
    requires SortedDesc(a) && SortedDesc(b)
    requires multiset(a) == multiset(b)
    ensures a == b
    decreases |a|
  {
    if |a| == 0 {
      assert |b| == |multiset(b)|;
    } else {
      SameHead(a, b);
      HeadTail(a);
      HeadTail(b);
      SortedDescUnique(a[1..], b[1..]);
      assert a == [a[0]] + a[1..];
      assert b == [b[0]] + b[1..];
    }
  }

  lemma HeadTail(s: seq<real>)
    requires SortedDesc(s) && |s| > 0
    ensures SortedDesc(s[1..])
    ensures multiset(s[1..]) == multiset(s) - multiset{s[0]}
  {
    assert s == [s[0]] + s[1..];
  }

  /* ---------------------------------------------------------------------
     Positive values
     --------------------------------------------------------------------- */

  predicate HasPositive(s: seq<real>)
  {
    exists i :: 0 <= i < |s| && s[i] > 0.0
  }

  /** Index of the first strictly positive element, |s| when there is none. */
  function FirstPositive(s: seq<real>): (i: nat)
    ensures i <= |s|
    ensures forall k :: 0 <= k < i ==> s[k] <= 0.0
    ensures i < |s| ==> s[i] > 0.0
    ensures i < |s| <==> HasPositive(s)
  {
    if |s| == 0 then 0
    else if s[0] > 0.0 then 0
    else 1 + FirstPositive(s[1..])
  }

  /** In a descending list the positive values come first. */
  lemma FirstPositiveOfSorted(s: seq<real>)
    requires SortedDesc(s) && HasPositive(s)
    ensures FirstPositive(s) == 0
  {
    var i :| 0 <= i < |s| && s[i] > 0.0;
    assert s[0] >= s[i];
  }

  lemma HasPositivePermutation(s: seq<real>, t: seq<real>)
    requires multiset(s) == multiset(t)
    ensures HasPositive(s) <==> HasPositive(t)
  {
    if HasPositive(s) {
      var i :| 0 <= i < |s| && s[i] > 0.0;
      assert s[i] in multiset(t);
    }
    if HasPositive(t) {
      var i :| 0 <= i < |t| && t[i] > 0.0;
      assert t[i] in multiset(s);
    }
  }

  function CountPositive(s: seq<real>): (n: nat)
    ensures n <= |s|
  {
    if |s| == 0 then 0
    else (if s[0] > 0.0 then 1 else 0) + CountPositive(s[1..])
  }

  /** The non-positive elements of s, in their original order. */
  function NonPositive(s: seq<real>): seq<real>
  {
    if |s| == 0 then []
    else (if s[0] > 0.0 then [] else [s[0]]) + NonPositive(s[1..])
  }

  lemma RemoveAtCons(h: real, t: seq<real>, i: nat)
    requires i < |t|
    ensures RemoveAt([h] + t, i + 1) == [h] + RemoveAt(t, i)
  {
    assert ([h] + t)[..i + 1] == [h] + t[..i];
    assert ([h] + t)[i + 2..] == t[i + 1..];
  }

  /** Removing the first positive element removes one positive element and
      leaves the non-positive ones, in order, where they were. */
  lemma {:induction false} RemoveFirstPositive(s: seq<real>)
    requires HasPositive(s)
    ensures CountPositive(RemoveAt(s, FirstPositive(s))) == CountPositive(s) - 1
    ensures NonPositive(RemoveAt(s, FirstPositive(s))) == NonPositive(s)
  {
    var i := FirstPositive(s);
    var t := s[1..];
    assert s == [s[0]] + t;
    if i == 0 {
      assert RemoveAt(s, 0) == t;
    } else {
      assert s[0] <= 0.0;
      assert t[i - 1] == s[i];
      assert FirstPositive(t) == i - 1;
      RemoveFirstPositive(t);
      RemoveAtCons(s[0], t, i - 1);
      var r := RemoveAt(s, i);
      assert r[0] == s[0];
      assert r[1..] == RemoveAt(t, i - 1);
    }
  }

  lemma {:induction false} NoPositiveCount(s: seq<real>)
    requires !HasPositive(s)
    ensures CountPositive(s) == 0
    ensures NonPositive(s) == s
  {
    if |s| > 0 {
      assert s[0] <= 0.0;
      NoPositiveCount(s[1..]);
      assert s == [s[0]] + s[1..];
    }
  }

  lemma {:induction false} HasPositiveCount(s: seq<real>)
    requires HasPositive(s)
    ensures CountPositive(s) >= 1
  {
    if s[0] <= 0.0 {
      var k :| 0 <= k < |s| && s[k] > 0.0;
      assert s[1..][k - 1] > 0.0;
      HasPositiveCount(s[1..]);
    }
  }
}
