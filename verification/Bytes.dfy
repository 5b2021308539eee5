// Bytes, keys and the few facts about sequences and finite sets that the
// other modules share.
module Bytes {

  type Byte = b: int | 0 <= b < 256

  // The half-open range kb..ke that the tree functions take.
  type Key = seq<Byte>

  // device, block
  type BlockKey = (nat, nat)

  datatype Option<+T> = None | Some(value: T)

  ghost predicate NoDup<T>(s: seq<T>) {
    forall i, j :: 0 <= i < j < |s| ==> s[i] != s[j]
  }

  ghost function Elems<T(!new)>(s: seq<T>): (r: set<T>)
    ensures forall x :: x in r <==> x in s
    ensures |r| <= |s|
    ensures NoDup(s) ==> |r| == |s|
  {
    if s == [] then {}
    else
      assert s == s[..|s| - 1] + [s[|s| - 1]];
      Elems(s[..|s| - 1]) + {s[|s| - 1]}
  }

  /** s without x. */
  function Without<T(==)>(s: seq<T>, x: T): seq<T> {
    if s == [] then []
    else if s[|s| - 1] == x then Without(s[..|s| - 1], x)
    else Without(s[..|s| - 1], x) + [s[|s| - 1]]
  }

  lemma WithoutIs<T>(s: seq<T>, x: T)
    ensures forall y | y in Without(s, x) :: y in s && y != x
    ensures forall y | y in s :: y != x ==> y in Without(s, x)
    ensures NoDup(s) ==> NoDup(Without(s, x))
    ensures x !in s ==> Without(s, x) == s
    ensures x in s && NoDup(s) ==> |Without(s, x)| == |s| - 1
  {
    if s != [] {
      var init := s[..|s| - 1];
      assert s == init + [s[|s| - 1]];
      WithoutIs(init, x);
      if NoDup(s) {
        assert s[|s| - 1] !in init;
        assert NoDup(init);
        assert forall y | y in Without(init, x) :: y in init;
      }
    }
  }

  lemma {:induction false} WithoutAt<T>(s: seq<T>, i: nat)
    requires NoDup(s) && i < |s|
    ensures Without(s, s[i]) == s[..i] + s[i + 1..]
  {
    var init := s[..|s| - 1];
    assert s == init + [s[|s| - 1]];
    if i == |s| - 1 {
      WithoutIs(init, s[i]);
    } else {
      WithoutAt(init, i);
      assert s[i + 1..] == init[i + 1..] + [s[|s| - 1]];
    }
  }

  lemma WithoutOne<T>(s: seq<T>, x: T)
    requires NoDup(s) && x in s
    ensures |Without(s, x)| == |s| - 1
  {
    WithoutIs(s, x);
  }

  lemma AheadOnce<T>(s: seq<T>, i: nat)
    requires NoDup(s) && i < |s|
    ensures forall j :: i < j < |s| ==> s[j] != s[i]
    ensures forall x | x in s[i..] :: x in s[i + 1..] || x == s[i]
  {
  }

  lemma WithoutTwice<T>(s: seq<T>, x: T)
    ensures Without(Without(s, x) + [x], x) == Without(s, x)
  {
    WithoutIs(s, x);
    WithoutIs(Without(s, x), x);
    assert (Without(s, x) + [x])[..|Without(s, x)|] == Without(s, x);
  }

  lemma JoinNoDup<T>(s: seq<T>, t: seq<T>)
    requires NoDup(s) && NoDup(t) && forall x | x in s :: x !in t
    ensures NoDup(s + t)
    ensures forall x | x in s + t :: x in s || x in t
  {
    forall i, j | 0 <= i < j < |s + t| ensures (s + t)[i] != (s + t)[j] {
      assert i < |s| ==> (s + t)[i] in s;
      assert j >= |s| ==> (s + t)[j] in t;
    }
  }

  /** The numbers below n. */
  ghost function Below(n: nat): (r: set<int>)
    ensures forall x :: x in r <==> 0 <= x < n
    ensures |r| == n
  {
    if n == 0 then {} else Below(n - 1) + {n - 1}
  }

  /** A duplicate-free listing of 0..n-1 has length n. */
  lemma PermutationLength(s: seq<int>, n: nat)
    requires NoDup(s)
    requires forall x :: x in s <==> 0 <= x < n
    ensures |s| == n
  {
    assert Elems(s) == Below(n);
  }

  lemma PrefixSlice<T>(p: seq<T>, k: seq<T>)
    requires p <= k
    ensures k == p + k[|p|..]
  {
  }
}
