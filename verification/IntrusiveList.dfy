// base/data-struct/list.c: circular doubly linked lists threaded through their
// elements.
module IntrusiveList {
  import opened Bytes

  class Link {
    var n: Link
    var p: Link

    /** list_init */
    constructor ()
      ensures n == this && p == this && IsRing([this])
    {
      n, p := this, this;
    }
  }

  // The links of c, each pointing to the next and back, and the last to the first.
  ghost predicate IsRing(c: seq<Link>)
    reads c
  {
    && c != [] && NoDup(c)
    && (forall i, j :: 0 <= i < j < |c| && j == i + 1 ==> c[i].n == c[j] && c[j].p == c[i])
    && c[|c| - 1].n == c[0] && c[0].p == c[|c| - 1]
  }

  /** The list with this head holds the elements s, in order. */
  ghost predicate IsList(head: Link, s: seq<Link>)
    reads [head] + s
  {
    IsRing([head] + s)
  }

  /** list_add: elem goes before head, so at the end of head's list. */
  method Add(head: Link, elem: Link, ghost s: seq<Link>)
    requires IsList(head, s) && elem !in [head] + s
    modifies elem, head`p, head.p`n
    ensures IsList(head, s + [elem])
  {
    ghost var c := [head] + s;
    assert head.p == c[|c| - 1];
    elem.n := head;
    elem.p := head.p;
    head.p.n := elem;
    head.p := elem;
    assert [head] + (s + [elem]) == c + [elem];
  }

  /** list_add_h: elem goes to the front. */
  method AddH(head: Link, elem: Link, ghost s: seq<Link>)
    requires IsList(head, s) && elem !in [head] + s
    modifies elem, head`n, head.n`p
    ensures IsList(head, [elem] + s)
  {
    ghost var c := [head] + s;
    assert s != [] ==> c[1] == s[0] == head.n;
    elem.n := head.n;
    elem.p := head;
    head.n.p := elem;
    head.n := elem;
    ghost var d := [head] + ([elem] + s);
    assert d[0] == head && d[1] == elem && forall i :: 2 <= i < |d| ==> d[i] == c[i - 1];
  }

  /** list_del: the neighbours meet, and elem keeps its own pointers. */
  method Del(elem: Link, ghost head: Link, ghost s: seq<Link>, ghost i: nat)
    requires IsList(head, s) && i < |s| && elem == s[i]
    modifies elem.n`p, elem.p`n
    ensures IsList(head, s[..i] + s[i + 1..])
    ensures elem.n == old(elem.n) && elem.p == old(elem.p)
    ensures elem.n.p == elem.p && elem.p.n == elem.n
  {
    ghost var c := [head] + s;
    assert c[i + 1] == elem && elem.p == c[i] && elem.n == if i + 2 < |c| then c[i + 2] else head;
    elem.n.p := elem.p;
    elem.p.n := elem.n;
    ghost var d := [head] + (s[..i] + s[i + 1..]);
    assert forall j :: 0 <= j <= i ==> d[j] == c[j];
    assert forall j :: i < j < |d| ==> d[j] == c[j + 1];
  }

  /** Deleting an element again does nothing, exactly while its old neighbours
      are still each other's. */
  method DelAgain(elem: Link)
    requires elem.n != elem && elem.p != elem
    modifies elem.n`p, elem.p`n
    ensures old(elem.n.p == elem.p && elem.p.n == elem.n) <==> forall l :: l in {elem, elem.n, elem.p} ==>
      l.n == old(l.n) && l.p == old(l.p)
    ensures elem.n.p == elem.p && elem.p.n == elem.n
  {
    elem.n.p := elem.p;
    elem.p.n := elem.n;
  }

  /** list_move, from one list to the end of another. */
  method Move(head: Link, elem: Link, ghost s: seq<Link>, ghost from: Link, ghost t: seq<Link>, ghost i: nat)
    requires IsList(head, s) && IsList(from, t) && i < |t| && elem == t[i]
    requires forall l :: l in [head] + s ==> l !in [from] + t
    modifies elem, elem.n`p, elem.p`n, head`p, head.p`n
    ensures IsList(head, s + [elem]) && IsList(from, t[..i] + t[i + 1..])
    ensures multiset(s + [elem]) + multiset(t[..i] + t[i + 1..]) == multiset(s) + multiset(t)
  {
    hide IsRing;
    ghost var c := [from] + t;
    assert c[i + 1] == elem && elem in c;
    Neighbours(c, i + 1);
    ghost var rest := t[..i] + t[i + 1..];
    assert [from] + rest == c[..i + 1] + c[i + 2..];
    Unlisted(c, i + 1, [from] + rest);
    assert forall l :: l in [head] + s ==> l != elem.n && l != elem.p;
    Del(elem, from, t, i);
    Neighbours([head] + s, 0);
    assert ([head] + s)[0] == head && head in [head] + s;
    Add(head, elem, s);
    assert t == t[..i] + [elem] + t[i + 1..];
  }

  /** list_move within a list: elem goes to the end. */
  method MoveToEnd(head: Link, elem: Link, ghost s: seq<Link>, ghost i: nat)
    requires IsList(head, s) && i < |s| && elem == s[i]
    modifies elem, elem.n`p, elem.p`n, head`p, s
    ensures IsList(head, s[..i] + s[i + 1..] + [elem])
    ensures multiset(s[..i] + s[i + 1..] + [elem]) == multiset(s)
  {
    ghost var c := [head] + s;
    assert c[i + 1] == elem;
    Neighbours(c, i + 1);
    ghost var rest := s[..i] + s[i + 1..];
    Unlisted(c, i + 1, [head] + rest);
    Del(elem, head, s, i);
    ghost var d := [head] + rest;
    assert head.p == d[|d| - 1];
    Add(head, elem, rest);
    assert s == s[..i] + [elem] + s[i + 1..];
  }

  // What is left of c without its element i does not hold that element.
  lemma Unlisted(c: seq<Link>, i: nat, d: seq<Link>)
    requires IsRing(c) && i < |c| && d == c[..i] + c[i + 1..]
    ensures c[i] !in d && forall l :: l in d ==> l in c
  {
  }

  lemma Neighbours(c: seq<Link>, i: nat)
    requires IsRing(c) && i < |c|
    ensures c[i].n in c && c[i].p in c
    ensures |c| > 1 ==> c[i].n != c[i] && c[i].p != c[i]
  {
    assert i < |c| - 1 ==> c[i].n == c[i + 1];
    assert i > 0 ==> c[i - 1].n == c[i - 1 + 1];
  }

  // The assignments of list_splice.
  method Join(head: Link, head1: Link)
    requires head1 !in {head, head.p, head1.p, head1.n} && head.p != head1.p && head != head1.n
    modifies head`p, head.p`n, head1, head1.n`p, head1.p`n
    ensures old(head1.p).n == head && old(head1.n).p == old(head.p)
    ensures old(head.p).n == old(head1.n) && head.p == old(head1.p)
    ensures head1.n == head1 && head1.p == head1
  {
    head1.p.n := head;
    head1.n.p := head.p;
    head.p.n := head1.n;
    head.p := head1.p;
    head1.n, head1.p := head1, head1;
  }

  // The links of c, each pointing to the next and back.
  ghost predicate IsChain(c: seq<Link>)
    reads c
  {
    NoDup(c) && forall i, j :: 0 <= i < j < |c| && j == i + 1 ==> c[i].n == c[j] && c[j].p == c[i]
  }

  lemma RingIsChain(head: Link, s: seq<Link>)
    requires IsList(head, s)
    ensures IsChain([head] + s) && IsChain(s)
    ensures if s == [] then head.n == head && head.p == head else head.n == s[0] && head.p == s[|s| - 1] && head.n != head
  {
    var c := [head] + s;
    assert forall i :: 0 <= i < |s| ==> s[i] == c[i + 1];
    assert s != [] ==> c[0].n == c[1] && c[1] != c[0];
  }

  // Two chains, joined at both ends.
  lemma ChainsJoin(c: seq<Link>, t: seq<Link>)
    requires IsChain(c) && IsChain(t) && c != [] && t != [] && forall l :: l in c ==> l !in t
    requires c[|c| - 1].n == t[0] && t[0].p == c[|c| - 1]
    requires t[|t| - 1].n == c[0] && c[0].p == t[|t| - 1]
    ensures IsRing(c + t)
  {
    JoinNoDup(c, t);
    var d := c + t;
    forall i, j | 0 <= i < j < |d| && j == i + 1 ensures d[i].n == d[j] && d[j].p == d[i] {
      if j < |c| {
        assert d[i] == c[i] && d[j] == c[j];
      } else if i >= |c| {
        assert d[i] == t[i - |c|] && d[j] == t[j - |c|];
      }
    }
  }

  // Assignments at the outer ends of a chain.
  twostate lemma ChainKept(c: seq<Link>)
    requires old(IsChain(c))
    requires forall i :: 0 <= i < |c| - 1 ==> c[i].n == old(c[i].n)
    requires forall i :: 0 < i < |c| ==> c[i].p == old(c[i].p)
    ensures IsChain(c)
  {
  }

  /** list_splice: all of head1's elements go to the end of head's list. */
  method Splice(head: Link, head1: Link, ghost s: seq<Link>, ghost t: seq<Link>)
    requires IsList(head, s) && IsList(head1, t)
    requires forall l :: l in [head] + s ==> l !in [head1] + t
    modifies head`p, head.p`n, head1, head1.n`p, head1.p`n
    ensures IsList(head, s + t) && IsList(head1, [])
  {
    hide IsRing, IsChain;
    ghost var c := [head] + s;
    RingIsChain(head, s);
    RingIsChain(head1, t);
    assert [head1] + [] == [head1];
    if head1.n == head1 {
      assert s + t == s;
      return;
    }
    assert [head] + (s + t) == c + t && head1 in [head1] + t;
    assert forall i :: 0 <= i < |c| ==> c[i] in [head] + s;
    assert forall i :: 0 <= i < |t| ==> t[i] in [head1] + t;
    Ends(head, s);
    Ends(head1, t);
    Join(head, head1);
    ChainKept(c);
    ChainKept(t);
    ChainsJoin(c, t);
    RingOfOne(head1);
  }

  lemma RingOfOne(l: Link)
    requires l.n == l && l.p == l
    ensures IsRing([l])
  {
  }

  // The ends of a list are met once.
  lemma Ends(head: Link, s: seq<Link>)
    requires IsList(head, s)
    ensures head !in s && ([head] + s)[|s|] == head.p
    ensures forall i :: 0 <= i < |s| - 1 ==> s[i] != s[|s| - 1]
    ensures forall i :: 0 < i < |s| ==> s[i] != s[0]
    ensures forall i :: 0 <= i < |s| ==> ([head] + s)[i] != ([head] + s)[|s|]
  {
    var c := [head] + s;
    assert forall i :: 0 <= i < |s| ==> s[i] == c[i + 1];
  }

  /** list_size */
  method Size(head: Link, ghost s: seq<Link>) returns (n: nat)
    requires IsList(head, s)
    ensures n == |s|
  {
    ghost var c := [head] + s;
    n := 0;
    var v := head.n;
    assert s != [] ==> head.n == c[1];
    assert forall j :: 0 < j < |c| ==> c[j] != c[0];
    while v != head
      invariant n <= |s| && v == if n < |s| then c[n + 1] else head
      decreases |s| - n
    {
      assert n < |s|;
      assert n + 1 < |s| ==> c[n + 1].n == c[n + 2];
      v := v.n;
      n := n + 1;
    }
  }

  /** list_iterate visits one sequence of elements, whoever describes the list. */
  lemma ListIsUnique(head: Link, s: seq<Link>, t: seq<Link>)
    requires IsList(head, s) && IsList(head, t)
    ensures s == t
  {
    WalksAgree(head, s, t, |s|);
    WalksAgree(head, t, s, |t|);
    assert s[..|s|] == s && t[..|t|] == t;
  }

  lemma {:induction false} WalksAgree(head: Link, s: seq<Link>, t: seq<Link>, k: nat)
    requires IsList(head, s) && IsList(head, t) && k <= |s|
    ensures k <= |t| && s[..k] == t[..k]
  {
    if k > 0 {
      WalksAgree(head, s, t, k - 1);
      var c, d := [head] + s, [head] + t;
      assert c[k - 1] == d[k - 1] by {
        assert k > 1 ==> s[..k - 1][k - 2] == t[..k - 1][k - 2];
      }
      assert c[k] == c[k - 1].n;
      assert d[k - 1].n == if k - 1 < |t| then d[k] else head;
      assert c[k] != c[0];
    }
  }
}
