// The lists of blocks, as sequences, and the place of each block.
module BlockLists {
  import opened Bytes
  import opened CacheState

  lemma WithoutHead(s: seq<Block>)
    requires NoDup(s) && s != []
    ensures Without(s, s[0]) == s[1..] && Without(s[1..], s[0]) == s[1..]
  {
    WithoutIs(s[1..], s[0]);
    WithoutJoins([s[0]], s[1..], s[0]);
    assert s == [s[0]] + s[1..];
  }

  lemma {:induction false} WithoutJoins(s: seq<Block>, t: seq<Block>, x: Block)
    ensures Without(s + t, x) == Without(s, x) + Without(t, x)
  {
    if t == [] {
      assert s + t == s;
    } else {
      var init := t[..|t| - 1];
      assert (s + t)[..|s + t| - 1] == s + init;
      WithoutJoins(s, init, x);
    }
  }

  // s lists the blocks whose place is p, each once.
  ghost predicate ListIs(s: seq<Block>, p: Place, at: map<Block, Place>) {
    NoDup(s) && (forall b | b in s :: b in at && at[b] == p) && (forall b | b in at :: at[b] == p ==> b in s)
  }

  lemma Unlinked(s: seq<Block>, p: Place, at: map<Block, Place>, b: Block, to: Place)
    requires b in at && ListIs(s, p, at) && to != p
    ensures ListIs(Without(s, b), p, at[b := to])
    ensures |Without(s, b)| == |s| - if at[b] == p then 1 else 0
    ensures at[b] != p ==> Without(s, b) == s
  {
    WithoutIs(s, b);
  }

  lemma Linked(s: seq<Block>, p: Place, at: map<Block, Place>, b: Block, to: Place)
    requires b in at && ListIs(s, p, at) && at[b] != p
    ensures ListIs(if to == p then s + [b] else s, p, at[b := to])
  {
  }

  lemma Removed(free: seq<Block>, clean: seq<Block>, dirty: seq<Block>, errored: seq<Block>, pending: seq<Block>,
                at: map<Block, Place>, b: Block)
    requires b in at && IsIndexed(at[b])
    requires ListIs(free, Free, at) && ListIs(clean, Clean, at) && ListIs(dirty, Dirty, at)
    requires ListIs(errored, Errored, at) && ListIs(pending, Pending, at)
    ensures ListIs(free, Free, at[b := Loose])
    ensures ListIs(Without(clean, b), Clean, at[b := Loose]) && ListIs(Without(dirty, b), Dirty, at[b := Loose])
    ensures ListIs(Without(errored, b), Errored, at[b := Loose]) && ListIs(Without(pending, b), Pending, at[b := Loose])
    ensures at[b] != Clean ==> Without(clean, b) == clean
    ensures at[b] != Dirty ==> Without(dirty, b) == dirty
    ensures at[b] != Errored ==> Without(errored, b) == errored
    ensures if at[b] == Pending then |Without(pending, b)| == |pending| - 1 else Without(pending, b) == pending
  {
    hide ListIs, Without;
    Linked(free, Free, at, b, Loose);
    Unlinked(clean, Clean, at, b, Loose);
    Unlinked(dirty, Dirty, at, b, Loose);
    Unlinked(errored, Errored, at, b, Loose);
    Unlinked(pending, Pending, at, b, Loose);
  }

  lemma Moved(free: seq<Block>, clean: seq<Block>, dirty: seq<Block>, errored: seq<Block>, pending: seq<Block>,
              at: map<Block, Place>, b: Block, to: Place)
    requires b in at && at[b] in {Loose, Detached}
    requires ListIs(free, Free, at) && ListIs(clean, Clean, at) && ListIs(dirty, Dirty, at)
    requires ListIs(errored, Errored, at) && ListIs(pending, Pending, at)
    ensures ListIs(if to == Free then free + [b] else free, Free, at[b := to])
    ensures ListIs(if to == Clean then clean + [b] else clean, Clean, at[b := to])
    ensures ListIs(if to == Dirty then dirty + [b] else dirty, Dirty, at[b := to])
    ensures ListIs(if to == Errored then errored + [b] else errored, Errored, at[b := to])
    ensures ListIs(if to == Pending then pending + [b] else pending, Pending, at[b := to])
  {
    hide ListIs;
    Linked(free, Free, at, b, to);
    Linked(clean, Clean, at, b, to);
    Linked(dirty, Dirty, at, b, to);
    Linked(errored, Errored, at, b, to);
    Linked(pending, Pending, at, b, to);
  }

  lemma Popped(free: seq<Block>, clean: seq<Block>, dirty: seq<Block>, errored: seq<Block>, pending: seq<Block>,
               at: map<Block, Place>, b: Block)
    requires free != [] && b == free[0]
    requires ListIs(free, Free, at) && ListIs(clean, Clean, at) && ListIs(dirty, Dirty, at)
    requires ListIs(errored, Errored, at) && ListIs(pending, Pending, at)
    ensures ListIs(free[1..], Free, at[b := Detached])
    ensures ListIs(clean, Clean, at[b := Detached]) && ListIs(dirty, Dirty, at[b := Detached])
    ensures ListIs(errored, Errored, at[b := Detached]) && ListIs(pending, Pending, at[b := Detached])
  {
    assert b in free && free == [b] + free[1..];
  }

  // Five disjoint lists that hold every block.
  lemma OnLists(free: seq<Block>, clean: seq<Block>, dirty: seq<Block>, errored: seq<Block>, pending: seq<Block>,
                at: map<Block, Place>)
    requires ListIs(free, Free, at) && ListIs(clean, Clean, at) && ListIs(dirty, Dirty, at)
    requires ListIs(errored, Errored, at) && ListIs(pending, Pending, at)
    requires forall b :: b in at ==> at[b] != Loose && at[b] != Detached
    ensures NoDup(free + clean + dirty + errored + pending)
    ensures forall b | b in at :: b in free + clean + dirty + errored + pending
    ensures forall b | b in free + clean + dirty + errored + pending :: b in at
    ensures forall b :: b in at ==>
      (b in free <==> at[b] == Free) && (b in clean <==> at[b] == Clean) && (b in dirty <==> at[b] == Dirty)
    ensures forall b :: b in at ==> (b in errored <==> at[b] == Errored) && (b in pending <==> at[b] == Pending)
  {
    JoinNoDup(free, clean);
    JoinNoDup(free + clean, dirty);
    JoinNoDup(free + clean + dirty, errored);
    JoinNoDup(free + clean + dirty + errored, pending);
  }

  lemma {:induction false} SizeIs(s: seq<Block>, bs: set<Block>)
    requires NoDup(s) && forall b | b in bs :: b in s
    requires forall i | 0 <= i < |s| :: s[i] in bs
    ensures |s| == |bs|
  {
    if s != [] {
      var last := s[|s| - 1];
      assert s == s[..|s| - 1] + [last];
      SizeIs(s[..|s| - 1], bs - {last});
    }
  }

  ghost function SplicedPlaces(at: map<Block, Place>): map<Block, Place> {
    map b | b in at :: if at[b] == Errored then Dirty else at[b]
  }

  lemma Spliced(free: seq<Block>, clean: seq<Block>, dirty: seq<Block>, errored: seq<Block>, pending: seq<Block>,
                at: map<Block, Place>)
    requires ListIs(free, Free, at) && ListIs(clean, Clean, at) && ListIs(dirty, Dirty, at)
    requires ListIs(errored, Errored, at) && ListIs(pending, Pending, at)
    ensures ListIs(free, Free, SplicedPlaces(at)) && ListIs(clean, Clean, SplicedPlaces(at))
    ensures ListIs(dirty + errored, Dirty, SplicedPlaces(at))
    ensures ListIs([], Errored, SplicedPlaces(at)) && ListIs(pending, Pending, SplicedPlaces(at))
  {
    JoinNoDup(dirty, errored);
  }
}
