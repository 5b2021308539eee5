// The device table of io/io-manager.c: open devices, their reference counts,
// and the order in which they were last used.
module DeviceTable {
  import opened Bytes

  // The EF_ flags that matter: exclusive, read only.
  datatype Access = Access(excl: bool, readOnly: bool)

  // What a path names: a device by its number, or a regular file.
  datatype Node = Regular | Special(number: nat)

  class Device {
    const path: string
    const index: nat
    // what it was when it was first opened
    const node: Node
    var fd: nat
    var access: Access
    var holders: nat
    var blocks: nat

    constructor (path: string, index: nat, node: Node, fd: nat, access: Access)
      ensures this.path == path && this.index == index && this.node == node && this.fd == fd && this.access == access
      ensures holders == 1 && blocks == 0
    {
      this.path, this.index, this.node, this.fd, this.access := path, index, node, fd, access;
      holders, blocks := 1, 0;
    }
  }

  /** _need_upgrade_dev */
  predicate NeedsUpgrade(have: Access, want: Access) {
    (want.excl && !have.excl) || (have.readOnly && !want.readOnly)
  }

  function BlocksOf(indexed: set<BlockKey>, index: nat): set<BlockKey> {
    set k | k in indexed && k.0 == index
  }

  lemma OneMore(indexed: set<BlockKey>, k: BlockKey, index: nat)
    requires k !in indexed
    ensures |BlocksOf(indexed + {k}, index)| == |BlocksOf(indexed, index)| + if k.0 == index then 1 else 0
  {
    assert BlocksOf(indexed + {k}, index) == BlocksOf(indexed, index) + if k.0 == index then {k} else {};
  }

  lemma OneLess(indexed: set<BlockKey>, k: BlockKey, index: nat)
    requires k in indexed
    ensures |BlocksOf(indexed - {k}, index)| == |BlocksOf(indexed, index)| - if k.0 == index then 1 else 0
    ensures k.0 == index ==> |BlocksOf(indexed, index)| > 0
  {
    OneMore(indexed - {k}, k, index);
    assert indexed - {k} + {k} == indexed;
  }

  /** What is left of the list when there has to be room for one more: all of it, or,
      when the table is full, all but the first device that nobody holds. */
  ghost predicate Thinned(list: seq<Device>, unheld: set<Device>, full: bool, rest: seq<Device>) {
    if !full then rest == list
    else exists i: nat :: IsFirst(list, unheld, i) && rest == list[..i] + list[i + 1..]
  }

  ghost predicate IsFirst(list: seq<Device>, unheld: set<Device>, i: nat) {
    i < |list| && list[i] in unheld && forall j :: 0 <= j < i ==> list[j] !in unheld
  }

  class Table {
    const maxDevs: nat
    var devIndex: nat
    var nrOpen: nat
    var table: map<string, Device>
    // least recently used first
    var lru: seq<Device>
    // the keys of the block index
    var indexed: set<BlockKey>
    // the file system: what each path names at present; and whether a path always opens
    var names: string -> Node
    const opens: bool
    // the engine: file descriptors given out, and closed, in order
    var nextFd: nat
    var closed: seq<nat>
    // how often it has failed to open a path
    var refused: nat
    ghost var all: set<Device>

    // The table and the list hold the same devices, each under its path.
    ghost predicate Listed()
      reads `table, `lru, `all
    {
      && NoDup(lru)
      && (forall d :: d in lru ==> d in all && d.path in table && table[d.path] == d)
      && (forall p :: p in table ==> table[p] in lru && table[p].path == p)
    }

    // Devices have numbers of their own, and blocks belong to devices.
    ghost predicate Numbered()
      reads `lru, `devIndex, `indexed
    {
      && (forall d :: d in lru ==> d.index < devIndex)
      && (forall d, e :: d in lru && e in lru && d.index == e.index ==> d == e)
      && (forall k :: k in indexed ==> exists d :: d in lru && d.index == k.0)
    }

    // Every descriptor that was opened is a device's, or has been closed once.
    ghost predicate Opened()
      reads `lru, `nextFd, `closed, lru`fd
    {
      && (forall d :: d in lru ==> d.fd < nextFd && d.fd !in closed)
      && (forall d, e :: d in lru && e in lru && d.fd == e.fd ==> d == e)
      && NoDup(closed) && (forall f :: f in closed ==> f < nextFd)
      && (forall f :: 0 <= f < nextFd && f !in closed ==> exists d :: d in lru && d.fd == f)
    }

    ghost predicate Counted(x: Device)
      reads `lru, `indexed, lru`blocks, lru`holders
    {
      forall d :: d in lru ==> d.blocks == |BlocksOf(indexed, d.index)| && (d != x ==> d.holders + d.blocks > 0)
    }

    // What has left the table has no reference.
    ghost predicate Unreferenced()
      reads `lru, `all, all`holders, all`blocks
    {
      forall d :: d in all && d !in lru ==> d.holders == 0 && d.blocks == 0
    }

    // The block counts are right, and what is in the table has a reference.
    ghost predicate Balanced()
      reads `lru, `indexed, lru`blocks, lru`holders
    {
      forall d :: d in lru ==> d.blocks == |BlocksOf(indexed, d.index)| && d.holders + d.blocks > 0
    }

    // x may have lost its last reference.
    ghost predicate InvBut(x: Device)
      reads this, lru, all
    {
      Listed() && Unreferenced() && Numbered() && Opened() && Counted(x) && nrOpen == |table| <= maxDevs
    }

    /** Of the devices that were ever opened, exactly those with a holder or a
        block are in the table; a block count is the number of the device's blocks in
        the index; and every descriptor that was opened is a device's or has been
        closed, once. */
    ghost predicate Valid()
      reads this, lru, all
    {
      Listed() && Unreferenced() && Numbered() && Opened() && Balanced() && nrOpen == |table| <= maxDevs
    }

    constructor (maxDevs: nat, names: string -> Node, opens: bool)
      ensures Valid() && lru == [] && this.maxDevs == maxDevs && closed == [] && nextFd == 0 && table == map[]
      ensures this.names == names && this.opens == opens
    {
      this.names, this.opens := names, opens;
      this.maxDevs, devIndex, nrOpen, table, lru := maxDevs, 0, 0, map[], [];
      indexed, nextFd, closed, refused, all := {}, 0, [], 0, {};
    }

    // radix_tree_remove, and list_del of the device
    method Unlist(d: Device)
      requires Listed() && d in lru && nrOpen == |table|
      modifies `nrOpen, `table, `lru
      ensures Listed() && lru == Without(old(lru), d) && nrOpen == |table| == old(nrOpen) - 1
    {
      WithoutIs(lru, d);
      assert table[d.path] == d;
      assert (table - {d.path}).Keys == table.Keys - {d.path};
      table := table - {d.path};
      nrOpen := nrOpen - 1;
      lru := Without(lru, d);
    }

    twostate lemma NumberedStill(d: Device)
      requires old(Numbered()) && lru == Without(old(lru), d) && unchanged(`devIndex, `indexed)
      requires d in old(lru) && BlocksOf(indexed, d.index) == {}
      ensures Numbered()
    {
      WithoutIs(old(lru), d);
      forall k | k in indexed ensures exists e :: e in lru && e.index == k.0 {
        var e :| e in old(lru) && e.index == k.0;
        assert k in BlocksOf(indexed, e.index);
      }
    }

    twostate lemma OpenedStill(d: Device)
      requires old(Opened()) && d in old(lru) && lru == Without(old(lru), d) && unchanged(`nextFd)
      requires closed == old(closed) + [d.fd] && forall e :: e in old(lru) ==> e.fd == old(e.fd)
      ensures Opened()
    {
      WithoutIs(old(lru), d);
      forall f | 0 <= f < nextFd && f !in closed ensures exists e :: e in lru && e.fd == f {
        assert f !in old(closed) && f != d.fd by {
          assert closed[|closed| - 1] == d.fd;
        }
        var e :| e in old(lru) && old(e.fd) == f;
      }
    }

    twostate lemma BalancedStill(d: Device)
      requires old(Counted(d)) && old(Unreferenced()) && d in old(lru) && lru == Without(old(lru), d)
      requires unchanged(`indexed, `all) && d.holders == 0 && d.blocks == 0
      requires (forall e :: e in old(lru) ==> unchanged(e)) && forall e :: e in all ==> unchanged(e)
      ensures Balanced() && Unreferenced()
    {
      WithoutIs(old(lru), d);
    }

    lemma StillBalanced(d: Device)
      requires Counted(d) && d.holders + d.blocks > 0
      ensures Balanced()
    {
    }

    lemma NoBlocks(d: Device)
      requires Counted(d) && d in lru && d.blocks == 0
      ensures BlocksOf(indexed, d.index) == {}
    {
    }

    /** _dev_maybe_close, with the destructor of the device tree. */
    method MaybeClose(d: Device)
      requires InvBut(d) && d in lru
      modifies `nrOpen, `table, `lru, `closed
      ensures Valid()
      ensures if d.holders + d.blocks > 0 then unchanged(this)
              else lru == Without(old(lru), d) && closed == old(closed) + [d.fd] && nrOpen == old(nrOpen) - 1
      ensures forall e :: e in lru <==> e in old(lru) && (e == d ==> d.holders + d.blocks > 0)
    {
      hide Listed, Numbered, Opened, Unreferenced, Counted, Balanced, Without, BlocksOf;
      if d.holders > 0 || d.blocks > 0 {
        StillBalanced(d);
        return;
      }
      NoBlocks(d);
      Unlist(d);
      closed := closed + [d.fd];
      NumberedStill(d);
      OpenedStill(d);
      BalancedStill(d);
      WithoutIs(old(lru), d);
    }

    /** _dec_holders, and so io_put_dev */
    method DecHolders(d: Device)
      requires Valid() && d in lru
      modifies `nrOpen, `table, `lru, `closed, d`holders
      ensures Valid() && d.holders == if old(d.holders) > 0 then old(d.holders) - 1 else 0
      ensures forall e :: e in lru <==> e in old(lru) && (e == d ==> d.holders + d.blocks > 0)
      ensures d.holders + d.blocks == 0 ==> closed == old(closed) + [d.fd] && nrOpen == old(nrOpen) - 1
      ensures d.holders + d.blocks > 0 ==> unchanged(this)
    {
      hide Listed, Numbered, Opened, BlocksOf, Without;
      if d.holders == 0 {
        return;
      }
      d.holders := d.holders - 1;
      MaybeClose(d);
    }

    twostate lemma NumberedMore(k: BlockKey)
      requires old(Numbered()) && unchanged(`lru, `devIndex) && indexed == old(indexed) + {k}
      requires exists d :: d in lru && d.index == k.0
      ensures Numbered()
    {
    }

    /** _inc_blocks, when a block of the device is indexed */
    method IncBlocks(d: Device, k: BlockKey)
      requires Valid() && d in lru && k.0 == d.index && k !in indexed
      modifies `indexed, d`blocks
      ensures Valid() && indexed == old(indexed) + {k} && d.blocks == old(d.blocks) + 1
    {
      hide Listed, Opened, Numbered, BlocksOf;
      indexed := indexed + {k};
      d.blocks := d.blocks + 1;
      NumberedMore(k);
      forall e | e in lru ensures e.blocks == |BlocksOf(indexed, e.index)| {
        OneMore(old(indexed), k, e.index);
      }
    }

    /** _block_dtr, when a block of the device leaves the index */
    method BlockDtr(d: Device, k: BlockKey)
      requires Valid() && d in lru && k.0 == d.index && k in indexed
      modifies `nrOpen, `table, `lru, `closed, `indexed, d`blocks
      ensures Valid() && indexed == old(indexed) - {k} && d.blocks == old(d.blocks) - 1
      ensures forall e :: e in lru <==> e in old(lru) && (e == d ==> d.holders + d.blocks > 0)
      ensures if d.holders + d.blocks == 0 then lru == Without(old(lru), d) && closed == old(closed) + [d.fd] && nrOpen == old(nrOpen) - 1
              else unchanged(`nrOpen, `table, `lru, `closed)
    {
      hide Listed, Opened, BlocksOf, Without;
      OneLess(indexed, k, d.index);
      indexed := indexed - {k};
      d.blocks := d.blocks - 1;
      forall e | e in lru ensures e.blocks == |BlocksOf(indexed, e.index)| {
        OneLess(old(indexed), k, e.index);
      }
      MaybeClose(d);
    }

    /** What _invalidate_dev does to the table: the index loses every block of
        the device, in any order, and with the last of them goes a device that
        nobody holds. */
    method InvalidateDev(d: Device)
      requires Valid() && d in lru
      modifies `nrOpen, `table, `lru, `closed, `indexed, d`blocks
      ensures Valid() && d.blocks == 0 && indexed == old(indexed) - BlocksOf(old(indexed), d.index)
      ensures forall e :: e in lru <==> e in old(lru) && (e == d ==> d.holders > 0)
      ensures if d.holders == 0 then lru == Without(old(lru), d) && closed == old(closed) + [d.fd] && nrOpen == old(nrOpen) - 1
              else unchanged(`nrOpen, `table, `lru, `closed)
    {
      hide Listed, Numbered, Opened, Without;
      ghost var mine := BlocksOf(indexed, d.index);
      var keys := set k | k in indexed && k.0 == d.index;
      while keys != {}
        invariant |keys| == d.blocks
        invariant Valid() && keys == BlocksOf(indexed, d.index) && indexed == old(indexed) - (mine - keys) && keys <= mine
        invariant keys != {} ==> d in lru && unchanged(`nrOpen, `table, `lru, `closed)
        invariant keys == {} && d.holders > 0 ==> d in lru && unchanged(`nrOpen, `table, `lru, `closed)
        invariant forall e :: e in lru <==> e in old(lru) && (e == d ==> d.holders + |keys| > 0)
        invariant keys == {} && d.holders == 0 ==>
          lru == Without(old(lru), d) && closed == old(closed) + [d.fd] && nrOpen == old(nrOpen) - 1
        decreases keys
      {
        var k :| k in keys;
        keys := keys - {k};
        BlockDtr(d, k);
      }
    }

    /** _evict_lru_dev: the least recently used device that nobody holds goes,
        with its blocks. */
    method EvictLru() returns (ghost gone: Option<Device>)
      requires Valid()
      modifies `nrOpen, `table, `lru, `closed, `indexed, lru`blocks
      ensures Valid()
      ensures gone.None? ==> unchanged(this) && forall d :: d in lru ==> unchanged(d) && d.holders > 0
      ensures gone.Some? ==> var d := gone.value;
        && d in old(lru) && d.holders == 0 && nrOpen == old(nrOpen) - 1 && closed == old(closed) + [d.fd]
        && (forall e :: e in lru <==> e in old(lru) && e != d) && forall e :: e in lru ==> unchanged(e)
      ensures gone.Some? ==>
        exists i :: 0 <= i < |old(lru)| && old(lru)[i] == gone.value && forall j :: 0 <= j < i ==> old(lru)[j].holders > 0
      ensures gone.Some? ==> lru == Without(old(lru), gone.value)
    {
      hide Listed, Numbered, Opened, BlocksOf;
      gone := None;
      var i := 0;
      while i < |lru|
        invariant i <= |lru| && forall j :: 0 <= j < i ==> lru[j].holders > 0
      {
        var d := lru[i];
        if d.holders == 0 {
          gone := Some(d);
          InvalidateDev(d);
          return;
        }
        i := i + 1;
      }
    }

    // list_add and radix_tree_insert of a new device
    method Enlist(d: Device)
      requires Listed() && d.path !in table && d !in lru && nrOpen == |table|
      modifies `nrOpen, `table, `lru, `all
      ensures Listed() && lru == old(lru) + [d] && nrOpen == |table| == old(nrOpen) + 1
      ensures table == old(table)[d.path := d] && all == old(all) + {d}
    {
      assert table[d.path := d].Keys == table.Keys + {d.path};
      table := table[d.path := d];
      nrOpen := nrOpen + 1;
      lru := lru + [d];
      all := all + {d};
    }

    twostate lemma NumberedWith(new d: Device)
      requires old(Numbered()) && lru == old(lru) + [d] && unchanged(`indexed)
      requires d.index == old(devIndex) && devIndex == old(devIndex) + 1
      ensures Numbered() && BlocksOf(indexed, d.index) == {}
    {
    }

    twostate lemma OpenedWith(new d: Device)
      requires old(Opened()) && lru == old(lru) + [d] && unchanged(`closed) && forall e :: e in old(lru) ==>
        e.fd == old(e.fd)
      requires d.fd == old(nextFd) && nextFd == old(nextFd) + 1
      ensures Opened()
    {
      assert d in lru;
    }

    twostate lemma BalancedWith(new d: Device)
      requires old(Balanced()) && old(Unreferenced()) && lru == old(lru) + [d] && all == old(all) + {d}
      requires unchanged(`indexed)
      requires (forall e :: e in old(lru) ==> unchanged(e)) && forall e :: e in old(all) ==> unchanged(e)
      requires d.holders == 1 && d.blocks == 0 && BlocksOf(indexed, d.index) == {}
      ensures Balanced() && Unreferenced()
    {
    }

    // The half of _new_dev that opens and lists the device.
    method OpenDev(path: string, access: Access) returns (d: Device)
      requires Valid() && path !in table && nrOpen < maxDevs
      modifies `devIndex, `nrOpen, `table, `lru, `nextFd, `all
      ensures Valid() && fresh(d) && lru == old(lru) + [d] && table == old(table)[path := d]
      ensures d.fd == old(nextFd) && d.path == path && d.node == names(path) && d.access == access && d.holders == 1
      ensures d.blocks == 0
    {
      hide Listed, Numbered, Opened, Balanced, Unreferenced, BlocksOf;
      d := new Device(path, devIndex, names(path), nextFd, access);
      FreshIsUnlisted();
      nextFd := nextFd + 1;
      devIndex := devIndex + 1;
      Enlist(d);
      NumberedWith(d);
      OpenedWith(d);
      BalancedWith(d);
    }

    lemma FreshIsUnlisted()
      requires Listed()
      ensures forall e :: e in lru ==> e in all
    {
    }

    // The devices in the list that nobody holds.
    ghost function Unheld(): set<Device>
      reads `lru, lru`holders
    {
      set d | d in lru && d.holders == 0
    }

    // The devices of a list are different, so the rest is the list without one place.
    static lemma FirstGone(list: seq<Device>, unheld: set<Device>, d: Device)
      requires NoDup(list) && d in unheld
      requires exists i :: 0 <= i < |list| && list[i] == d && forall j :: 0 <= j < i ==> list[j] !in unheld
      ensures Thinned(list, unheld, true, Without(list, d))
    {
      var i: nat :| 0 <= i < |list| && list[i] == d && forall j :: 0 <= j < i ==> list[j] !in unheld;
      WithoutAt(list, i);
      assert IsFirst(list, unheld, i);
    }

    lemma NoneTwice()
      requires Listed()
      ensures NoDup(lru)
    {
    }

    // The first half of _new_dev.
    method MakeRoom(path: string) returns (room: bool)
      requires Valid() && path !in table
      modifies `nrOpen, `table, `lru, `closed, `indexed, lru`blocks
      ensures Valid() && path !in table
      ensures (room ==> nrOpen < maxDevs && Thinned(old(lru), old(Unheld()), old(nrOpen) >= maxDevs, lru))
      ensures forall e :: e in old(lru) && e.holders > 0 ==> e in lru && unchanged(e)
      ensures forall e :: e in lru ==> e in old(lru)
      ensures !room <==> old(nrOpen) >= maxDevs && forall e :: e in old(lru) ==> e.holders > 0
      ensures !room ==> unchanged(this)
    {
      hide Listed, Numbered, Opened, BlocksOf, Without;
      NoneTwice();
      if nrOpen >= maxDevs {
        ghost var gone := EvictLru();
        StillAbsent(path);
        if nrOpen >= maxDevs {
          return false;
        }
        FirstGone(old(lru), old(Unheld()), gone.value);
      }
      room := true;
    }

    // The engine opens a path, unless it fails to.
    method EngineOpen() returns (works: bool)
      modifies `refused
      ensures works <==> refused == old(refused)
      ensures !works ==> !opens && refused == old(refused) + 1
    {
      works := *;
      if opens || works {
        return true;
      }
      refused := refused + 1;
    }

    /** _new_dev.  The engine may fail to open the path. */
    method NewDev(path: string, access: Access) returns (r: Option<Device>)
      requires Valid() && path !in table
      modifies `devIndex, `nrOpen, `table, `lru, `indexed, `nextFd, `closed, `refused, `all, lru`blocks
      ensures Valid()
      ensures opens ==> refused == old(refused)
      ensures forall e :: e in old(lru) && e.holders > 0 ==> e in lru && unchanged(e)
      ensures r.Some? ==> var d := r.value;
        fresh(d) && d in lru && d.path == path && d.node == names(path) && d.access == access && d.holders == 1 && d.blocks == 0
      ensures forall e :: e in lru ==> e in old(lru) || r == Some(e)
      ensures r.None? <==> refused == old(refused) + 1 || (old(nrOpen) >= maxDevs && forall e :: e in old(lru) ==> e.holders > 0)
      ensures r.Some? ==> refused == old(refused) && r.value.fd == old(nextFd)
      ensures r.Some? ==>
        lru != [] && lru[|lru| - 1] == r.value && Thinned(old(lru), old(Unheld()), old(nrOpen) >= maxDevs, lru[..|lru| - 1])
    {
      hide Listed, Numbered, Opened, BlocksOf, Thinned;
      var room := MakeRoom(path);
      if !room {
        return None;
      }
      var works := EngineOpen();
      if !works {
        return None;
      }
      var d := OpenDev(path, access);
      r := Some(d);
    }

    twostate lemma StillAbsent(path: string)
      requires old(Listed()) && Listed() && path !in old(table) && forall e :: e in lru ==> e in old(lru)
      ensures path !in table
    {
    }

    twostate lemma GoneFromTable(d: Device)
      requires old(Listed()) && Listed() && d in old(lru) && d !in lru && forall e :: e in lru ==> e in old(lru)
      ensures d.path !in table
    {
    }

    // A new descriptor takes the place of d's.
    method Reopen(d: Device, access: Access)
      requires Valid() && d in lru
      modifies `nextFd, `closed, d`fd, d`access
      ensures Valid() && d.access == access && closed == old(closed) + [old(d.fd)] && nextFd == old(nextFd) + 1
      ensures d.fd == old(nextFd)
    {
      hide Listed, Numbered, Balanced, Unreferenced, BlocksOf, Opened;
      closed := closed + [d.fd];
      d.fd := nextFd;
      d.access := access;
      nextFd := nextFd + 1;
      Reopened(d);
    }

    twostate lemma Reopened(d: Device)
      requires old(Opened()) && unchanged(`lru) && d in lru
      requires forall e :: e in lru && e != d ==> e.fd == old(e.fd)
      requires closed == old(closed) + [old(d.fd)] && d.fd == old(nextFd) && nextFd == old(nextFd) + 1
      ensures Opened()
    {
      forall f | 0 <= f < nextFd && f !in closed ensures exists e :: e in lru && e.fd == f {
        if f == d.fd {
          assert d in lru;
        } else {
          assert f !in old(closed) && f != old(d.fd) by {
            assert closed[|closed| - 1] == old(d.fd);
          }
          var e :| e in lru && old(e.fd) == f;
        }
      }
    }

    // Everything but the descriptors: one is open that no device has.
    ghost predicate Leaked(fd: nat)
      reads this, lru, all
    {
      && Listed() && Unreferenced() && Numbered() && Balanced() && nrOpen == |table| <= maxDevs
      && fd < nextFd && fd !in closed && forall d :: d in lru ==> d.fd != fd
    }

    // _check_same_device finds another device under the path.  It drops the
    // holder; its caller drops it again, and does not close what it has opened.
    method OtherDevice(d: Device)
      requires Valid() && d in lru && d.holders > 0
      modifies `nrOpen, `table, `lru, `closed, `nextFd, d`holders
      ensures Leaked(old(nextFd)) && !Valid() && nextFd == old(nextFd) + 1
      ensures d.holders == if old(d.holders) + d.blocks > 1 && old(d.holders) > 1 then old(d.holders) - 2 else 0
      ensures forall e :: e in lru <==> e in old(lru) && (e == d ==> d.holders + d.blocks > 0)
    {
      hide Listed, Numbered, Opened, BlocksOf, Without, Balanced, Unreferenced;
      DecHolders(d);
      if d in lru {
        DecHolders(d);
      }
      Lose();
    }

    method Lose()
      requires Valid()
      modifies `nextFd
      ensures Leaked(old(nextFd)) && !Valid() && nextFd == old(nextFd) + 1
    {
      hide Listed, Numbered, BlocksOf, Without, Balanced, Unreferenced;
      nextFd := nextFd + 1;
      assert forall d :: d in lru ==> d.fd != old(nextFd);
      assert old(nextFd) !in closed;
      assert !Opened();
    }

    /** _check_same_device: the path names what it named when d was opened.  Any two
        regular files pass. */
    method CheckSameDevice(d: Device) returns (same: bool)
      ensures same <==> names(d.path) == d.node
    {
      var now := names(d.path);
      if d.node.Special? {
        if !now.Special? {
          return false;
        }
        if d.node.number != now.number {
          return false;
        }
      } else if now.Special? {
        return false;
      }
      same := true;
    }

    // The slow path of _upgrade_dev: close, and start again.
    method OpenAgain(d: Device, want: Access) returns (r: Option<Device>)
      requires Valid() && d in lru && d.holders == 1
      modifies `devIndex, `nrOpen, `table, `lru, `indexed, `nextFd, `closed, `refused, `all, lru`blocks, d`holders
      ensures Valid() && d !in lru && (opens ==> refused == old(refused))
      ensures forall e :: e in old(lru) && e != d && e.holders > 0 ==> e in lru && unchanged(e)
      ensures r.Some? ==> var n := r.value;
        && fresh(n) && n in lru && n.path == d.path && n.access == want
        && n.node == names(n.path) && n.fd >= old(nextFd) && n.holders == 1 && lru != [] && lru[|lru| - 1] == n
      ensures forall e :: e in lru ==> e in old(lru) || r == Some(e)
      ensures r.None? <==> refused == old(refused) + 1
      ensures r.Some? ==> refused == old(refused)
    {
      hide Listed, Numbered, Opened, BlocksOf, Without, Thinned;
      InvalidateDev(d);
      DecHolders(d);
      GoneFromTable(d);
      assert forall i :: 0 <= i < |lru| ==> lru[i] in lru;
      r := NewDev(d.path, want);
    }

    /** _upgrade_dev.  The table stays right, unless the path is opened once more and
        has come to name another device. */
    method UpgradeDev(d: Device, want: Access) returns (r: Option<Device>, same: bool)
      requires Valid() && d in lru && d.holders > 0
      modifies `devIndex, `nrOpen, `table, `lru, `indexed, `nextFd, `closed, `refused, `all
      modifies lru`blocks, d`holders, d`fd, d`access
      ensures same <==> Valid()
      ensures !same <==> !want.excl && !old(d.access.excl) && refused == old(refused) && names(d.path) != d.node
      ensures opens ==> refused == old(refused)
      ensures !same ==> r.None? && Leaked(old(nextFd))
      ensures !same ==> d.holders == if old(d.holders) > 1 then old(d.holders) - 2 else 0
      ensures forall e :: e in old(lru) && e != d && e.holders > 0 ==> e in lru && unchanged(e)
      ensures r.Some? ==>
        var n := r.value; n in lru && n.path == d.path && n.access == want && n.node == names(n.path) && n.fd >= old(nextFd)
      ensures r.Some? ==> lru != [] && (if r.value == d then lru == old(lru) else lru[|lru| - 1] == r.value)
      ensures r.Some? ==>
        if r.value == d then d.holders == old(d.holders) else fresh(r.value) && r.value.holders == 1 && d !in lru
      ensures want.excl || old(d.access.excl) ==> (r.Some? ==> r.value != d && old(d.holders) == 1)
      ensures r.None? && same ==> if d in lru then d.holders == old(d.holders) - 1 else old(d.holders) == 1
      ensures forall e :: e in lru ==> e in old(lru) || r == Some(e)
      ensures !want.excl && !old(d.access.excl) ==> (r.None? && same <==> refused == old(refused) + 1)
      ensures (want.excl || old(d.access.excl)) && old(d.holders) == 1 ==> (r.None? <==> refused == old(refused) + 1)
      ensures (want.excl || old(d.access.excl)) && old(d.holders) != 1 ==> r.None? && refused == old(refused)
    {
      hide Listed, Numbered, Opened, BlocksOf, Without, Thinned;
      same := true;
      if want.excl || d.access.excl {
        if d.holders != 1 {
          DecHolders(d);
          return None, true;
        }
        r := OpenAgain(d, want);
      } else {
        var works := EngineOpen();
        if !works {
          DecHolders(d);
          return None, true;
        }
        same := CheckSameDevice(d);
        if !same {
          OtherDevice(d);
          return None, false;
        }
        Reopen(d, want);
        r := Some(d);
      }
    }

    twostate lemma Permuted()
      requires old(Numbered()) && old(Opened()) && unchanged(`devIndex, `indexed, `nextFd, `closed)
      requires forall e :: e in lru <==> e in old(lru)
      requires forall e :: e in lru ==> e.fd == old(e.fd)
      ensures Numbered() && Opened()
    {
      forall k | k in indexed ensures exists e :: e in lru && e.index == k.0 {
        var e :| e in old(lru) && e.index == k.0;
      }
      forall f | 0 <= f < nextFd && f !in closed ensures exists e :: e in lru && e.fd == f {
        var e :| e in old(lru) && old(e.fd) == f;
      }
    }

    lemma ToTheEnd(s: seq<Device>, d: Device)
      requires NoDup(s) && d in s
      ensures NoDup(Without(s, d) + [d]) && forall e | e in Without(s, d) + [d] :: e in s
      ensures forall e | e in s :: e in Without(s, d) + [d]
    {
      WithoutIs(s, d);
      var t := Without(s, d) + [d];
      assert t[|t| - 1] == d;
      assert forall i | 0 <= i < |t| - 1 :: t[i] in Without(s, d);
      assert forall e | e in Without(s, d) :: e in t;
    }

    // The device becomes the most recently used one, with one holder more.
    method Touch(d: Device)
      requires Valid() && d in lru
      modifies `lru, d`holders
      ensures Valid() && d.holders == old(d.holders) + 1 && lru == Without(old(lru), d) + [d]
      ensures forall e :: e in lru <==> e in old(lru)
    {
      hide BlocksOf, Numbered, Opened, Without;
      ToTheEnd(lru, d);
      lru := Without(lru, d) + [d];
      d.holders := d.holders + 1;
      Permuted();
    }

    // The device of this path has to be opened once more, along with the old
    // descriptor, and the path has come to name another one.
    ghost predicate Renamed(path: string, want: Access)
      reads `table, `names, table.Values`access
    {
      path in table && var d := table[path];
        d.access.readOnly && !want.readOnly && !want.excl && !d.access.excl && names(path) != d.node
    }

    /** _get_dev: the device is open as wanted, with one holder more, and is the one used
        last; or nobody's count has changed.  It is not so exactly when the path has
        come to name another device: then a holder is lost, and a descriptor. */
    method GetDev(path: string, want: Access) returns (r: Option<Device>, same: bool)
      requires Valid()
      modifies `devIndex, `nrOpen, `table, `lru, `indexed, `nextFd, `closed, `refused, `all
      modifies lru`blocks, lru`holders, lru`fd, lru`access
      ensures same <==> Valid()
      ensures !same <==> old(Renamed(path, want)) && refused == old(refused)
      ensures !same ==> r.None? && Leaked(old(nextFd))
      ensures opens ==> refused == old(refused)
      ensures !same ==> var d := old(table)[path]; d.holders == if old(d.holders) > 0 then old(d.holders) - 1 else 0
      ensures r.Some? ==> var d := r.value; d in lru && d.path == path
      ensures r.Some? ==> (want.excl ==> r.value.access.excl) && (!want.readOnly ==> !r.value.access.readOnly)
      ensures r.Some? ==> var d := r.value;
        if d in old(lru) then d.holders == old(d.holders) + 1 else fresh(d) && d.holders == 1
      ensures forall e :: e in old(lru) && old(e.holders) > 0 && r != Some(e) && e.path != path ==>
        e in lru && unchanged(e)
      ensures forall e :: e in lru ==> e in old(lru) || r == Some(e)
      ensures r.None? && same ==> forall e :: e in lru ==> e.holders == old(e.holders)
      // the device that is open is given as it is, if that will do
      ensures (path in old(table) && (want.excl ==> old(table[path].access.excl))
               && (old(table[path].access.readOnly) ==> want.readOnly)) ==>
        r == Some(old(table[path])) && r.value.access == old(table[path].access) && r.value.fd == old(table[path].fd)
      // otherwise it is opened, or opened once more
      ensures (path !in old(table) || (want.excl && !old(table[path].access.excl))
               || (old(table[path].access.readOnly) && !want.readOnly)) ==>
        r.Some? ==> r.value.access == want && r.value.node == names(path) && r.value.fd >= old(nextFd)
      // the order of use
      ensures r.Some? && r.value in old(lru) ==> lru == Without(old(lru), r.value) + [r.value]
      ensures r.Some? ==> lru != [] && lru[|lru| - 1] == r.value
      ensures r.Some? && path !in old(table) ==>
        Thinned(old(lru), old(Unheld()), old(nrOpen) >= maxDevs, lru[..|lru| - 1])
      // when it refuses
      ensures path !in old(table) ==>
        (r.None? <==> refused == old(refused) + 1 || (old(nrOpen) >= maxDevs && forall e :: e in old(lru) ==> old(e.holders) > 0))
      ensures (path in old(table) && same
               && ((want.excl && !old(table[path].access.excl)) || (old(table[path].access.readOnly) && !want.readOnly))) ==>
        (r.None? <==> refused == old(refused) + 1 || ((want.excl || old(table[path].access.excl)) && old(table[path].holders) > 0))
    {
      hide Listed, Numbered, Opened, BlocksOf, Without, Leaked, Thinned;
      same := true;
      if path in table {
        var d := table[path];
        InTable(path);
        Touch(d);
        assert forall i :: 0 <= i < |lru| ==> lru[i] in lru;
        r := Some(d);
        if NeedsUpgrade(d.access, want) {
          r, same := UpgradeDev(d, want);
        }
      } else {
        r := NewDev(path, want);
      }
    }

    lemma InTable(path: string)
      requires Listed() && path in table
      ensures table[path] in lru && table[path].path == path
      ensures forall e :: e in lru && e.path == path ==> e == table[path]
    {
    }
  }
}