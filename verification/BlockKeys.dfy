// The keys under which the block cache stores its blocks in the radix tree:
// four bytes of device index and eight of block number, as union key packs them.
module BlockKeys {
  import opened AdaptiveMap
  import opened AdaptiveTree
  import opened Bytes

  const DEV_LIMIT: nat := 0x1_0000_0000
  const BLOCK_LIMIT: nat := 0x1_0000_0000_0000_0000

  /** The n bytes of v, least significant first. */
  function Packed(v: nat, n: nat): (r: Key)
    ensures |r| == n
  {
    if n == 0 then [] else [v % 256] + Packed(v / 256, n - 1)
  }

  function Limit(n: nat): nat { if n == 0 then 1 else 256 * Limit(n - 1) }

  /** The number that these bytes stand for. */
  function Unpacked(bytes: Key): nat {
    if bytes == [] then 0 else bytes[0] + 256 * Unpacked(bytes[1..])
  }

  /** Unpacking gives back what was packed. */
  lemma {:induction false} PackedIsUnpacked(v: nat, n: nat)
    requires v < Limit(n)
    ensures Unpacked(Packed(v, n)) == v
  {
    if n > 0 {
      assert Packed(v, n)[1..] == Packed(v / 256, n - 1);
      PackedIsUnpacked(v / 256, n - 1);
    }
  }

  lemma Limits()
    ensures Limit(4) == DEV_LIMIT && Limit(8) == BLOCK_LIMIT
  {
    assert Limit(1) == 256 && Limit(2) == 0x1_0000 && Limit(3) == 0x100_0000 && Limit(4) == 0x1_0000_0000;
    assert Limit(5) == 0x100_0000_0000 && Limit(6) == 0x1_0000_0000_0000 && Limit(7) == 0x100_0000_0000_0000;
  }

  predicate InRange(k: BlockKey) { k.0 < DEV_LIMIT && k.1 < BLOCK_LIMIT }

  function DevBytes(dev: nat): Key { Packed(dev, 4) }

  function KeyOf(k: BlockKey): (r: Key)
    ensures |r| == 12
  {
    DevBytes(k.0) + Packed(k.1, 8)
  }

  /** Different blocks have different keys. */
  lemma KeyOfIsInjective(k: BlockKey, l: BlockKey)
    requires InRange(k) && InRange(l) && KeyOf(k) == KeyOf(l)
    ensures k == l
  {
    Limits();
    assert DevBytes(k.0) == KeyOf(k)[..4] && DevBytes(l.0) == KeyOf(l)[..4];
    assert Packed(k.1, 8) == KeyOf(k)[4..] && Packed(l.1, 8) == KeyOf(l)[4..];
    PackedIsUnpacked(k.0, 4);
    PackedIsUnpacked(l.0, 4);
    PackedIsUnpacked(k.1, 8);
    PackedIsUnpacked(l.1, 8);
  }

  /** The four bytes of a device are a prefix of exactly the keys of its blocks. */
  lemma DevPrefix(dev: nat, k: BlockKey)
    requires dev < DEV_LIMIT && InRange(k)
    ensures DevBytes(dev) <= KeyOf(k) <==> k.0 == dev
  {
    Limits();
    assert KeyOf(k)[..4] == DevBytes(k.0);
    if DevBytes(dev) <= KeyOf(k) {
      assert DevBytes(dev) == KeyOf(k)[..4];
      PackedIsUnpacked(dev, 4);
      PackedIsUnpacked(k.0, 4);
    }
  }

  /** What the tree holds is the index. */
  ghost predicate Encodes(content: map<Key, RadixValue>, index: map<BlockKey, RadixValue>) {
    && (forall k :: k in index ==> InRange(k) && KeyOf(k) in content && content[KeyOf(k)] == index[k])
    && (forall c :: c in content ==> exists k :: k in index && KeyOf(k) == c)
  }

  /** _block_lookup */
  lemma LookupIsIndexed(content: map<Key, RadixValue>, index: map<BlockKey, RadixValue>, k: BlockKey)
    requires Encodes(content, index) && InRange(k)
    ensures Find(content, KeyOf(k)) == if k in index then Some(index[k]) else None
  {
    if KeyOf(k) in content {
      var l :| l in index && KeyOf(l) == KeyOf(k);
      KeyOfIsInjective(k, l);
    }
  }

  /** _block_insert: all keys have one length, so it is never the case that the
      tree gets wrong. */
  lemma NeverOverlaps(content: map<Key, RadixValue>, index: map<BlockKey, RadixValue>, k: BlockKey)
    requires Encodes(content, index) && InRange(k)
    ensures !Overlapping(content, KeyOf(k))
  {
    forall c | c in content ensures |c| == 12 {
      var l :| l in index && KeyOf(l) == c;
    }
  }

  /** _block_insert */
  lemma InsertIsIndexed(content: map<Key, RadixValue>, index: map<BlockKey, RadixValue>, k: BlockKey, v: RadixValue)
    requires Encodes(content, index) && InRange(k)
    ensures Encodes(content[KeyOf(k) := v], index[k := v])
  {
    hide KeyOf;
    var after, names := content[KeyOf(k) := v], index[k := v];
    forall l | l in names ensures KeyOf(l) in after && after[KeyOf(l)] == names[l] {
      if l != k && KeyOf(l) == KeyOf(k) {
        KeyOfIsInjective(k, l);
      }
    }
    forall c | c in after ensures exists l :: l in names && KeyOf(l) == c {
      if c != KeyOf(k) {
        var l :| l in index && KeyOf(l) == c;
        assert l in names;
      } else {
        assert k in names;
      }
    }
  }

  /** _block_remove */
  lemma RemoveIsIndexed(content: map<Key, RadixValue>, index: map<BlockKey, RadixValue>, k: BlockKey)
    requires Encodes(content, index) && InRange(k)
    ensures Encodes(content - {KeyOf(k)}, index - {k})
  {
    forall l | l in index - {k} ensures KeyOf(l) in content - {KeyOf(k)} {
      if KeyOf(l) == KeyOf(k) {
        KeyOfIsInjective(k, l);
      }
    }
    forall c | c in content - {KeyOf(k)} ensures exists l :: l in index - {k} && KeyOf(l) == c {
      var l :| l in index && KeyOf(l) == c;
      assert l in index - {k};
    }
  }

  /** radix_tree_remove_prefix of a device's bytes drops the device, and nothing
      else, from the index. */
  lemma PruneIsIndexed(content: map<Key, RadixValue>, index: map<BlockKey, RadixValue>, dev: nat)
    requires Encodes(content, index) && dev < DEV_LIMIT
    ensures Encodes(Prune(content, DevBytes(dev)), map k | k in index && k.0 != dev :: index[k])
  {
    var left := map k | k in index && k.0 != dev :: index[k];
    forall l | l in left ensures KeyOf(l) in Prune(content, DevBytes(dev)) {
      DevPrefix(dev, l);
    }
    forall c | c in Prune(content, DevBytes(dev)) ensures exists l :: l in left && KeyOf(l) == c {
      var l :| l in index && KeyOf(l) == c;
      DevPrefix(dev, l);
      assert l in left;
    }
  }
}
