/** The registry of the mock allocator: an open-addressing hash table with cyclic linear
    probing and tombstones, which refines a finite map from addresses to blocks. */
module Registry {
  import opened Bits

  /** `AO_REGISTRY_EMPTY` and `AO_REGISTRY_TOMBSTONE`; every other key is an address. */
  const EMPTY: nat := 0
  const TOMBSTONE: nat := 1

  datatype Entry = Entry(key: nat, size: nat, id: nat)

  datatype Block = Block(size: nat, id: nat)

  predicate IsLive(key: nat) {
    key != EMPTY && key != TOMBSTONE
  }

  /** `ao_registry_index_for`. */
  function Home(key: nat, capacity: nat): nat
    requires capacity > 0
  {
    And(key / 16, capacity - 1)
  }

  /** Keys above one are addresses. */
  lemma LiveKeys(key: nat)
    ensures IsLive(key) <==> key > 1
  {
  }

  /** The home slot is the address in units of sixteen bytes, modulo the capacity. */
  lemma HomeIsRemainder(key: nat, bits: nat)
    ensures Home(key, Pow2(bits)) == key / 16 % Pow2(bits)
  {
    MaskIsRemainder(key / 16, bits);
  }

  /** The slot `i` places behind `h`, going round. */
  function Probe(h: nat, i: nat, capacity: nat): nat {
    if h + i < capacity then h + i else h + i - capacity
  }

  /** How far behind `h` slot `s` is. */
  function Distance(h: nat, s: nat, capacity: nat): nat
    requires h < capacity
  {
    if s >= h then s - h else s + capacity - h
  }

  lemma ProbeIsMask(h: nat, i: nat, bits: nat)
    requires h < Pow2(bits) && i < Pow2(bits)
    ensures And(h + i, Pow2(bits) - 1) == Probe(h, i, Pow2(bits))
  {
    AndMask(h + i, bits);
  }

  lemma HomeInRange(key: nat, bits: nat)
    ensures Home(key, Pow2(bits)) < Pow2(bits)
  {
    AndMask(key / 16, bits);
  }

  /** No key is stored twice. */
  ghost predicate Distinct(t: seq<Entry>) {
    forall a, b :: 0 <= a < b < |t| && IsLive(t[a].key) ==> t[a].key != t[b].key
  }

  /** No slot on the way from `h` to `s` is empty. */
  ghost predicate NoGap(t: seq<Entry>, h: nat, s: nat)
    requires h < |t| && s < |t|
  {
    forall i: nat :: i < Distance(h, s, |t|) ==> t[Probe(h, i, |t|)].key != EMPTY
  }

  /** Every stored key can be reached from its home slot. */
  ghost predicate Reachable(t: seq<Entry>, bits: nat)
    requires |t| == Pow2(bits)
  {
    forall s :: 0 <= s < |t| && IsLive(t[s].key) ==>
      Home(t[s].key, |t|) < |t| && NoGap(t, Home(t[s].key, |t|), s)
  }

  ghost predicate WellFormed(t: seq<Entry>, bits: nat) {
    |t| == Pow2(bits) && Distinct(t) && Reachable(t, bits)
  }

  ghost predicate Has(t: seq<Entry>, key: nat) {
    exists s :: 0 <= s < |t| && t[s].key == key
  }

  /** The finite map the table stands for. */
  ghost function Contents(t: seq<Entry>): (m: map<nat, Block>)
    requires Distinct(t)
    ensures forall key :: key in m <==> IsLive(key) && Has(t, key)
    ensures forall s :: 0 <= s < |t| && IsLive(t[s].key) ==> t[s].key in m && m[t[s].key] == Block(t[s].size, t[s].id)
  {
    map s: int | 0 <= s < |t| && IsLive(t[s].key) :: t[s].key := Block(t[s].size, t[s].id)
  }

  // ------------------------------------------------------------ searching

  /** The first `i` slots behind `h` neither hold the key nor are empty. */
  ghost predicate Passed(t: seq<Entry>, h: nat, i: nat, key: nat)
    requires h < |t| && i <= |t|
  {
    forall j: nat :: j < i ==> t[Probe(h, j, |t|)].key != key && t[Probe(h, j, |t|)].key != EMPTY
  }

  /** A probe that passes every slot, or ends at an empty one, shows that the key is not stored. */
  lemma NotStored(t: seq<Entry>, bits: nat, key: nat, i: nat)
    requires WellFormed(t, bits) && IsLive(key) && i <= |t|
    requires Home(key, |t|) < |t| && Passed(t, Home(key, |t|), i, key)
    requires i == |t| || t[Probe(Home(key, |t|), i, |t|)].key == EMPTY
    ensures !Has(t, key)
  {
    var h := Home(key, |t|);
    forall s | 0 <= s < |t| ensures t[s].key != key {
      var d := Distance(h, s, |t|);
      assert Probe(h, d, |t|) == s;
      assert t[s].key == key ==> NoGap(t, h, s);
    }
  }

  lemma ContentsAt(t: seq<Entry>, s: nat)
    requires Distinct(t) && s < |t| && IsLive(t[s].key)
    ensures t[s].key in Contents(t) && Contents(t)[t[s].key] == Block(t[s].size, t[s].id)
  {
  }

  // -------------------------------------------------------------- updating

  /** Writing a new key into a free slot that its probe reaches keeps the table well formed. */
  lemma PutKeepsShape(t: seq<Entry>, bits: nat, s: nat, e: Entry)
    requires WellFormed(t, bits) && s < |t| && !IsLive(t[s].key) && IsLive(e.key) && !Has(t, e.key)
    requires Home(e.key, |t|) < |t| && NoGap(t, Home(e.key, |t|), s)
    ensures WellFormed(t[s := e], bits)
  {
    var u := t[s := e];
    assert Distinct(u);
    forall r | 0 <= r < |u| && IsLive(u[r].key)
      ensures Home(u[r].key, |u|) < |u| && NoGap(u, Home(u[r].key, |u|), r)
    {
      if r != s { assert NoGap(t, Home(t[r].key, |t|), r); }
    }
  }

  /** A map with exactly the stored keys and their blocks is the table's contents. */
  lemma ContentsIs(t: seq<Entry>, m: map<nat, Block>)
    requires Distinct(t)
    requires forall s :: 0 <= s < |t| && IsLive(t[s].key) ==> t[s].key in m && m[t[s].key] == Block(t[s].size, t[s].id)
    requires forall key :: key in m ==> IsLive(key) && Has(t, key)
    ensures Contents(t) == m
  {
    forall key | key in m ensures key in Contents(t) && Contents(t)[key] == m[key] {
      var s := SlotOf(t, key);
    }
  }

  lemma SlotOf(t: seq<Entry>, key: nat) returns (s: nat)
    requires Has(t, key)
    ensures s < |t| && t[s].key == key
  {
    s :| 0 <= s < |t| && t[s].key == key;
  }

  lemma PutContents(t: seq<Entry>, s: nat, e: Entry)
    requires s < |t| && !IsLive(t[s].key) && IsLive(e.key) && !Has(t, e.key)
    requires Distinct(t) && Distinct(t[s := e])
    ensures Contents(t[s := e]) == Contents(t)[e.key := Block(e.size, e.id)]
  {
    var u := t[s := e];
    assert u[s].key == e.key;
    forall key | key in Contents(t) ensures Has(u, key) {
      var r := SlotOf(t, key);
      assert u[r].key == key;
    }
    ContentsIs(u, Contents(t)[e.key := Block(e.size, e.id)]);
  }

  /** Overwriting the payload of a stored key. */
  lemma OverwriteKeeps(t: seq<Entry>, bits: nat, s: nat, e: Entry)
    requires WellFormed(t, bits) && s < |t| && IsLive(e.key) && t[s].key == e.key
    ensures WellFormed(t[s := e], bits)
    ensures Contents(t[s := e]) == Contents(t)[e.key := Block(e.size, e.id)]
  {
    var u := t[s := e];
    assert forall r :: 0 <= r < |u| ==> u[r].key == t[r].key;
    forall r | 0 <= r < |u| && IsLive(u[r].key)
      ensures Home(u[r].key, |u|) < |u| && NoGap(u, Home(u[r].key, |u|), r)
    {
      assert NoGap(t, Home(t[r].key, |t|), r);
    }
    OverwriteContents(t, s, e);
  }

  lemma OverwriteContents(t: seq<Entry>, s: nat, e: Entry)
    requires Distinct(t) && s < |t| && IsLive(e.key) && t[s].key == e.key && Distinct(t[s := e])
    ensures Contents(t[s := e]) == Contents(t)[e.key := Block(e.size, e.id)]
  {
    var u := t[s := e];
    assert forall r :: 0 <= r < |u| ==> u[r].key == t[r].key;
    forall key | key in Contents(t) ensures Has(u, key) {
      var r := SlotOf(t, key);
      assert u[r].key == key;
    }
    ContentsIs(u, Contents(t)[e.key := Block(e.size, e.id)]);
  }

  /** A tombstone takes exactly its key out and opens no gap. */
  lemma TombstoneKeeps(t: seq<Entry>, bits: nat, s: nat)
    requires WellFormed(t, bits) && s < |t| && IsLive(t[s].key)
    ensures WellFormed(t[s := Entry(TOMBSTONE, 0, 0)], bits)
    ensures Contents(t[s := Entry(TOMBSTONE, 0, 0)]) == Contents(t) - {t[s].key}
  {
    var u := t[s := Entry(TOMBSTONE, 0, 0)];
    assert Distinct(u);
    forall r | 0 <= r < |u| && IsLive(u[r].key)
      ensures Home(u[r].key, |u|) < |u| && NoGap(u, Home(u[r].key, |u|), r)
    {
      assert NoGap(t, Home(t[r].key, |t|), r);
    }
    TombstoneContents(t, s);
  }

  lemma TombstoneContents(t: seq<Entry>, s: nat)
    requires Distinct(t) && s < |t| && IsLive(t[s].key) && Distinct(t[s := Entry(TOMBSTONE, 0, 0)])
    ensures Contents(t[s := Entry(TOMBSTONE, 0, 0)]) == Contents(t) - {t[s].key}
  {
    var u := t[s := Entry(TOMBSTONE, 0, 0)];
    var m := Contents(t) - {t[s].key};
    forall key | key in m ensures Has(u, key) {
      var r := SlotOf(t, key);
      assert u[r].key == key;
    }
    ContentsIs(u, m);
  }

  // ------------------------------------------------------------- the table

  ghost predicate AllLive(t: seq<Entry>) {
    forall s :: 0 <= s < |t| ==> IsLive(t[s].key)
  }

  /** A probe that passes every slot and meets no tombstone has seen only stored keys. */
  lemma FullTable(t: seq<Entry>, h: nat, key: nat)
    requires h < |t| && Passed(t, h, |t|, key)
    requires forall j: nat :: j < |t| ==> t[Probe(h, j, |t|)].key != TOMBSTONE
    ensures AllLive(t)
  {
    forall s | 0 <= s < |t| ensures IsLive(t[s].key) {
      assert Probe(h, Distance(h, s, |t|), |t|) == s;
    }
  }

  /** The slots behind `h` that a probe has passed leave no gap before any of them. */
  lemma PassedNoGap(t: seq<Entry>, h: nat, i: nat, f: nat, key: nat)
    requires h < |t| && f <= i <= |t| && f < |t| && Passed(t, h, i, key)
    ensures Probe(h, f, |t|) < |t| && NoGap(t, h, Probe(h, f, |t|))
  {
  }

  class Table {
    const bits: nat
    const slots: array<Entry>

    ghost predicate Valid()
      reads slots
    {
      WellFormed(slots[..], bits)
    }

    ghost function Map(): map<nat, Block>
      requires Valid()
      reads slots
    {
      Contents(slots[..])
    }

    /** A zeroed table of `2^bits` slots. */
    constructor (bits: nat)
      ensures Valid() && fresh(slots) && Map() == map[] && this.bits == bits
    {
      this.bits := bits;
      slots := new Entry[Pow2(bits)](_ => Entry(0, 0, 0));
      new;
      ContentsIs(slots[..], map[]);
    }

    /** Slot number `i` of the probe that starts at `h`. */
    method ProbeSlot(h: nat, i: nat) returns (s: nat)
      requires Valid() && h < slots.Length && i < slots.Length
      ensures s == Probe(h, i, slots.Length) && s < slots.Length
    {
      s := And(h + i, slots.Length - 1);
      ProbeIsMask(h, i, bits);
    }

    /** `ao_registry_insert_locked`: it fails exactly when the key is new and every slot holds a key. */
    method Insert(key: nat, size: nat, id: nat) returns (inserted: bool)
      requires Valid() && IsLive(key)
      modifies slots
      ensures Valid()
      ensures inserted <==> key in old(Map()) || !AllLive(old(slots[..]))
      ensures Map() == if inserted then old(Map())[key := Block(size, id)] else old(Map())
    {
      var h := Home(key, slots.Length);
      HomeInRange(key, bits);
      ghost var t := slots[..];
      var firstTombstone := slots.Length;
      ghost var f := 0;
      var i := 0;
      while i < slots.Length
        invariant 0 <= i <= slots.Length && slots[..] == t && Passed(t, h, i, key)
        invariant firstTombstone == slots.Length ==> forall j: nat :: j < i ==> t[Probe(h, j, |t|)].key != TOMBSTONE
        invariant firstTombstone != slots.Length ==>
          f < i && firstTombstone == Probe(h, f, |t|) && t[firstTombstone].key == TOMBSTONE
      {
        var s := ProbeSlot(h, i);
        assert slots[s] == t[Probe(h, i, |t|)];
        if slots[s].key == key {
          Overwrite(s, Entry(key, size, id));
          return true;
        }
        if slots[s].key == TOMBSTONE && firstTombstone == slots.Length {
          firstTombstone := s;
          f := i;
        } else if slots[s].key == EMPTY {
          NotStored(t, bits, key, i);
          var target := if firstTombstone == slots.Length then s else firstTombstone;
          PassedNoGap(t, h, i, if firstTombstone == slots.Length then i else f, key);
          Put(target, Entry(key, size, id));
          return true;
        }
        i := i + 1;
      }
      NotStored(t, bits, key, i);
      if firstTombstone != slots.Length {
        PassedNoGap(t, h, i, f, key);
        Put(firstTombstone, Entry(key, size, id));
        return true;
      }
      FullTable(t, h, key);
      return false;
    }

    method Overwrite(s: nat, e: Entry)
      requires Valid() && s < slots.Length && IsLive(e.key) && slots[s].key == e.key
      modifies slots
      ensures Valid() && e.key in old(Map())
      ensures Map() == old(Map())[e.key := Block(e.size, e.id)]
    {
      ghost var t := slots[..];
      ContentsAt(t, s);
      slots[s] := e;
      OverwriteKeeps(t, bits, s, e);
      assert slots[..] == t[s := e];
    }

    method Put(s: nat, e: Entry)
      requires Valid() && s < slots.Length && IsLive(e.key) && !IsLive(slots[s].key)
      requires !Has(slots[..], e.key) && Home(e.key, slots.Length) < slots.Length
      requires NoGap(slots[..], Home(e.key, slots.Length), s)
      modifies slots
      ensures Valid() && !AllLive(old(slots[..]))
      ensures Map() == old(Map())[e.key := Block(e.size, e.id)]
    {
      ghost var t := slots[..];
      assert !IsLive(t[s].key);
      slots[s] := e;
      PutKeepsShape(t, bits, s, e);
      PutContents(t, s, e);
      assert slots[..] == t[s := e];
    }

    /** `ao_registry_lookup_locked`. */
    method Lookup(key: nat) returns (found: bool, block: Block)
      requires Valid() && IsLive(key)
      ensures found <==> key in Map()
      ensures found ==> block == Map()[key]
    {
      var s;
      found, s := Find(key);
      block := Block(0, 0);
      if found {
        block := Block(slots[s].size, slots[s].id);
        ContentsAt(slots[..], s);
      }
    }

    /** The probe that lookup and removal share. */
    method Find(key: nat) returns (found: bool, s: nat)
      requires Valid() && IsLive(key)
      ensures found <==> Has(slots[..], key)
      ensures found ==> s < slots.Length && slots[s].key == key
    {
      var h := Home(key, slots.Length);
      HomeInRange(key, bits);
      s := 0;
      var i := 0;
      while i < slots.Length
        invariant 0 <= i <= slots.Length && Passed(slots[..], h, i, key)
      {
        s := ProbeSlot(h, i);
        if slots[s].key == EMPTY {
          NotStored(slots[..], bits, key, i);
          return false, s;
        }
        if slots[s].key == key {
          assert slots[..][s].key == key;
          return true, s;
        }
        i := i + 1;
      }
      NotStored(slots[..], bits, key, i);
      return false, s;
    }

    /** `ao_registry_remove_locked`. */
    method Remove(key: nat) returns (removed: bool, block: Block)
      requires Valid() && IsLive(key)
      modifies slots
      ensures Valid()
      ensures removed <==> key in old(Map())
      ensures removed ==> block == old(Map())[key] && !AllLive(slots[..])
      ensures Map() == old(Map()) - {key}
    {
      var s;
      removed, s := Find(key);
      block := Block(0, 0);
      if removed {
        ghost var t := slots[..];
        ContentsAt(t, s);
        block := Block(slots[s].size, slots[s].id);
        slots[s] := Entry(TOMBSTONE, 0, 0);
        TombstoneKeeps(t, bits, s);
        assert slots[..] == t[s := Entry(TOMBSTONE, 0, 0)];
        assert !IsLive(slots[..][s].key);
      }
    }
  }
}
