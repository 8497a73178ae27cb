/** The table that gives each lidar handle one of 32 slots. */
module CacheIndexes {
  import opened Bytes

  const MAX_SOURCE_LIDAR: nat := 32
  const LIVOX_LIDAR_TYPE: byte := 8

  /** livox_lidar_ */
  const PREFIX: Text := [0x6C, 0x69, 0x76, 0x6F, 0x78, 0x5F, 0x6C, 0x69, 0x64, 0x61, 0x72, 0x5F]

  function Key(handle: nat): Text {
    PREFIX + Decimal(handle)
  }

  /** Different handles have different keys. */
  lemma KeyInjective(a: nat, b: nat)
    requires Key(a) == Key(b)
    ensures a == b
  {
    assert Key(a)[|PREFIX|..] == Decimal(a) && Key(b)[|PREFIX|..] == Decimal(b);
    DecimalInjective(a, b);
  }

  predicate Injective(live: map<nat, nat>) {
    forall a, b | a in live && b in live && live[a] == live[b] :: a == b
  }

  /** The slots that live handles own. */
  function Owned(live: map<nat, nat>): set<nat> {
    set h | h in live :: live[h]
  }

  function Slots(n: nat): (r: set<nat>)
    ensures |r| == n && forall i: nat :: i in r <==> i < n
  {
    if n == 0 then {}
    else
      var fewer := Slots(n - 1);
      assert n - 1 !in fewer;
      fewer + {n - 1}
  }

  lemma {:induction false} OwnedSize(live: map<nat, nat>)
    requires Injective(live)
    ensures |Owned(live)| == |live|
    decreases |live|
  {
    if live != map[] {
      var h :| h in live;
      var rest := live - {h};
      assert forall a | a in rest :: a in live && rest[a] == live[a] && a != h;
      OwnedSize(rest);
      assert Owned(live) == Owned(rest) + {live[h]} by {
        forall i | i in Owned(live) ensures i in Owned(rest) + {live[h]} {
          var a :| a in live && live[a] == i;
          assert a != h ==> a in rest;
        }
      }
      assert live[h] !in Owned(rest);
    }
  }

  lemma SubsetSize(a: set<nat>, b: set<nat>)
    requires a <= b
    ensures |a| <= |b| && (|a| == |b| ==> a == b)
  {
    assert b == a + (b - a);
  }

  /** All slots are owned exactly if 32 handles are live. */
  lemma FullMeans32(live: map<nat, nat>)
    requires Injective(live) && forall h | h in live :: live[h] < MAX_SOURCE_LIDAR
    ensures |live| <= MAX_SOURCE_LIDAR
    ensures |live| == MAX_SOURCE_LIDAR <==> forall i: nat | i < MAX_SOURCE_LIDAR :: i in Owned(live)
  {
    hide Slots, Injective;
    OwnedSize(live);
    assert Owned(live) <= Slots(MAX_SOURCE_LIDAR);
    SubsetSize(Owned(live), Slots(MAX_SOURCE_LIDAR));
    if forall i: nat | i < MAX_SOURCE_LIDAR :: i in Owned(live) {
      assert Owned(live) == Slots(MAX_SOURCE_LIDAR);
    }
  }

  class CacheIndex {
    var mapIndex: map<Text, nat>
    const indexCache: array<bool>
    /** The slot of every live handle. */
    ghost var live: map<nat, nat>

    ghost predicate Valid()
      reads this, indexCache
    {
      && indexCache.Length == MAX_SOURCE_LIDAR && Injective(live)
      && (forall h | h in live :: live[h] < MAX_SOURCE_LIDAR && Key(h) in mapIndex && mapIndex[Key(h)] == live[h])
      && (forall k | k in mapIndex :: exists h :: h in live && Key(h) == k)
      && (forall i | 0 <= i < MAX_SOURCE_LIDAR :: indexCache[i] <==> i in Owned(live))
    }

    constructor ()
      ensures Valid() && live == map[] && fresh(indexCache)
    {
      indexCache := new bool[MAX_SOURCE_LIDAR](_ => false);
      mapIndex, live := map[], map[];
    }

    /** Looking a key up finds its handle's slot. */
    lemma LookUp(handle: nat)
      requires Valid()
      ensures Key(handle) in mapIndex <==> handle in live
    {
      if Key(handle) in mapIndex {
        var h :| h in live && Key(h) == Key(handle);
        KeyInjective(h, handle);
      }
    }

    /**
     * The slot of a handle, newly taken if it has none: the lowest free one. Fails exactly for other lidar types
     * and for a new handle when 32 are live, and then changes nothing.
     */
    method GetFreeIndex(lidarType: byte, handle: nat) returns (ok: bool, index: nat)
      requires Valid()
      modifies this, indexCache
      ensures Valid()
      ensures ok <==> lidarType == LIVOX_LIDAR_TYPE && (handle in old(live) || |old(live)| < MAX_SOURCE_LIDAR)
      ensures ok ==> index < MAX_SOURCE_LIDAR && live == old(live)[handle := index]
      ensures ok && handle in old(live) ==> index == old(live)[handle]
      ensures ok && handle !in old(live) ==> index !in Owned(old(live)) && forall i: nat | i < index :: i in Owned(old(live))
      ensures !ok ==> live == old(live) && mapIndex == old(mapIndex)
    {
      index := 0;
      if lidarType != LIVOX_LIDAR_TYPE {
        return false, index;
      }
      LookUp(handle);
      FullMeans32(live);
      hide Owned, Key, Injective;
      if Key(handle) in mapIndex {
        index := mapIndex[Key(handle)];
        assert live[handle := index] == live;
        return true, index;
      }
      ok, index := FindFree();
      if ok {
        Occupy(handle, index);
      }
    }

    /** The search for the lowest free slot. */
    method FindFree() returns (found: bool, index: nat)
      requires Valid()
      ensures found ==> index < MAX_SOURCE_LIDAR && !indexCache[index] && index !in Owned(live)
                        && forall i: nat | i < index :: i in Owned(live)
      ensures !found ==> forall i: nat | i < MAX_SOURCE_LIDAR :: i in Owned(live)
    {
      for i := 0 to MAX_SOURCE_LIDAR
        invariant forall j | 0 <= j < i :: indexCache[j]
      {
        if !indexCache[i] {
          return true, i;
        }
      }
      return false, 0;
    }

    method Occupy(handle: nat, i: nat)
      requires Valid() && handle !in live && Key(handle) !in mapIndex && i < MAX_SOURCE_LIDAR && !indexCache[i]
      modifies this, indexCache
      ensures Valid() && live == old(live)[handle := i]
    {
      ghost var was := live;
      indexCache[i] := true;
      mapIndex := mapIndex[Key(handle) := i];
      live := live[handle := i];
      OwnedMore(was, handle, i);
      forall h | h in was ensures Key(h) != Key(handle) {
        if Key(h) == Key(handle) {
          KeyInjective(h, handle);
        }
      }
      assert Injective(live);
    }

    method GetIndex(lidarType: byte, handle: nat) returns (ok: bool, index: nat)
      requires Valid()
      ensures ok <==> lidarType == LIVOX_LIDAR_TYPE && handle in live
      ensures ok ==> index == live[handle]
    {
      if lidarType != LIVOX_LIDAR_TYPE {
        return false, 0;
      }
      LookUp(handle);
      if Key(handle) in mapIndex {
        return true, mapIndex[Key(handle)];
      }
      return false, 0;
    }

    /** Gives the slot of a handle back; other handles keep theirs. */
    method ResetIndex(lidarType: byte, handle: nat)
      requires Valid()
      modifies this, indexCache
      ensures Valid() && live == if lidarType == LIVOX_LIDAR_TYPE then old(live) - {handle} else old(live)
    {
      if lidarType != LIVOX_LIDAR_TYPE {
        return;
      }
      LookUp(handle);
      if Key(handle) in mapIndex {
        Release(handle);
      } else {
        assert live - {handle} == live;
      }
    }

    method Release(handle: nat)
      requires Valid() && handle in live
      modifies this, indexCache
      ensures Valid() && live == old(live) - {handle}
    {
      hide Owned, Injective, Key;
      ghost var was, keys := live, mapIndex;
      var index := mapIndex[Key(handle)];
      mapIndex := mapIndex - {Key(handle)};
      indexCache[index] := false;
      live := live - {handle};
      OwnedLess(was, handle);
      forall h | h in live ensures Key(h) != Key(handle) {
        if Key(h) == Key(handle) {
          KeyInjective(h, handle);
        }
      }
      forall k | k in mapIndex ensures exists h :: h in live && Key(h) == k {
        assert k in keys;
        var h :| h in was && Key(h) == k;
        assert h in live;
      }
    }
  }

  lemma OwnedMore(live: map<nat, nat>, h: nat, i: nat)
    requires h !in live
    ensures Owned(live[h := i]) == Owned(live) + {i}
  {
    var more := live[h := i];
    forall j | j in Owned(live) + {i} ensures j in Owned(more) {
      if j in Owned(live) {
        var a :| a in live && live[a] == j;
        assert a in more && more[a] == j;
      } else {
        assert h in more && more[h] == j;
      }
    }
  }

  lemma OwnedLess(live: map<nat, nat>, h: nat)
    requires h in live && Injective(live)
    ensures Owned(live - {h}) == Owned(live) - {live[h]} && Injective(live - {h})
  {
    var less := live - {h};
    forall j | j in Owned(live) - {live[h]} ensures j in Owned(less) {
      var a :| a in live && live[a] == j;
      assert a in less && less[a] == j;
    }
  }
}
