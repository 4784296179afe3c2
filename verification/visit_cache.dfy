/**
 * The overlap-aware visit cache (VisitCache::Cache and the VisitCache facade
 * in visitcache.cpp). The generic bounded cache it derives from is modelled
 * only by its contents, `entries`, and by the three operations the core
 * uses: the exact-hit test, `invalidate` (erase, then the onRemove hook) and
 * `read` (hit, or fetch and insert when found, then the onInsert hook).
 */
module VisitCaches {
  import opened KeySets
  import opened BlobSets
  import opened CompressedBlobSets
  import opened BackingStores

  /** Two keys share at least one id. */
  ghost predicate Overlaps(a: KeySet, b: KeySet) {
    exists x :: x in a.keys && x in b.keys
  }

  /** The ids of a key, as a set. */
  function IdsOf(ids: seq<Lid>): set<Lid> {
    set x | x in ids
  }

  /** Every id of `ids` mapped to the representative `r`. */
  function MapIdsTo(ids: seq<Lid>, r: Lid): map<Lid, Lid> {
    map x | x in ids :: r
  }

  /** Every live set is non-empty and sorted and holds a found (non-empty) value. */
  ghost predicate EntriesWellFormed(entries: map<KeySet, CompressedBlobSet>) {
    forall k | k in entries :: k.keys != [] && Sorted(k.keys) && !entries[k].Empty()
  }

  /** _id2KeySet files each live set under its first id, and holds nothing else. */
  ghost predicate RepresentativesIndexed(entries: map<KeySet, CompressedBlobSet>, id2KeySet: map<Lid, KeySet>) {
    && (forall k | k in entries :: k.keys != [] && k.keys[0] in id2KeySet && id2KeySet[k.keys[0]] == k)
    && (forall r | r in id2KeySet :: id2KeySet[r] in entries && id2KeySet[r].keys != [] && id2KeySet[r].keys[0] == r)
  }

  /** _lid2Id points every id of a live set at that set's representative, and holds nothing else. */
  ghost predicate IdsIndexed(entries: map<KeySet, CompressedBlobSet>, lid2Id: map<Lid, Lid>, id2KeySet: map<Lid, KeySet>) {
    && (forall k, x | k in entries && x in k.keys :: x in lid2Id && lid2Id[x] == k.keys[0])
    && (forall x | x in lid2Id :: lid2Id[x] in id2KeySet && x in id2KeySet[lid2Id[x]].keys)
  }

  /** The reverse index mirrors the live entries exactly. */
  ghost predicate Indexed(entries: map<KeySet, CompressedBlobSet>, lid2Id: map<Lid, Lid>, id2KeySet: map<Lid, KeySet>) {
    && EntriesWellFormed(entries)
    && RepresentativesIndexed(entries, id2KeySet)
    && IdsIndexed(entries, lid2Id, id2KeySet)
  }

  /** Erasing a live set and running onRemove keeps the index exact. */
  lemma RemoveKeepsIndex(entries: map<KeySet, CompressedBlobSet>, lid2Id: map<Lid, Lid>, id2KeySet: map<Lid, KeySet>, key: KeySet)
    requires Indexed(entries, lid2Id, id2KeySet)
    requires key in entries
    ensures Indexed(entries - {key}, lid2Id - IdsOf(key.keys), id2KeySet - {key.keys[0]})
  {
    RemoveKeepsRepresentatives(entries, lid2Id, id2KeySet, key);
    RemoveKeepsIds(entries, lid2Id, id2KeySet, key);
  }

  lemma RemoveKeepsRepresentatives(entries: map<KeySet, CompressedBlobSet>, lid2Id: map<Lid, Lid>, id2KeySet: map<Lid, KeySet>, key: KeySet)
    requires RepresentativesIndexed(entries, id2KeySet) && IdsIndexed(entries, lid2Id, id2KeySet)
    requires key in entries
    ensures RepresentativesIndexed(entries - {key}, id2KeySet - {key.keys[0]})
  {
    var e', i' := entries - {key}, id2KeySet - {key.keys[0]};
    forall k | k in e'
      ensures k.keys[0] in i' && i'[k.keys[0]] == k
    {
      assert id2KeySet[k.keys[0]] == k && id2KeySet[key.keys[0]] == key;
    }
  }

  lemma RemoveKeepsIds(entries: map<KeySet, CompressedBlobSet>, lid2Id: map<Lid, Lid>, id2KeySet: map<Lid, KeySet>, key: KeySet)
    requires RepresentativesIndexed(entries, id2KeySet) && IdsIndexed(entries, lid2Id, id2KeySet)
    requires key in entries
    ensures IdsIndexed(entries - {key}, lid2Id - IdsOf(key.keys), id2KeySet - {key.keys[0]})
  {
    RemoveKeepsIdsOfOthers(entries, lid2Id, id2KeySet, key);
    var l', i' := lid2Id - IdsOf(key.keys), id2KeySet - {key.keys[0]};
    forall x | x in l'
      ensures l'[x] in i' && x in i'[l'[x]].keys
    {
      assert x !in key.keys;
    }
  }

  lemma RemoveKeepsIdsOfOthers(entries: map<KeySet, CompressedBlobSet>, lid2Id: map<Lid, Lid>, id2KeySet: map<Lid, KeySet>, key: KeySet)
    requires RepresentativesIndexed(entries, id2KeySet) && IdsIndexed(entries, lid2Id, id2KeySet)
    requires key in entries
    ensures forall k, x | k in entries - {key} && x in k.keys ::
      x in lid2Id - IdsOf(key.keys) && (lid2Id - IdsOf(key.keys))[x] == k.keys[0]
  {
    forall k, x | k in entries - {key} && x in k.keys
      ensures x !in key.keys && x in lid2Id && lid2Id[x] == k.keys[0]
    {
      assert id2KeySet[k.keys[0]] == k && id2KeySet[key.keys[0]] == key;
      assert lid2Id[x] == k.keys[0];
    }
  }

  /** Adding a set that shares no id with any live set and running onInsert keeps the index exact. */
  lemma InsertKeepsIndex(entries: map<KeySet, CompressedBlobSet>, lid2Id: map<Lid, Lid>, id2KeySet: map<Lid, KeySet>, key: KeySet, value: CompressedBlobSet)
    requires Indexed(entries, lid2Id, id2KeySet)
    requires key.keys != [] && Sorted(key.keys) && !value.Empty()
    requires forall k | k in entries :: !Overlaps(k, key)
    ensures Indexed(entries[key := value], lid2Id + MapIdsTo(key.keys, key.keys[0]), id2KeySet[key.keys[0] := key])
  {
    assert key.keys[0] in key.keys;
    assert Overlaps(key, key);
    InsertKeepsRepresentatives(entries, lid2Id, id2KeySet, key, value);
    InsertKeepsIds(entries, lid2Id, id2KeySet, key, value);
  }

  lemma InsertKeepsRepresentatives(entries: map<KeySet, CompressedBlobSet>, lid2Id: map<Lid, Lid>, id2KeySet: map<Lid, KeySet>, key: KeySet, value: CompressedBlobSet)
    requires RepresentativesIndexed(entries, id2KeySet) && IdsIndexed(entries, lid2Id, id2KeySet)
    requires key.keys != [] && key !in entries
    requires forall k | k in entries :: !Overlaps(k, key)
    ensures RepresentativesIndexed(entries[key := value], id2KeySet[key.keys[0] := key])
  {
    var first := key.keys[0];
    var e', i' := entries[key := value], id2KeySet[first := key];
    assert first in key.keys;
    forall k | k in e'
      ensures k.keys != [] && k.keys[0] in i' && i'[k.keys[0]] == k
    {
      if k != key {
        assert k.keys[0] in k.keys;
        assert first !in k.keys;
      }
    }
  }

  lemma InsertKeepsIds(entries: map<KeySet, CompressedBlobSet>, lid2Id: map<Lid, Lid>, id2KeySet: map<Lid, KeySet>, key: KeySet, value: CompressedBlobSet)
    requires RepresentativesIndexed(entries, id2KeySet) && IdsIndexed(entries, lid2Id, id2KeySet)
    requires key.keys != [] && key !in entries
    requires forall k | k in entries :: !Overlaps(k, key)
    ensures IdsIndexed(entries[key := value], lid2Id + MapIdsTo(key.keys, key.keys[0]), id2KeySet[key.keys[0] := key])
  {
    var first := key.keys[0];
    var l', i' := lid2Id + MapIdsTo(key.keys, first), id2KeySet[first := key];
    InsertKeepsIdsOfAll(entries, lid2Id, id2KeySet, key, value);
    forall x | x in l'
      ensures l'[x] in i' && x in i'[l'[x]].keys
    {
      if x !in key.keys {
        var owner := id2KeySet[lid2Id[x]];
        assert owner in entries && owner.keys[0] in owner.keys;
        assert owner.keys[0] !in key.keys;
      }
    }
  }

  lemma InsertKeepsIdsOfAll(entries: map<KeySet, CompressedBlobSet>, lid2Id: map<Lid, Lid>, id2KeySet: map<Lid, KeySet>, key: KeySet, value: CompressedBlobSet)
    requires RepresentativesIndexed(entries, id2KeySet) && IdsIndexed(entries, lid2Id, id2KeySet)
    requires key.keys != [] && key !in entries
    requires forall k | k in entries :: !Overlaps(k, key)
    ensures forall k, x | k in entries[key := value] && x in k.keys ::
      x in lid2Id + MapIdsTo(key.keys, key.keys[0]) && (lid2Id + MapIdsTo(key.keys, key.keys[0]))[x] == k.keys[0]
  {
    var l' := lid2Id + MapIdsTo(key.keys, key.keys[0]);
    forall k, x | k in entries[key := value] && x in k.keys
      ensures x in l' && l'[x] == k.keys[0]
    {
      if k != key {
        assert x !in key.keys;
      }
    }
  }

  /**
   * Under the index, the mapped representatives of the ids of `key` are
   * exactly the representatives of the live sets sharing an id with it.
   */
  lemma RepresentativesOfSharing(entries: map<KeySet, CompressedBlobSet>, lid2Id: map<Lid, Lid>, id2KeySet: map<Lid, KeySet>,
                                 key: KeySet, found: set<Lid>, sharing: set<KeySet>)
    requires RepresentativesIndexed(entries, id2KeySet) && IdsIndexed(entries, lid2Id, id2KeySet)
    requires found == set x | x in key.keys && x in lid2Id :: lid2Id[x]
    requires sharing == set k | k in entries && Overlaps(k, key)
    ensures found == set k | k in sharing :: k.Front()
  {
    FoundAreShared(entries, lid2Id, id2KeySet, key, found, sharing);
    SharedAreFound(entries, lid2Id, id2KeySet, key, found, sharing);
  }

  lemma FoundAreShared(entries: map<KeySet, CompressedBlobSet>, lid2Id: map<Lid, Lid>, id2KeySet: map<Lid, KeySet>,
                       key: KeySet, found: set<Lid>, sharing: set<KeySet>)
    requires RepresentativesIndexed(entries, id2KeySet) && IdsIndexed(entries, lid2Id, id2KeySet)
    requires found == set x | x in key.keys && x in lid2Id :: lid2Id[x]
    requires sharing == set k | k in entries && Overlaps(k, key)
    ensures found <= set k | k in sharing :: k.Front()
  {
    forall r | r in found
      ensures r in set k | k in sharing :: k.Front()
    {
      var x :| x in key.keys && x in lid2Id && lid2Id[x] == r;
      var k := id2KeySet[r];
      assert k in entries && x in k.keys && k.keys[0] == r;
      assert k in sharing;
    }
  }

  lemma SharedAreFound(entries: map<KeySet, CompressedBlobSet>, lid2Id: map<Lid, Lid>, id2KeySet: map<Lid, KeySet>,
                       key: KeySet, found: set<Lid>, sharing: set<KeySet>)
    requires RepresentativesIndexed(entries, id2KeySet) && IdsIndexed(entries, lid2Id, id2KeySet)
    requires found == set x | x in key.keys && x in lid2Id :: lid2Id[x]
    requires sharing == set k | k in entries && Overlaps(k, key)
    ensures (set k | k in sharing :: k.Front()) <= found
  {
    forall k | k in sharing
      ensures k.Front() in found
    {
      var x :| x in k.keys && x in key.keys;
      assert lid2Id[x] == k.Front();
    }
  }

  /**
   * The loop state of locateAndInvalidateOtherSubsets: every pending
   * representative names a set still sharing an id with the key, every
   * sharing set not yet removed is live and pending, and removed sets are gone.
   */
  ghost predicate Pending(entries: map<KeySet, CompressedBlobSet>, id2KeySet: map<Lid, KeySet>,
                          sharing: set<KeySet>, removed: set<KeySet>, remaining: set<Lid>) {
    && removed <= sharing
    && (forall k | k in removed :: k !in entries)
    && (forall r | r in remaining :: r in id2KeySet && id2KeySet[r] in sharing)
    && (forall k | k in sharing && k !in removed :: k in entries && k.keys != [] && k.keys[0] in remaining)
  }

  /** At the start every representative found is pending and nothing is removed. */
  lemma PendingInit(entries: map<KeySet, CompressedBlobSet>, id2KeySet: map<Lid, KeySet>,
                    sharing: set<KeySet>, found: set<Lid>)
    requires RepresentativesIndexed(entries, id2KeySet)
    requires sharing <= entries.Keys
    requires found == set k | k in sharing :: k.Front()
    ensures Pending(entries, id2KeySet, sharing, {}, found)
  {
    forall r | r in found
      ensures r in id2KeySet && id2KeySet[r] in sharing
    {
      var k :| k in sharing && k.Front() == r;
    }
  }

  /** Invalidating the set of one pending representative keeps the loop state. */
  lemma PendingStep(entries: map<KeySet, CompressedBlobSet>, lid2Id: map<Lid, Lid>, id2KeySet: map<Lid, KeySet>,
                    sharing: set<KeySet>, removed: set<KeySet>, remaining: set<Lid>, keyId: Lid)
    requires RepresentativesIndexed(entries, id2KeySet) && IdsIndexed(entries, lid2Id, id2KeySet)
    requires Pending(entries, id2KeySet, sharing, removed, remaining)
    requires keyId in remaining
    ensures id2KeySet[keyId] in entries && id2KeySet[keyId].keys[0] == keyId
    ensures Pending(entries - {id2KeySet[keyId]}, id2KeySet - {keyId}, sharing,
                    removed + {id2KeySet[keyId]}, remaining - {keyId})
  {
    var victim := id2KeySet[keyId];
    assert victim in entries by {
      assert victim in sharing;
      assert victim.keys[0] == keyId;
    }
    forall k | k in sharing && k !in removed && k != victim
      ensures k.keys[0] != keyId
    {
      assert id2KeySet[k.keys[0]] == k;
    }
  }

  /** Removing the sets of `removed`, then `victim`, is removing all of them at once. */
  lemma RemoveOneMore<K, V>(m: map<K, V>, removed: set<K>, victim: K)
    ensures (m - removed) - {victim} == m - (removed + {victim})
  {
  }

  /** Once every sharing set is removed, no live set shares an id with the key and none of its ids is mapped. */
  lemma NothingSharedLeft(entries: map<KeySet, CompressedBlobSet>, lid2Id: map<Lid, Lid>, id2KeySet: map<Lid, KeySet>,
                          key: KeySet, sharing: set<KeySet>, removed: set<KeySet>)
    requires RepresentativesIndexed(entries, id2KeySet) && IdsIndexed(entries, lid2Id, id2KeySet)
    requires Pending(entries, id2KeySet, sharing, removed, {})
    requires forall k | k in entries && Overlaps(k, key) :: k in sharing
    ensures removed == sharing
    ensures forall k | k in entries :: !Overlaps(k, key)
    ensures forall x | x in key.keys :: x !in lid2Id
  {
    forall x | x in lid2Id
      ensures x !in key.keys
    {
      var owner := id2KeySet[lid2Id[x]];
      assert owner in entries && x in owner.keys;
    }
  }

  class Cache {
    const store: BackingStore
    /** The generic cache's live entries. */
    var entries: map<KeySet, CompressedBlobSet>
    /** _lid2Id: document id to the representative of the live set holding it. */
    var lid2Id: map<Lid, Lid>
    /** _id2KeySet: representative to its live set. */
    var id2KeySet: map<Lid, KeySet>

    /** The reverse index mirrors the live entries; see Indexed. */
    ghost predicate Valid()
      reads this
    {
      Indexed(entries, lid2Id, id2KeySet)
    }

    /** The live sets that share an id with `key`. */
    ghost function SharingWith(key: KeySet): set<KeySet>
      reads this
    {
      set k | k in entries && Overlaps(k, key)
    }

    constructor (store: BackingStore)
      ensures Valid()
      ensures this.store == store
      ensures entries == map[] && lid2Id == map[] && id2KeySet == map[]
    {
      this.store := store;
      entries := map[];
      lid2Id := map[];
      id2KeySet := map[];
    }

    /**
     * The no-overlap invariant: two different live sets share no id, and
     * each mapped id's representative is the smallest id of the one live
     * set holding it.
     */
    lemma NoOverlap()
      requires Valid()
      ensures forall k1, k2 | k1 in entries && k2 in entries && Overlaps(k1, k2) :: k1 == k2
      ensures forall x | x in lid2Id ::
        && id2KeySet[lid2Id[x]] in entries
        && x in id2KeySet[lid2Id[x]].keys
        && lid2Id[x] == id2KeySet[lid2Id[x]].Front()
        && (forall y | y in id2KeySet[lid2Id[x]].keys :: lid2Id[x] <= y)
    {
      forall k1, k2 | k1 in entries && k2 in entries && Overlaps(k1, k2)
        ensures k1 == k2
      {
        var x :| x in k1.keys && x in k2.keys;
        assert lid2Id[x] == k1.Front() == k2.Front();
      }
    }

    /** onInsert(key): files `key` under its first id and points each of its ids there. */
    method OnInsert(key: KeySet)
      requires key.keys != []
      modifies this
      ensures entries == old(entries)
      ensures id2KeySet == old(id2KeySet)[key.Front() := key]
      ensures lid2Id == old(lid2Id) + MapIdsTo(key.keys, key.Front())
    {
      var first := key.keys[0];
      id2KeySet := id2KeySet[first := key];
      var i := 0;
      while i < |key.keys|
        invariant 0 <= i <= |key.keys|
        invariant entries == old(entries)
        invariant id2KeySet == old(id2KeySet)[first := key]
        invariant lid2Id == old(lid2Id) + MapIdsTo(key.keys[..i], first)
      {
        MapIdsToStep(old(lid2Id), key.keys, i, first);
        lid2Id := lid2Id[key.keys[i] := first];
        i := i + 1;
      }
      assert key.keys[..i] == key.keys;
    }

    /** onRemove(key): forgets each id of `key`, then the entry of its first id. */
    method OnRemove(key: KeySet)
      requires key.keys != []
      modifies this
      ensures entries == old(entries)
      ensures lid2Id == old(lid2Id) - IdsOf(key.keys)
      ensures id2KeySet == old(id2KeySet) - {key.Front()}
    {
      var i := 0;
      while i < |key.keys|
        invariant 0 <= i <= |key.keys|
        invariant entries == old(entries) && id2KeySet == old(id2KeySet)
        invariant lid2Id == old(lid2Id) - IdsOf(key.keys[..i])
      {
        IdsOfStep(old(lid2Id), key.keys, i);
        lid2Id := lid2Id - {key.keys[i]};
        i := i + 1;
      }
      assert key.keys[..i] == key.keys;
      id2KeySet := id2KeySet - {key.keys[0]};
    }

    /** The generic cache's invalidate: a live `key` is erased and onRemove runs; otherwise nothing happens. */
    method Invalidate(key: KeySet)
      requires Valid()
      modifies this
      ensures Valid()
      ensures entries == old(entries) - {key}
      ensures key in old(entries) ==>
        lid2Id == old(lid2Id) - IdsOf(key.keys) && id2KeySet == old(id2KeySet) - {key.Front()}
      ensures key !in old(entries) ==> lid2Id == old(lid2Id) && id2KeySet == old(id2KeySet)
    {
      if key in entries {
        RemoveKeepsIndex(entries, lid2Id, id2KeySet, key);
        entries := entries - {key};
        OnRemove(key);
      }
    }

    /**
     * findSetsContaining(keys): the representatives of the ids of `key` that
     * are mapped; under the invariant, exactly the representatives of the
     * live sets sharing an id with `key`.
     */
    method FindSetsContaining(key: KeySet) returns (found: set<Lid>)
      ensures found == set x | x in key.keys && x in lid2Id :: lid2Id[x]
      ensures Valid() ==> found == set k | k in SharingWith(key) :: k.Front()
    {
      found := {};
      var i := 0;
      while i < |key.keys|
        invariant 0 <= i <= |key.keys|
        invariant found == set x | x in key.keys[..i] && x in lid2Id :: lid2Id[x]
      {
        assert key.keys[..i + 1] == key.keys[..i] + [key.keys[i]];
        var subKey := key.keys[i];
        if subKey in lid2Id {
          found := found + {lid2Id[subKey]};
        }
        i := i + 1;
      }
      assert key.keys[..i] == key.keys;
      if Valid() {
        RepresentativesOfSharing(entries, lid2Id, id2KeySet, key, found, SharingWith(key));
      }
    }

    /**
     * locateAndInvalidateOtherSubsets(keys): invalidates every live set that
     * shares an id with `key`, so afterwards no live set does and none of
     * the ids of `key` is mapped.
     */
    method LocateAndInvalidateOtherSubsets(key: KeySet)
      requires Valid()
      modifies this
      ensures Valid()
      ensures entries == old(entries) - old(SharingWith(key))
      ensures forall k | k in entries :: !Overlaps(k, key)
      ensures forall x | x in key.keys :: x !in lid2Id
    {
      ghost var sharing := SharingWith(key);
      var otherSubSets := FindSetsContaining(key);
      var remaining := otherSubSets;
      ghost var removed: set<KeySet> := {};
      PendingInit(entries, id2KeySet, sharing, otherSubSets);
      while remaining != {}
        invariant Valid()
        invariant Pending(entries, id2KeySet, sharing, removed, remaining)
        invariant entries == old(entries) - removed
        decreases remaining
      {
        var keyId :| keyId in remaining;
        var victim := id2KeySet[keyId];
        PendingStep(entries, lid2Id, id2KeySet, sharing, removed, remaining, keyId);
        Invalidate(victim);
        RemoveOneMore(old(entries), removed, victim);
        removed := removed + {victim};
        remaining := remaining - {keyId};
      }
      NothingSharedLeft(entries, lid2Id, id2KeySet, key, sharing, removed);
    }

    /**
     * The generic cache's read: an exact hit returns the cached value; a miss
     * asks the store and caches the result (running onInsert) only when
     * something was found. The caller must have cleared every overlapping set.
     */
    method Read(key: KeySet, visits: seq<Visit>) returns (value: CompressedBlobSet)
      requires Valid()
      requires key.keys != [] && Sorted(key.keys)
      requires key in entries || forall k | k in entries :: !Overlaps(k, key)
      modifies this
      ensures Valid()
      ensures key in old(entries) ==>
        value == old(entries)[key] && entries == old(entries) &&
        lid2Id == old(lid2Id) && id2KeySet == old(id2KeySet)
      ensures key !in old(entries) ==>
        value == store.Fetched(visits) &&
        entries == if value.Empty() then old(entries) else old(entries)[key := value]
    {
      if key in entries {
        value := entries[key];
      } else {
        var found;
        value, found := store.Read(visits);
        if found {
          InsertKeepsIndex(entries, lid2Id, id2KeySet, key, value);
          entries := entries[key := value];
          OnInsert(key);
        }
      }
    }

    /**
     * readSet(key): an empty key gives the default value and touches
     * nothing; otherwise, unless `key` is an exact hit, every live set sharing
     * an id with it is invalidated first, then the generic read runs.
     */
    method ReadSet(key: KeySet, visits: seq<Visit>) returns (value: CompressedBlobSet)
      requires Valid() && Sorted(key.keys)
      modifies this
      ensures Valid()
      ensures key.Empty() ==>
        value == DefaultCompressedBlobSet() && entries == old(entries) &&
        lid2Id == old(lid2Id) && id2KeySet == old(id2KeySet)
      ensures !key.Empty() && key in old(entries) ==>
        value == old(entries)[key] && entries == old(entries)
      ensures !key.Empty() && key !in old(entries) ==>
        value == store.Fetched(visits) &&
        entries == if value.Empty() then old(entries) - old(SharingWith(key))
                   else (old(entries) - old(SharingWith(key)))[key := value]
    {
      if !key.Empty() {
        if key !in entries {
          LocateAndInvalidateOtherSubsets(key);
        }
        value := Read(key, visits);
        return;
      }
      value := DefaultCompressedBlobSet();
    }

    /**
     * removeKey(subKey): when `subKey` is mapped, the whole live set holding
     * it is invalidated; otherwise nothing changes.
     */
    method RemoveKey(subKey: Lid)
      requires Valid()
      modifies this
      ensures Valid()
      ensures entries == old(entries) - (set k | k in old(entries) && subKey in k.keys)
      ensures subKey !in old(lid2Id) ==> entries == old(entries) && lid2Id == old(lid2Id) && id2KeySet == old(id2KeySet)
      ensures subKey in old(lid2Id) ==>
        lid2Id == old(lid2Id) - IdsOf(old(id2KeySet)[old(lid2Id)[subKey]].keys)
      ensures subKey !in lid2Id
    {
      NoOverlap();
      if subKey in lid2Id {
        var keySet := id2KeySet[lid2Id[subKey]];
        assert (set k | k in entries && subKey in k.keys) == {keySet};
        Invalidate(keySet);
      } else {
        assert (set k | k in entries && subKey in k.keys) == {};
      }
    }
  }

  /** One more loop step of onInsert maps one more id. */
  lemma MapIdsToStep(m: map<Lid, Lid>, ids: seq<Lid>, i: nat, r: Lid)
    requires i < |ids|
    ensures m + MapIdsTo(ids[..i + 1], r) == (m + MapIdsTo(ids[..i], r))[ids[i] := r]
  {
    assert ids[..i + 1] == ids[..i] + [ids[i]];
  }

  /** One more loop step of onRemove erases one more id. */
  lemma IdsOfStep(m: map<Lid, Lid>, ids: seq<Lid>, i: nat)
    requires i < |ids|
    ensures m - IdsOf(ids[..i + 1]) == (m - IdsOf(ids[..i])) - {ids[i]}
  {
    assert ids[..i + 1] == ids[..i] + [ids[i]];
    assert IdsOf(ids[..i + 1]) == IdsOf(ids[..i]) + {ids[i]};
  }

  /** The facade: builds the key from the requested ids and delegates to the cache. */
  class VisitCache {
    const cache: Cache

    /** VisitCache(store, cacheSize, compression): an empty cache over the store. */
    constructor (store: BackingStore)
      ensures fresh(cache) && cache.Valid() && cache.store == store
      ensures cache.entries == map[]
    {
      cache := new Cache(store);
    }

    /**
     * read(lids): the value for the sorted ids; afterwards that set is live
     * iff the value is non-empty, no other live set shares an id with it,
     * and no other set became live.
     */
    method Read(lids: seq<Lid>, visits: seq<Visit>) returns (value: CompressedBlobSet)
      requires cache.Valid()
      modifies cache
      ensures cache.Valid()
      ensures lids == [] ==> value == DefaultCompressedBlobSet() && value.Empty() && cache.entries == old(cache.entries)
      ensures lids != [] && FromLids(lids) in old(cache.entries) ==>
        value == old(cache.entries)[FromLids(lids)] && cache.entries == old(cache.entries)
      ensures lids != [] && FromLids(lids) !in old(cache.entries) ==>
        value == cache.store.Fetched(visits) &&
        cache.entries == if value.Empty() then old(cache.entries) - old(cache.SharingWith(FromLids(lids)))
                         else (old(cache.entries) - old(cache.SharingWith(FromLids(lids))))[FromLids(lids) := value]
      ensures lids != [] ==>
        (FromLids(lids) in cache.entries <==> !value.Empty()) &&
        (FromLids(lids) in cache.entries ==> cache.entries[FromLids(lids)] == value)
      ensures forall k | k in cache.entries && k != FromLids(lids) :: !Overlaps(k, FromLids(lids))
      ensures forall k | k in cache.entries :: k in old(cache.entries) || k == FromLids(lids)
    {
      var key := FromLids(lids);
      value := cache.ReadSet(key, visits);
      cache.NoOverlap();
    }

    /** remove(lid): drops the whole live set holding `lid`, if any. */
    method Remove(lid: Lid)
      requires cache.Valid()
      modifies cache
      ensures cache.Valid()
      ensures cache.entries == old(cache.entries) - (set k | k in old(cache.entries) && lid in k.keys)
      ensures lid !in cache.lid2Id
    {
      cache.RemoveKey(lid);
    }
  }

  /** Reading a set that shares no id with a live set leaves that set cached with its value. */
  method DisjointSetStaysCached(c: Cache, a: KeySet, b: KeySet, visits: seq<Visit>)
    requires c.Valid() && a in c.entries && Sorted(b.keys) && !Overlaps(a, b)
    modifies c
    ensures c.Valid()
    ensures a in c.entries && c.entries[a] == old(c.entries[a])
  {
    assert a !in c.SharingWith(b);
    var _ := c.ReadSet(b, visits);
  }

  /** Reading a different set that shares an id with a live set evicts that set. */
  method OverlappingSetIsEvicted(c: Cache, a: KeySet, b: KeySet, visits: seq<Visit>)
    requires c.Valid() && a in c.entries && Sorted(b.keys) && Overlaps(a, b) && a != b
    modifies c
    ensures c.Valid()
    ensures a !in c.entries
  {
    c.NoOverlap();
    assert a in c.SharingWith(b);
    var _ := c.ReadSet(b, visits);
  }
}
