/** The read path on a true cache miss (VisitCollector and VisitCache::BackingStore in visitcache.cpp). */
module BackingStores {
  import opened KeySets
  import opened BlobSets
  import opened CompressedBlobSets

  /** The visits a collector keeps: zero-length blobs count as absent and are skipped. */
  function Collected(visits: seq<Visit>): (kept: seq<Visit>)
    ensures |kept| <= |visits|
    ensures forall v | v in kept :: v in visits && |v.blob| > 0
    ensures forall v | v in visits && |v.blob| > 0 :: v in kept
  {
    if visits == [] then []
    else
      var prev := Collected(visits[..|visits| - 1]);
      var last := visits[|visits| - 1];
      assert visits == visits[..|visits| - 1] + [last];
      if |last.blob| > 0 then prev + [last] else prev
  }

  /** Each non-empty visit is kept as often as the store delivered it, each empty one never. */
  lemma {:induction false} CollectedCounts(visits: seq<Visit>)
    ensures forall v :: multiset(Collected(visits))[v] == if |v.blob| > 0 then multiset(visits)[v] else 0
  {
    if visits != [] {
      var prefix := visits[..|visits| - 1];
      var last := visits[|visits| - 1];
      CollectedCounts(prefix);
      assert visits == prefix + [last];
      assert multiset(visits) == multiset(prefix) + multiset{last};
    }
  }

  /**
   * Order is kept: the first non-empty blob delivered for `lid` is also the
   * first entry for `lid` among the kept visits.
   */
  lemma CollectedFirst(visits: seq<Visit>, lid: Lid, i: nat) returns (k: nat)
    requires i < |visits| && visits[i].lid == lid && |visits[i].blob| > 0
    requires forall j | 0 <= j < i :: !(visits[j].lid == lid && |visits[j].blob| > 0)
    ensures k < |Collected(visits)| && Collected(visits)[k] == visits[i]
    ensures forall j | 0 <= j < k :: Collected(visits)[j].lid != lid
  {
    var before := Collected(visits[..i]);
    var through := Collected(visits[..i + 1]);
    var all := Collected(visits);
    CollectedAbsent(visits[..i], lid);
    CollectedStep(visits, i);
    CollectedPrefix(visits, i + 1);
    k := |before|;
    assert through == before + [visits[i]];
    assert all[k] == through[k];
    forall j | 0 <= j < k ensures all[j].lid != lid {
      assert all[j] == through[j] == before[j];
    }
  }

  /** The visits kept from a prefix of the store's visits are a prefix of those kept from all. */
  lemma {:induction false} CollectedPrefix(visits: seq<Visit>, m: nat)
    requires m <= |visits|
    ensures |Collected(visits[..m])| <= |Collected(visits)|
    ensures Collected(visits[..m]) == Collected(visits)[..|Collected(visits[..m])|]
    decreases |visits| - m
  {
    if m < |visits| {
      var prev := Collected(visits[..m]);
      var next := Collected(visits[..m + 1]);
      var all := Collected(visits);
      CollectedPrefix(visits, m + 1);
      CollectedStep(visits, m);
      assert |prev| <= |next| <= |all|;
      assert next == all[..|next|];
      assert all[..|next|][..|prev|] == all[..|prev|];
    } else {
      assert visits[..m] == visits;
      assert Collected(visits[..m]) == Collected(visits);
    }
  }

  /** One more visit extends the kept list at its end, by that visit when it has bytes. */
  lemma CollectedStep(visits: seq<Visit>, m: nat)
    requires m < |visits|
    ensures var prev := Collected(visits[..m]);
      && |prev| <= |Collected(visits[..m + 1])|
      && Collected(visits[..m + 1])[..|prev|] == prev
      && (|visits[m].blob| > 0 ==> Collected(visits[..m + 1]) == prev + [visits[m]])
  {
    assert visits[..m + 1][..m] == visits[..m];
  }

  /** No kept visit is for `lid` when the store delivered no non-empty blob for it. */
  lemma CollectedAbsent(visits: seq<Visit>, lid: Lid)
    requires forall j | 0 <= j < |visits| :: !(visits[j].lid == lid && |visits[j].blob| > 0)
    ensures forall j | 0 <= j < |Collected(visits)| :: Collected(visits)[j].lid != lid
  {
    forall j | 0 <= j < |Collected(visits)| ensures Collected(visits)[j].lid != lid {
      assert Collected(visits)[j] in Collected(visits);
    }
  }

  /** Collects what the store visits into a BlobSet. */
  class VisitCollector {
    const blobSet: BlobSet

    constructor ()
      ensures fresh(blobSet)
      ensures blobSet.Valid() && blobSet.positions == [] && blobSet.buffer == []
    {
      blobSet := new BlobSet();
    }

    /** visit(lid, buf): appends the blob unless it is empty. */
    method Visit(lid: Lid, buf: seq<byte>)
      requires blobSet.Valid()
      modifies blobSet
      ensures blobSet.Valid()
      ensures |buf| > 0 ==>
        blobSet.positions == AppendPosition(old(blobSet.positions), lid, |buf|) &&
        blobSet.buffer == old(blobSet.buffer) + buf
      ensures |buf| == 0 ==> blobSet.positions == old(blobSet.positions) && blobSet.buffer == old(blobSet.buffer)
    {
      if |buf| > 0 {
        blobSet.Append(lid, buf);
      }
    }
  }

  /** The store adapter: the compression it applies and the library that does it. */
  datatype BackingStore = BackingStore(compression: CompressionConfig, codec: Codec)
  {
    /** The value `read` produces when the store delivers `visits`. */
    function Fetched(visits: seq<Visit>): (r: CompressedBlobSet)
      ensures |r.positions| == |Collected(visits)|
      ensures r.Empty() <==> forall v | v in visits :: |v.blob| == 0
    {
      FoundIffNonEmptyVisit(visits);
      PackedLayout(Collected(visits));
      Compress(compression, codec, PackedPositions(Collected(visits)), PackedBuffer(Collected(visits)))
    }

    /**
     * read(key, blobs): runs the store's visit over `key` (here: the blobs
     * it delivered, in its order), packs the non-empty ones, compresses the
     * packing and reports whether anything was found.
     */
    method Read(visits: seq<Visit>) returns (blobs: CompressedBlobSet, found: bool)
      ensures blobs == Fetched(visits)
      ensures found <==> !blobs.Empty()
      ensures found <==> exists v | v in visits :: |v.blob| > 0
    {
      var collector := new VisitCollector();
      var i := 0;
      while i < |visits|
        invariant 0 <= i <= |visits|
        invariant collector.blobSet.Valid()
        invariant collector.blobSet.positions == PackedPositions(Collected(visits[..i]))
        invariant collector.blobSet.buffer == PackedBuffer(Collected(visits[..i]))
      {
        assert visits[..i + 1][..i] == visits[..i];
        collector.Visit(visits[i].lid, visits[i].blob);
        i := i + 1;
      }
      assert visits[..i] == visits;
      blobs := Compress(compression, codec, collector.blobSet.positions, collector.blobSet.buffer);
      found := !blobs.Empty();
      FoundIffNonEmptyVisit(visits);
    }
  }

  /** The packing is empty exactly when the store delivered no non-empty blob. */
  lemma FoundIffNonEmptyVisit(visits: seq<Visit>)
    ensures PackedPositions(Collected(visits)) == [] <==> forall v | v in visits :: |v.blob| == 0
  {
    PackedLayout(Collected(visits));
    if PackedPositions(Collected(visits)) != [] {
      assert Collected(visits)[0] in Collected(visits);
    }
  }

  /**
   * What a cache miss hands back: after decompression, an id gives exactly
   * the first non-empty blob the store delivered for it.
   */
  lemma FetchedLookup(store: BackingStore, visits: seq<Visit>, lid: Lid, i: nat)
    requires RoundTrips(store.codec)
    requires i < |visits| && visits[i].lid == lid && |visits[i].blob| > 0
    requires forall j | 0 <= j < i :: !(visits[j].lid == lid && |visits[j].blob| > 0)
    ensures WithinBuffer(store.Fetched(visits).positions, |store.Fetched(visits).Uncompressed(store.codec)|)
    ensures Lookup(store.Fetched(visits).positions, store.Fetched(visits).Uncompressed(store.codec), lid) ==
            visits[i].blob
  {
    var k := CollectedFirst(visits, lid, i);
    CompressedLookup(store.compression, store.codec, Collected(visits), lid, k);
  }

  /** ... and an id the store delivered only empty blobs for, or none, gives no bytes. */
  lemma FetchedLookupAbsent(store: BackingStore, visits: seq<Visit>, lid: Lid)
    requires RoundTrips(store.codec)
    requires forall j | 0 <= j < |visits| :: !(visits[j].lid == lid && |visits[j].blob| > 0)
    ensures WithinBuffer(store.Fetched(visits).positions, |store.Fetched(visits).Uncompressed(store.codec)|)
    ensures Lookup(store.Fetched(visits).positions, store.Fetched(visits).Uncompressed(store.codec), lid) == []
  {
    CollectedAbsent(visits, lid);
    CompressedLookupAbsent(store.compression, store.codec, Collected(visits), lid);
  }
}
