/** The cached value: a BlobSet's position table and its compressed buffer (CompressedBlobSet in visitcache.cpp). */
module CompressedBlobSets {
  import opened KeySets
  import opened BlobSets

  /** The codec kinds the model distinguishes; a codec may answer with another kind than the one asked for. */
  datatype CompressionType = NONE | UNCOMPRESSABLE | LZ4

  /** The requested compression: a codec kind and a level. */
  datatype CompressionConfig = CompressionConfig(kind: CompressionType, level: nat)

  /**
   * The compression library as two functions: `compress` returns the kind
   * actually applied and the output, `decompress` takes that kind, the
   * expected uncompressed length and the compressed bytes.
   */
  datatype Codec = Codec(
    compress: (CompressionConfig, seq<byte>) -> (CompressionType, seq<byte>),
    decompress: (CompressionType, nat, seq<byte>) -> seq<byte>)

  /** What the store relies on from the library: decompressing a compressed buffer gives the input back. */
  ghost predicate RoundTrips(codec: Codec) {
    forall cfg, input ::
      codec.decompress(codec.compress(cfg, input).0, |input|, codec.compress(cfg, input).1) == input
  }

  datatype CompressedBlobSet = CompressedBlobSet(
    compression: CompressionType,
    positions: seq<LidPosition>,
    buffer: seq<byte>)
  {
    /** empty(): no positions. */
    predicate Empty() {
      positions == []
    }

    /** The bytes `getBlobSet` decompresses; no library call without positions. */
    function Uncompressed(codec: Codec): seq<byte> {
      if positions == [] then [] else codec.decompress(compression, BufferSize(positions), buffer)
    }

    /**
     * getBlobSet(): a fresh BlobSet over the same position table whose buffer
     * is the first getBufferSize(positions) decompressed bytes. Decompression
     * changes nothing, so repeated calls give equal sets. The source only
     * passes the expected length to the library and never checks what came
     * back; the requires states what a library that keeps that promise gives.
     */
    method GetBlobSet(codec: Codec) returns (b: BlobSet)
      requires BufferSize(positions) <= |Uncompressed(codec)|
      ensures fresh(b)
      ensures b.positions == positions
      ensures b.buffer == Uncompressed(codec)[..BufferSize(positions)]
    {
      var uncompressed: seq<byte> := [];
      if positions != [] {
        uncompressed := codec.decompress(compression, BufferSize(positions), buffer);
      }
      b := new BlobSet.FromParts(positions, uncompressed);
    }
  }

  /** CompressedBlobSet(): LZ4, no positions, no bytes. */
  function DefaultCompressedBlobSet(): (c: CompressedBlobSet)
    ensures c.Empty()
  {
    CompressedBlobSet(LZ4, [], [])
  }

  /**
   * CompressedBlobSet(compression, blobSet): copies the table verbatim and,
   * when there are positions, compresses the whole buffer as one unit and
   * keeps the kind the library reports.
   */
  function Compress(cfg: CompressionConfig, codec: Codec, positions: seq<LidPosition>, buffer: seq<byte>): (c: CompressedBlobSet)
    ensures c.positions == positions
    ensures c.Empty() <==> positions == []
    ensures positions == [] ==> c.compression == cfg.kind && c.buffer == []
  {
    if positions == [] then
      CompressedBlobSet(cfg.kind, [], [])
    else
      var (kind, out) := codec.compress(cfg, buffer);
      CompressedBlobSet(kind, positions, out)
  }

  /**
   * Compressing a valid BlobSet and decompressing it again gives back its
   * position table and its buffer, provided the library round-trips.
   */
  lemma CompressRoundTrip(cfg: CompressionConfig, codec: Codec, positions: seq<LidPosition>, buffer: seq<byte>)
    requires RoundTrips(codec)
    requires |buffer| == BufferSize(positions)
    ensures Compress(cfg, codec, positions, buffer).positions == positions
    ensures Compress(cfg, codec, positions, buffer).Uncompressed(codec) == buffer
  {
    if positions != [] {
      var (kind, out) := codec.compress(cfg, buffer);
      assert codec.decompress(kind, |buffer|, out) == buffer;
    }
  }

  /**
   * Compressing a valid BlobSet and calling getBlobSet twice: each call
   * rebuilds the original position table and bytes, so the two agree.
   */
  method RoundTripBlobSet(cfg: CompressionConfig, codec: Codec, b: BlobSet) returns (first: BlobSet, second: BlobSet)
    requires b.Valid() && RoundTrips(codec)
    ensures fresh(first) && fresh(second)
    ensures first.positions == second.positions == b.positions
    ensures first.buffer == second.buffer == b.buffer
  {
    var c := Compress(cfg, codec, b.positions, b.buffer);
    CompressRoundTrip(cfg, codec, b.positions, b.buffer);
    first := c.GetBlobSet(codec);
    second := c.GetBlobSet(codec);
  }

  /**
   * End-to-end: after compressing the packing of `items` and decompressing,
   * `get(lid)` gives the bytes of the first blob appended for `lid`.
   */
  lemma {:induction false} CompressedLookup(cfg: CompressionConfig, codec: Codec, items: seq<Visit>, lid: Lid, i: nat)
    requires RoundTrips(codec)
    requires i < |items| && items[i].lid == lid
    requires forall j | 0 <= j < i :: items[j].lid != lid
    ensures var c := Compress(cfg, codec, PackedPositions(items), PackedBuffer(items));
      && BufferSize(c.positions) <= |c.Uncompressed(codec)|
      && WithinBuffer(c.positions, |c.Uncompressed(codec)|)
      && Lookup(c.positions, c.Uncompressed(codec), lid) == items[i].blob
  {
    PackedLayout(items);
    PackedLookup(items, lid, i);
    CompressRoundTrip(cfg, codec, PackedPositions(items), PackedBuffer(items));
  }

  /** End-to-end: an id never appended finds nothing after the round trip. */
  lemma CompressedLookupAbsent(cfg: CompressionConfig, codec: Codec, items: seq<Visit>, lid: Lid)
    requires RoundTrips(codec)
    requires forall j | 0 <= j < |items| :: items[j].lid != lid
    ensures var c := Compress(cfg, codec, PackedPositions(items), PackedBuffer(items));
      && WithinBuffer(c.positions, |c.Uncompressed(codec)|)
      && Lookup(c.positions, c.Uncompressed(codec), lid) == []
  {
    PackedLayout(items);
    PackedLookupAbsent(items, lid);
    CompressRoundTrip(cfg, codec, PackedPositions(items), PackedBuffer(items));
  }
}
