/** The uncompressed packing of several documents' bytes (BlobSet in visitcache.cpp). */
module BlobSets {
  import opened KeySets

  type byte = x: int | 0 <= x < 0x100

  /** Where one document's bytes live in the packed buffer. */
  datatype LidPosition = LidPosition(lid: Lid, offset: nat, size: nat)

  /** One document as the store hands it over: its id and its bytes. */
  datatype Visit = Visit(lid: Lid, blob: seq<byte>)

  /** getBufferSize: the end of the last position, or 0 without positions. */
  function BufferSize(p: seq<LidPosition>): nat {
    if p == [] then 0 else p[|p| - 1].offset + p[|p| - 1].size
  }

  /** The layout `append` produces: each blob starts where the previous one ends, the first at 0. */
  ghost predicate Contiguous(p: seq<LidPosition>) {
    p == [] || (Contiguous(p[..|p| - 1]) && p[|p| - 1].offset == BufferSize(p[..|p| - 1]))
  }

  /** Every position lies inside a buffer of `n` bytes. */
  ghost predicate WithinBuffer(p: seq<LidPosition>, n: nat) {
    forall i | 0 <= i < |p| :: p[i].offset + p[i].size <= n
  }

  function SumOfSizes(p: seq<LidPosition>): nat {
    if p == [] then 0 else SumOfSizes(p[..|p| - 1]) + p[|p| - 1].size
  }

  /**
   * In a contiguous layout the buffer end is the total of all sizes and
   * every position ends at or before it.
   */
  lemma {:induction false} ContiguousLayout(p: seq<LidPosition>)
    requires Contiguous(p)
    ensures BufferSize(p) == SumOfSizes(p)
    ensures WithinBuffer(p, BufferSize(p))
  {
    if p != [] {
      var prev := p[..|p| - 1];
      ContiguousLayout(prev);
      forall i | 0 <= i < |p|
        ensures p[i].offset + p[i].size <= BufferSize(p)
      {
        if i < |p| - 1 {
          assert p[i] == prev[i];
        }
      }
    }
  }

  /** The index of the first position for `lid`, or |p| when there is none. */
  function FirstMatch(p: seq<LidPosition>, lid: Lid): (i: nat)
    ensures i <= |p|
    ensures i < |p| ==> p[i].lid == lid
    ensures forall j | 0 <= j < i :: p[j].lid != lid
  {
    if p == [] then 0
    else if p[0].lid == lid then 0
    else 1 + FirstMatch(p[1..], lid)
  }

  /** What `get(lid)` returns: the bytes of the first position for `lid`, or nothing. */
  function Lookup(p: seq<LidPosition>, buffer: seq<byte>, lid: Lid): seq<byte>
    requires WithinBuffer(p, |buffer|)
  {
    var i := FirstMatch(p, lid);
    if i == |p| then [] else buffer[p[i].offset .. p[i].offset + p[i].size]
  }

  /** `get(lid)` gives the empty view when no position has the id `lid`. */
  lemma LookupNone(p: seq<LidPosition>, buffer: seq<byte>, lid: Lid)
    requires WithinBuffer(p, |buffer|)
    requires forall j | 0 <= j < |p| :: p[j].lid != lid
    ensures Lookup(p, buffer, lid) == []
  {
  }

  /** `get(lid)` gives the bytes at the first position whose id is `lid`. */
  lemma LookupFirst(p: seq<LidPosition>, buffer: seq<byte>, lid: Lid, j: nat)
    requires WithinBuffer(p, |buffer|)
    requires j < |p| && p[j].lid == lid
    requires forall m | 0 <= m < j :: p[m].lid != lid
    ensures Lookup(p, buffer, lid) == buffer[p[j].offset .. p[j].offset + p[j].size]
  {
  }

  /** The position table after appending a blob of `size` bytes for `lid`. */
  function AppendPosition(p: seq<LidPosition>, lid: Lid, size: nat): seq<LidPosition> {
    p + [LidPosition(lid, BufferSize(p), size)]
  }

  /** Appending keeps the layout contiguous and the buffer exactly as long as the table says. */
  lemma AppendKeepsLayout(p: seq<LidPosition>, buffer: seq<byte>, lid: Lid, blob: seq<byte>)
    requires Contiguous(p) && |buffer| == BufferSize(p)
    ensures Contiguous(AppendPosition(p, lid, |blob|))
    ensures |buffer + blob| == BufferSize(AppendPosition(p, lid, |blob|))
  {
    var q := AppendPosition(p, lid, |blob|);
    assert q[..|q| - 1] == p;
  }

  /** Appending a position leaves the first match of an earlier id where it was. */
  lemma FirstMatchAppend(p: seq<LidPosition>, x: LidPosition, query: Lid)
    ensures FirstMatch(p + [x], query) ==
      if FirstMatch(p, query) < |p| then FirstMatch(p, query)
      else if x.lid == query then |p|
      else |p| + 1
  {
    var q := p + [x];
    var i := FirstMatch(p, query);
    if i < |p| {
      assert q[i].lid == query;
    } else if x.lid == query {
      assert q[|p|].lid == query;
    } else {
      assert forall j | 0 <= j < |q| :: q[j].lid != query by {
        forall j | 0 <= j < |q| ensures q[j].lid != query {
          if j < |p| { assert q[j] == p[j]; }
        }
      }
    }
  }

  /**
   * `get` after `append(lid, blob)`: ids found before the append still give
   * their old bytes; otherwise the appended id gives exactly `blob`.
   */
  lemma AppendThenLookup(p: seq<LidPosition>, buffer: seq<byte>, lid: Lid, blob: seq<byte>, query: Lid)
    requires Contiguous(p) && |buffer| == BufferSize(p)
    ensures WithinBuffer(p, |buffer|)
    ensures WithinBuffer(AppendPosition(p, lid, |blob|), |buffer + blob|)
    ensures Lookup(AppendPosition(p, lid, |blob|), buffer + blob, query) ==
      if FirstMatch(p, query) < |p| then Lookup(p, buffer, query)
      else if query == lid then blob
      else []
  {
    var x := LidPosition(lid, BufferSize(p), |blob|);
    assert p + [x] == AppendPosition(p, lid, |blob|);
    ContiguousLayout(p);
    AppendWithinBuffer(p, |buffer|, x, |buffer + blob|);
    FirstMatchAppend(p, x, query);
    if FirstMatch(p, query) < |p| {
      LookupEarlier(p, buffer, x, blob, query);
    } else if query == lid {
      LookupAppended(p, buffer, x, blob, query);
    } else {
      LookupNone(p + [x], buffer + blob, query);
    }
  }

  /** An id first found at the appended position gives exactly the appended bytes. */
  lemma LookupAppended(p: seq<LidPosition>, buffer: seq<byte>, x: LidPosition, blob: seq<byte>, query: Lid)
    requires WithinBuffer(p + [x], |buffer + blob|)
    requires x.offset == |buffer| && x.size == |blob|
    requires FirstMatch(p + [x], query) == |p|
    ensures Lookup(p + [x], buffer + blob, query) == blob
  {
    assert (p + [x])[|p|] == x;
    assert (buffer + blob)[|buffer|..|buffer| + |blob|] == blob;
  }

  /** An id found before the append is found at the same position, over the same bytes. */
  lemma LookupEarlier(p: seq<LidPosition>, buffer: seq<byte>, x: LidPosition, blob: seq<byte>, query: Lid)
    requires WithinBuffer(p, |buffer|) && WithinBuffer(p + [x], |buffer + blob|)
    requires FirstMatch(p, query) < |p|
    requires FirstMatch(p + [x], query) == FirstMatch(p, query)
    ensures Lookup(p + [x], buffer + blob, query) == Lookup(p, buffer, query)
  {
    var i := FirstMatch(p, query);
    assert (p + [x])[i] == p[i];
    SliceOfPrefix(buffer, blob, p[i].offset, p[i].offset + p[i].size);
  }

  /** A position appended inside a larger buffer keeps every position inside it. */
  lemma AppendWithinBuffer(p: seq<LidPosition>, n: nat, x: LidPosition, m: nat)
    requires WithinBuffer(p, n) && n <= m && x.offset + x.size <= m
    ensures WithinBuffer(p + [x], m)
  {
    forall i | 0 <= i < |p| + 1
      ensures (p + [x])[i].offset + (p + [x])[i].size <= m
    {
      if i < |p| {
        assert (p + [x])[i] == p[i];
      }
    }
  }

  /** Bytes inside the old buffer read the same after more bytes are appended. */
  lemma SliceOfPrefix(buffer: seq<byte>, more: seq<byte>, lo: nat, hi: nat)
    requires lo <= hi <= |buffer|
    ensures (buffer + more)[lo..hi] == buffer[lo..hi]
  {
  }

  /** The position table of a BlobSet after appending `items` in order to an empty one. */
  function PackedPositions(items: seq<Visit>): seq<LidPosition> {
    if items == [] then []
    else
      var last := items[|items| - 1];
      AppendPosition(PackedPositions(items[..|items| - 1]), last.lid, |last.blob|)
  }

  /** The buffer of a BlobSet after appending `items` in order to an empty one. */
  function PackedBuffer(items: seq<Visit>): seq<byte> {
    if items == [] then [] else PackedBuffer(items[..|items| - 1]) + items[|items| - 1].blob
  }

  /**
   * Packing a list of blobs: the table has one position per blob, in order,
   * with its id and size, the layout is contiguous and the buffer is
   * exactly as long as the table says.
   */
  lemma {:induction false} PackedLayout(items: seq<Visit>)
    ensures Contiguous(PackedPositions(items))
    ensures |PackedBuffer(items)| == BufferSize(PackedPositions(items))
    ensures |PackedPositions(items)| == |items|
    ensures forall i | 0 <= i < |items| ::
      PackedPositions(items)[i].lid == items[i].lid && PackedPositions(items)[i].size == |items[i].blob|
  {
    if items != [] {
      var prev := items[..|items| - 1];
      PackedLayout(prev);
      var last := items[|items| - 1];
      var p := PackedPositions(prev);
      AppendKeepsLayout(p, PackedBuffer(prev), last.lid, last.blob);
      var q := PackedPositions(items);
      assert q == p + [LidPosition(last.lid, BufferSize(p), |last.blob|)];
      forall i | 0 <= i < |items|
        ensures q[i].lid == items[i].lid && q[i].size == |items[i].blob|
      {
        if i < |items| - 1 {
          assert q[i] == p[i] && items[i] == prev[i];
        }
      }
    }
  }

  /** Packing one more blob: ids found before keep their bytes, and a new id finds the last blob. */
  lemma PackedLookupStep(items: seq<Visit>, lid: Lid)
    requires items != []
    ensures WithinBuffer(PackedPositions(items), |PackedBuffer(items)|)
    ensures WithinBuffer(PackedPositions(items[..|items| - 1]), |PackedBuffer(items[..|items| - 1])|)
    ensures FirstMatch(PackedPositions(items[..|items| - 1]), lid) < |items| - 1 ==>
      Lookup(PackedPositions(items), PackedBuffer(items), lid) ==
      Lookup(PackedPositions(items[..|items| - 1]), PackedBuffer(items[..|items| - 1]), lid)
    ensures FirstMatch(PackedPositions(items[..|items| - 1]), lid) == |items| - 1 && items[|items| - 1].lid == lid ==>
      Lookup(PackedPositions(items), PackedBuffer(items), lid) == items[|items| - 1].blob
  {
    var prev := items[..|items| - 1];
    var last := items[|items| - 1];
    PackedLayout(prev);
    AppendThenLookup(PackedPositions(prev), PackedBuffer(prev), last.lid, last.blob, lid);
  }

  /**
   * Round trip of packing: `get(lid)` on the packed set returns the bytes of
   * the first blob appended for `lid`.
   */
  lemma {:induction false} PackedLookup(items: seq<Visit>, lid: Lid, i: nat)
    requires i < |items| && items[i].lid == lid
    requires forall j | 0 <= j < i :: items[j].lid != lid
    ensures WithinBuffer(PackedPositions(items), |PackedBuffer(items)|)
    ensures Lookup(PackedPositions(items), PackedBuffer(items), lid) == items[i].blob
  {
    var prev := items[..|items| - 1];
    PackedLookupStep(items, lid);
    if i < |items| - 1 {
      PackedLookup(prev, lid, i);
      PackedLayout(prev);
      assert PackedPositions(prev)[i].lid == lid;
    } else {
      PackedLookupAbsent(prev, lid);
    }
  }

  /** `get(lid)` on a packed set finds nothing when no blob had that id. */
  lemma PackedLookupAbsent(items: seq<Visit>, lid: Lid)
    requires forall i | 0 <= i < |items| :: items[i].lid != lid
    ensures FirstMatch(PackedPositions(items), lid) == |items|
    ensures WithinBuffer(PackedPositions(items), |PackedBuffer(items)|)
    ensures Lookup(PackedPositions(items), PackedBuffer(items), lid) == []
  {
    var p := PackedPositions(items);
    PackedLayout(items);
    ContiguousLayout(p);
    assert forall j | 0 <= j < |p| :: p[j].lid != lid by {
      forall j | 0 <= j < |p| ensures p[j].lid != lid {
        assert p[j].lid == items[j].lid;
      }
    }
  }

  /** A packed set of document blobs with its position table; `append` grows it in place. */
  class BlobSet {
    var positions: seq<LidPosition>
    var buffer: seq<byte>

    ghost predicate Valid()
      reads this
    {
      Contiguous(positions) && |buffer| == BufferSize(positions)
    }

    /** BlobSet(): no positions, an empty buffer. */
    constructor ()
      ensures Valid()
      ensures positions == [] && buffer == []
    {
      positions := [];
      buffer := [];
    }

    /**
     * BlobSet(positions, buffer): adopts the table and takes the first
     * getBufferSize(positions) bytes of the allocation as its buffer.
     */
    constructor FromParts(positions: seq<LidPosition>, data: seq<byte>)
      requires BufferSize(positions) <= |data|
      ensures this.positions == positions
      ensures buffer == data[..BufferSize(positions)]
    {
      this.positions := positions;
      buffer := data[..BufferSize(positions)];
    }

    /** append(lid, blob): records (lid, old end, size) and writes the bytes at the end. */
    method Append(lid: Lid, blob: seq<byte>)
      requires Valid()
      modifies this
      ensures Valid()
      ensures positions == AppendPosition(old(positions), lid, |blob|)
      ensures buffer == old(buffer) + blob
    {
      AppendKeepsLayout(positions, buffer, lid, blob);
      positions := positions + [LidPosition(lid, BufferSize(positions), |blob|)];
      buffer := buffer + blob;
    }

    /** get(lid): scans the table and returns the bytes of the first match, or an empty view. */
    method Get(lid: Lid) returns (r: seq<byte>)
      requires WithinBuffer(positions, |buffer|)
      ensures r == Lookup(positions, buffer, lid)
    {
      r := [];
      var i := 0;
      while i < |positions|
        invariant 0 <= i <= |positions|
        invariant r == []
        invariant forall j | 0 <= j < i :: positions[j].lid != lid
      {
        var pos := positions[i];
        if pos.lid == lid {
          r := buffer[pos.offset .. pos.offset + pos.size];
          break;
        }
        i := i + 1;
      }
    }
  }
}
