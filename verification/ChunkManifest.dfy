/** The streaming per-chunk hash list (src/chunk_manifest.rs). */
module ChunkManifest {
  import opened Prelude
  import opened ChunkLayout

  datatype ManifestError =
    | IncompleteData(expected: u64, actual: u64)
    | TooMuchData(expected: u64, attempted: u64)

  datatype Manifest = Manifest(layout: Layout, hashes: seq<Digest>)

  /** The hashes of the first `n` chunks of a byte stream. */
  function ChunkHashes(H: HashFunction, l: Layout, data: Bytes, n: nat): (r: seq<Digest>)
    ensures |r| == n
  {
    if n == 0 then [] else ChunkHashes(H, l, data, n - 1) + [H(Chunk(l, data, n - 1))]
  }

  lemma {:induction false} ChunkHashAt(H: HashFunction, l: Layout, data: Bytes, n: nat, i: nat)
    requires i < n
    ensures ChunkHashes(H, l, data, n)[i] == H(Chunk(l, data, i))
  {
    if i < n - 1 {
      ChunkHashAt(H, l, data, n - 1, i);
    }
  }

  /** `hashes` and `current` are what a builder holds after the bytes `received`. */
  ghost predicate BuilderState(H: HashFunction, l: Layout, received: Bytes, hashes: seq<Digest>, current: Bytes) {
    var n := |hashes|;
    && |received| <= l.fileSize
    && n <= ChunkCount(l)
    && Start(l, n) <= |received|
    && (n < ChunkCount(l) ==> |received| < Start(l, n + 1))
    && hashes == ChunkHashes(H, l, received, n)
    && current == received[Start(l, n)..]
  }

  lemma {:induction false} AbsorbInsideChunk(H: HashFunction, l: Layout, received: Bytes, hashes: seq<Digest>,
                                             current: Bytes, piece: Bytes)
    requires BuilderState(H, l, received, hashes, current)
    requires |hashes| < ChunkCount(l)
    requires |received| + |piece| < Start(l, |hashes| + 1)
    ensures BuilderState(H, l, received + piece, hashes, current + piece)
  {
    SameHashes(H, l, received, received + piece, |hashes|);
  }

  lemma {:induction false} AbsorbChunkEnd(H: HashFunction, l: Layout, received: Bytes, hashes: seq<Digest>,
                                          current: Bytes, piece: Bytes)
    requires BuilderState(H, l, received, hashes, current)
    requires |hashes| < ChunkCount(l)
    requires |received| + |piece| == Start(l, |hashes| + 1)
    ensures BuilderState(H, l, received + piece, hashes + [H(current + piece)], [])
  {
    LastChunk(l, received, |hashes|, piece);
    var all, n := received + piece, |hashes|;
    assert ChunkHashes(H, l, all, n + 1) == hashes + [H(current + piece)] by {
      SameHashes(H, l, received, all, n);
    }
    CountMeaning(l, n + 1);
  }

  lemma {:induction false} LastChunk(l: Layout, received: Bytes, n: nat, piece: Bytes)
    requires Start(l, n) <= |received|
    requires |received| + |piece| == Start(l, n + 1)
    ensures Chunk(l, received + piece, n) == received[Start(l, n)..] + piece
  {
  }

  lemma {:induction false} MovePiece(done: Bytes, left: Bytes, k: nat)
    requires k <= |left|
    ensures done + left == (done + left[..k]) + left[k..]
  {
  }

  class ManifestBuilder {
    const H: HashFunction
    const layout: Layout
    var hashes: seq<Digest>
    var currentHasher: Bytes
    var currentChunkLength: u64
    var bytesReceived: u64
    /** Everything accepted so far; every other field is a function of it. */
    ghost var received: Bytes

    ghost predicate Valid()
      reads this
    {
      && bytesReceived == |received|
      && currentChunkLength == |currentHasher|
      && BuilderState(H, layout, received, hashes, currentHasher)
    }

    constructor (H: HashFunction, layout: Layout)
      ensures Valid() && received == [] && this.H == H && this.layout == layout
    {
      this.H := H;
      this.layout := layout;
      hashes, currentHasher, currentChunkLength, bytesReceived := [], [], 0, 0;
      received := [];
    }

    method Update(input: Bytes) returns (r: Result<Unit, ManifestError>)
      requires Valid()
      requires |input| < U64_LIMIT
      modifies this
      ensures Valid()
      ensures r.Ok? <==> |old(received)| + |input| <= layout.fileSize
      ensures r.Ok? ==> received == old(received) + input
      ensures r.Err? ==> r.error == TooMuchData(layout.fileSize, Min(|old(received)| + |input|, U64_LIMIT - 1))
      ensures r.Err? ==> unchanged(this)
    {
      var inputLength: u64 := |input|;
      var attempted: u64 := Min(bytesReceived + inputLength, U64_LIMIT - 1);
      if inputLength > layout.fileSize - bytesReceived {
        return Err(TooMuchData(layout.fileSize, attempted));
      }
      var data := input;
      while |data| > 0
        invariant Valid()
        invariant |received| + |data| <= layout.fileSize
        invariant received + data == old(received) + input
        decreases |data|
      {
        ghost var before := received;
        var take := AbsorbPiece(data);
        MovePiece(before, data, take);
        data := data[take..];
      }
      return Ok(Unit.Unit);
    }

    /** One pass of the loop: the part of the input that belongs to the current chunk. */
    method AbsorbPiece(data: Bytes) returns (take: u64)
      requires Valid()
      requires 0 < |data| && |received| + |data| <= layout.fileSize
      modifies this
      ensures Valid()
      ensures 0 < take <= |data| && received == old(received) + data[..take]
    {
      var chunkIndex := |hashes|;
      CountMeaning(layout, chunkIndex);
      var range := ComputeRange(layout, chunkIndex).value;
      var remainingInChunk: u64 := range.length - currentChunkLength;
      take := Min(remainingInChunk, |data|);
      if take == remainingInChunk {
        AbsorbChunkEnd(H, layout, received, hashes, currentHasher, data[..take]);
      } else {
        AbsorbInsideChunk(H, layout, received, hashes, currentHasher, data[..take]);
      }

      currentHasher := currentHasher + data[..take];
      currentChunkLength := currentChunkLength + take;
      bytesReceived := bytesReceived + take;
      received := received + data[..take];

      if currentChunkLength == range.length {
        hashes := hashes + [H(currentHasher)];
        currentHasher := [];
        currentChunkLength := 0;
      }
    }

    method Finish() returns (r: Result<Manifest, ManifestError>)
      requires Valid()
      ensures r.Ok? <==> |received| == layout.fileSize
      ensures r.Err? ==> r.error == IncompleteData(layout.fileSize, |received|)
      ensures r.Ok? ==> r.value.layout == layout && |r.value.hashes| == ChunkCount(layout)
      ensures r.Ok? ==> forall i :: 0 <= i < ChunkCount(layout) ==>
                          r.value.hashes[i] == H(Chunk(layout, received, i))
    {
      if bytesReceived != layout.fileSize {
        return Err(IncompleteData(layout.fileSize, bytesReceived));
      }
      forall i | 0 <= i < ChunkCount(layout)
        ensures hashes[i] == H(Chunk(layout, received, i))
      {
        ChunkHashAt(H, layout, received, |hashes|, i);
      }
      return Ok(Manifest(layout, hashes));
    }
  }

  lemma {:induction false} SameHashes(H: HashFunction, l: Layout, a: Bytes, b: Bytes, n: nat)
    requires a <= b && Start(l, n) <= |a|
    ensures ChunkHashes(H, l, a, n) == ChunkHashes(H, l, b, n)
  {
    if n > 0 {
      StartMonotone(l, n - 1, n);
      SameHashes(H, l, a, b, n - 1);
      assert Chunk(l, a, n - 1) == Chunk(l, b, n - 1);
    }
  }

  /** However the same bytes were divided into updates, two builders reach the same state. */
  lemma {:induction false} SplitIndependent(a: ManifestBuilder, b: ManifestBuilder)
    requires a.Valid() && b.Valid()
    requires a.H == b.H && a.layout == b.layout && a.received == b.received
    ensures a.hashes == b.hashes && a.currentHasher == b.currentHasher
    ensures a.currentChunkLength == b.currentChunkLength && a.bytesReceived == b.bytesReceived
  {
    var m, n := |a.hashes|, |b.hashes|;
    if m < n {
      StartMonotone(a.layout, m + 1, n);
    } else if n < m {
      StartMonotone(a.layout, n + 1, m);
    }
  }
}
