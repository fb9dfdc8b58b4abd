/** The deterministic split of a file into chunks (src/chunk.rs). */
module ChunkLayout {
  import opened Prelude

  datatype RawLayout = RawLayout(fileSize: u64, chunkSize: u64)

  /** A layout whose chunk size is non-zero. */
  type Layout = l: RawLayout | l.chunkSize > 0 witness RawLayout(0, 1)

  datatype ChunkRange = ChunkRange(index: u64, offset: u64, length: u64)

  datatype LayoutError = ZeroChunkSize

  function New(fileSize: u64, chunkSize: u64): (r: Result<Layout, LayoutError>)
    ensures r.Err? <==> chunkSize == 0
    ensures r.Ok? ==> r.value.fileSize == fileSize && r.value.chunkSize == chunkSize
  {
    if chunkSize == 0 then Err(ZeroChunkSize) else Ok(RawLayout(fileSize, chunkSize))
  }

  // ----- the layout as adjacent steps of one chunk size, without products -----

  /** Where chunk `i` begins; every index from the chunk count on begins at the end of the file. */
  function Start(l: Layout, i: nat): (s: nat)
    ensures s <= l.fileSize
  {
    if i == 0 then 0 else Min(l.fileSize, Start(l, i - 1) + l.chunkSize)
  }

  /** The first index, from `i` on, that begins at the end of the file. */
  function CountFrom(l: Layout, i: nat): (n: nat)
    ensures i <= n && Start(l, n) == l.fileSize
    ensures n <= i + (l.fileSize - Start(l, i))
    decreases l.fileSize - Start(l, i)
  {
    if Start(l, i) == l.fileSize then i else CountFrom(l, i + 1)
  }

  function ChunkCount(l: Layout): u64 {
    CountFrom(l, 0)
  }

  function Range(l: Layout, index: u64): Option<ChunkRange> {
    if index >= ChunkCount(l) then None
    else Some(ChunkRange(index, Start(l, index), Start(l, index + 1) - Start(l, index)))
  }

  lemma {:induction false} StartMonotone(l: Layout, i: nat, j: nat)
    requires i <= j
    ensures Start(l, i) <= Start(l, j)
    ensures i < j && Start(l, i) < l.fileSize ==> Start(l, i) < Start(l, j)
    decreases j - i
  {
    if i < j {
      StartMonotone(l, i + 1, j);
    }
  }

  lemma {:induction false} CountFromMeaning(l: Layout, i: nat, k: nat)
    requires i <= k
    ensures k < CountFrom(l, i) ==> Start(l, k) < l.fileSize
    decreases k - i
  {
    if i < k && Start(l, i) < l.fileSize {
      CountFromMeaning(l, i + 1, k);
    }
  }

  /** The chunk count is the first index that begins at the end of the file. */
  lemma {:induction false} CountMeaning(l: Layout, i: nat)
    ensures i < ChunkCount(l) <==> Start(l, i) < l.fileSize
    ensures i < ChunkCount(l) ==> Start(l, i) < Start(l, i + 1)
  {
    CountFromMeaning(l, 0, i);
    if i >= ChunkCount(l) {
      StartMonotone(l, ChunkCount(l), i);
    }
  }

  // ----- the code's arithmetic -----

  /** The quotient, rounded up without an overflowing addition. */
  function ComputeChunkCount(l: Layout): (n: u64)
    ensures n == ChunkCount(l)
  {
    var quotient := l.fileSize / l.chunkSize;
    var remainder := l.fileSize % l.chunkSize;
    Quotient(l.fileSize, l.chunkSize);
    CountIsQuotient(l);
    if remainder == 0 then quotient else quotient + 1
  }

  /** Neither checked operation ever fails. */
  function ComputeRange(l: Layout, index: u64): (r: Option<ChunkRange>)
    ensures r == Range(l, index)
    ensures r.Some? ==> r.value.length > 0
  {
    if index >= ComputeChunkCount(l) then None
    else
      StartIsProduct(l, index);
      CountMeaning(l, index);
      match CheckedMul(index, l.chunkSize)
      case None => None
      case Some(offset) =>
        match CheckedSub(l.fileSize, offset)
        case None => None
        case Some(remaining) => Some(ChunkRange(index, offset, Min(l.chunkSize, remaining)))
  }

  lemma {:induction false} StartIsProduct(l: Layout, i: nat)
    ensures 0 <= i * l.chunkSize
    ensures Start(l, i) == Min(l.fileSize, i * l.chunkSize)
  {
    if i == 0 {
    } else {
      StartIsProduct(l, i - 1);
      assert i * l.chunkSize == (i - 1) * l.chunkSize + l.chunkSize;
    }
  }

  lemma {:induction false} Quotient(x: nat, d: nat)
    requires d > 0
    ensures x == (x / d) * d + x % d
    ensures 0 <= x / d <= x && (x % d != 0 ==> x / d < x)
  {
    var q, r := x / d, x % d;
    assert x == q * d + r;
    if d == 1 {
    } else {
      Scale(q, 1, d);
    }
  }

  lemma {:induction false} Scale(a: nat, b: nat, c: nat)
    requires b <= c
    ensures a * b <= a * c
  {
  }

  lemma {:induction false} ProductBelow(fileSize: nat, chunkSize: nat, i: nat)
    requires chunkSize > 0
    ensures i * chunkSize < fileSize <==>
            i < fileSize / chunkSize + (if fileSize % chunkSize == 0 then 0 else 1)
  {
    var q, r := fileSize / chunkSize, fileSize % chunkSize;
    Quotient(fileSize, chunkSize);
    if i < q {
      Scale(chunkSize, i + 1, q);
      assert chunkSize * (i + 1) == chunkSize * i + chunkSize;
    } else if i > q {
      Scale(chunkSize, q + 1, i);
      assert chunkSize * (q + 1) == chunkSize * q + chunkSize;
    }
  }

  lemma {:induction false} CountIsQuotient(l: Layout)
    ensures ChunkCount(l) == l.fileSize / l.chunkSize + (if l.fileSize % l.chunkSize == 0 then 0 else 1)
  {
    var n := l.fileSize / l.chunkSize + (if l.fileSize % l.chunkSize == 0 then 0 else 1);
    var m: nat := ChunkCount(l);
    AgreeBelow(l, m);
    AgreeBelow(l, n);
  }

  lemma {:induction false} AgreeBelow(l: Layout, i: nat)
    ensures i < ChunkCount(l) <==>
            i < l.fileSize / l.chunkSize + (if l.fileSize % l.chunkSize == 0 then 0 else 1)
  {
    CountMeaning(l, i);
    StartIsProduct(l, i);
    ProductBelow(l.fileSize, l.chunkSize, i);
  }

  // ----- tiling -----

  predicate Contains(l: Layout, i: u64, p: nat) {
    Range(l, i).Some? && Range(l, i).value.offset <= p < Range(l, i).value.offset + Range(l, i).value.length
  }

  /** The ranges begin at zero, are adjacent, and end at the file size. */
  lemma {:induction false} RangesAreAdjacent(l: Layout)
    ensures l.fileSize > 0 ==> Range(l, 0).Some? && Range(l, 0).value.offset == 0
    ensures forall i: u64 :: i < ChunkCount(l) && i + 1 < ChunkCount(l) ==>
                               Range(l, i).value.offset + Range(l, i).value.length == Range(l, i + 1).value.offset
    ensures forall i: u64 :: i < ChunkCount(l) && i + 1 == ChunkCount(l) ==>
                               Range(l, i).value.offset + Range(l, i).value.length == l.fileSize
  {
  }

  /** Every byte position lies in exactly one chunk. */
  lemma {:induction false} Tiling(l: Layout, p: nat) returns (i: u64)
    requires p < l.fileSize
    ensures Contains(l, i, p)
    ensures forall j: u64 :: Contains(l, j, p) ==> j == i
  {
    i := 0;
    CountMeaning(l, 0);
    while Start(l, i + 1) <= p
      invariant Start(l, i) <= p
      invariant i < ChunkCount(l)
      decreases l.fileSize - Start(l, i)
    {
      i := i + 1;
      CountMeaning(l, i);
    }
    forall j: u64 | Contains(l, j, p)
      ensures j == i
    {
      ContainedOnce(l, i, j, p);
    }
  }

  lemma {:induction false} ContainedOnce(l: Layout, i: u64, j: u64, p: nat)
    requires Contains(l, i, p) && Contains(l, j, p)
    ensures i == j
  {
    if j < i {
      StartMonotone(l, j + 1, i);
    } else if i < j {
      StartMonotone(l, i + 1, j);
    }
  }

  // ----- chunks of a file -----

  /** The bytes of chunk `i` of a file; shorter, or empty, when the file ends inside or before it. */
  function Chunk(l: Layout, file: Bytes, i: nat): (c: Bytes) {
    var lo, hi := Start(l, i), Start(l, i + 1);
    if hi <= |file| then file[lo..hi] else if lo <= |file| then file[lo..] else []
  }

  /** A file of the offered size is determined by its chunks. */
  lemma {:induction false} ChunksDetermineFile(l: Layout, a: Bytes, b: Bytes)
    requires |a| == l.fileSize && |b| == l.fileSize
    requires forall i: nat :: i < ChunkCount(l) ==> Chunk(l, a, i) == Chunk(l, b, i)
    ensures a == b
  {
    forall p: nat | p < |a|
      ensures a[p] == b[p]
    {
      var i := Tiling(l, p);
      assert Chunk(l, a, i)[p - Start(l, i)] == a[p];
      assert Chunk(l, b, i)[p - Start(l, i)] == b[p];
    }
  }
}
