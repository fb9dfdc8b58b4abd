/** The sparse, sorted record of verified chunks (src/chunk_state.rs). */
module ChunkState {
  import opened Prelude
  import opened ChunkLayout

  datatype RecordedChunk = RecordedChunk(index: u64, hash: Digest)

  ghost predicate Increasing(chunks: seq<RecordedChunk>) {
    forall j, k :: 0 <= j < k < |chunks| ==> chunks[j].index < chunks[k].index
  }

  /** A record list sorted by strictly increasing index, as every accepted list is. */
  type Records = chunks: seq<RecordedChunk> | Increasing(chunks) witness []

  ghost predicate InRange(l: Layout, chunks: seq<RecordedChunk>) {
    forall j :: 0 <= j < |chunks| ==> chunks[j].index < ChunkCount(l)
  }

  /** The finite map a sorted list stands for, as a lookup. */
  function HashOf(chunks: seq<RecordedChunk>, index: u64): Option<Digest> {
    if |chunks| == 0 then None
    else if chunks[|chunks| - 1].index == index then Some(chunks[|chunks| - 1].hash)
    else HashOf(chunks[..|chunks| - 1], index)
  }

  lemma {:induction false} HashOfMember(chunks: Records, index: u64, hash: Digest)
    ensures HashOf(chunks, index) == Some(hash) <==> RecordedChunk(index, hash) in chunks
  {
    if |chunks| == 0 {
    } else {
      var last := chunks[|chunks| - 1];
      assert chunks == chunks[..|chunks| - 1] + [last];
      HashOfMember(chunks[..|chunks| - 1], index, hash);
      assert forall r :: r in chunks[..|chunks| - 1] ==> r.index < last.index;
    }
  }

  lemma {:induction false} HashAt(chunks: Records, j: nat)
    requires j < |chunks|
    ensures HashOf(chunks, chunks[j].index) == Some(chunks[j].hash)
  {
    HashOfMember(chunks, chunks[j].index, chunks[j].hash);
    assert chunks[j] in chunks;
  }

  lemma {:induction false} Recording(chunks: Records, index: u64) returns (j: nat)
    requires HashOf(chunks, index).Some?
    ensures j < |chunks| && chunks[j] == RecordedChunk(index, HashOf(chunks, index).value)
  {
    HashOfMember(chunks, index, HashOf(chunks, index).value);
    j :| 0 <= j < |chunks| && chunks[j] == RecordedChunk(index, HashOf(chunks, index).value);
  }

  /** How many records precede `index`. */
  function Position(chunks: Records, index: u64): (p: nat)
    ensures p <= |chunks|
    ensures forall j :: 0 <= j < p ==> chunks[j].index < index
    ensures forall j :: p <= j < |chunks| ==> index <= chunks[j].index
  {
    if |chunks| == 0 || chunks[|chunks| - 1].index < index then |chunks|
    else Position(chunks[..|chunks| - 1], index)
  }

  lemma {:induction false} PositionIsUnique(chunks: Records, index: u64, p: nat)
    requires p <= |chunks|
    requires forall j :: 0 <= j < p ==> chunks[j].index < index
    requires forall j :: p <= j < |chunks| ==> index <= chunks[j].index
    ensures p == Position(chunks, index)
  {
    var q := Position(chunks, index);
    assert q < |chunks| ==> index <= chunks[q].index;
    assert p < |chunks| ==> index <= chunks[p].index;
  }

  /** The list after recording one verified chunk: overwrite in place, or insert in order. */
  function Recorded(chunks: Records, index: u64, hash: Digest): (r: Records) {
    var p := Position(chunks, index);
    var record := RecordedChunk(index, hash);
    if p < |chunks| && chunks[p].index == index then chunks[p := record]
    else chunks[..p] + [record] + chunks[p..]
  }

  lemma {:induction false} RecordedMembers(chunks: Records, index: u64, hash: Digest, x: RecordedChunk)
    ensures x in Recorded(chunks, index, hash) <==>
            x == RecordedChunk(index, hash) || (x in chunks && x.index != index)
  {
  }

  /** Recording updates the map at one index and nowhere else. */
  lemma {:induction false} RecordedRefinesUpdate(chunks: Records, index: u64, hash: Digest, k: u64)
    ensures HashOf(Recorded(chunks, index, hash), k) == if k == index then Some(hash) else HashOf(chunks, k)
  {
    var r := Recorded(chunks, index, hash);
    if HashOf(r, k).Some? {
      var h := HashOf(r, k).value;
      HashOfMember(r, k, h);
      RecordedMembers(chunks, index, hash, RecordedChunk(k, h));
      HashOfMember(chunks, k, h);
    } else if k == index {
      RecordedMembers(chunks, index, hash, RecordedChunk(k, hash));
      HashOfMember(r, k, hash);
    } else if HashOf(chunks, k).Some? {
      var h := HashOf(chunks, k).value;
      HashOfMember(chunks, k, h);
      RecordedMembers(chunks, index, hash, RecordedChunk(k, h));
      HashOfMember(r, k, h);
    }
  }

  /** A sequence of recordings, in order. */
  function RecordedAll(chunks: Records, updates: seq<RecordedChunk>): Records {
    if |updates| == 0 then chunks
    else
      var last := updates[|updates| - 1];
      Recorded(RecordedAll(chunks, updates[..|updates| - 1]), last.index, last.hash)
  }

  /** After any recordings, in any order and with any repetitions, every index has the hash recorded for it last. */
  lemma {:induction false} LastRecordingWins(chunks: Records, updates: seq<RecordedChunk>, k: u64)
    ensures HashOf(RecordedAll(chunks, updates), k) ==
            if HashOf(updates, k).Some? then HashOf(updates, k) else HashOf(chunks, k)
  {
    hide Recorded;
    if |updates| > 0 {
      var last := updates[|updates| - 1];
      LastRecordingWins(chunks, updates[..|updates| - 1], k);
      RecordedRefinesUpdate(RecordedAll(chunks, updates[..|updates| - 1]), last.index, last.hash, k);
    }
  }

  lemma {:induction false} RecordedInRange(l: Layout, chunks: Records, index: u64, hash: Digest)
    requires InRange(l, chunks) && index < ChunkCount(l)
    ensures InRange(l, Recorded(chunks, index, hash))
  {
  }

  /** A sorted list is determined by its map, so the lookup is a complete specification of the list. */
  lemma {:induction false} LookupDeterminesRecords(a: Records, b: Records)
    requires forall k: u64 :: HashOf(a, k) == HashOf(b, k)
    ensures a == b
    decreases |a|
  {
    if |a| == 0 {
      if |b| > 0 { HashAt(b, |b| - 1); }
    } else if |b| == 0 {
      HashAt(a, |a| - 1);
    } else {
      HashAt(a, |a| - 1);
      HashAt(b, |b| - 1);
      var j := Recording(b, a[|a| - 1].index);
      var k := Recording(a, b[|b| - 1].index);
      assert a[|a| - 1] == b[|b| - 1];
      var c, d: Records := a[..|a| - 1], b[..|b| - 1];
      forall i: u64
        ensures HashOf(c, i) == HashOf(d, i)
      {
        assert HashOf(a, i) == HashOf(b, i);
        if i == a[|a| - 1].index {
          AbsentAbove(c, i);
          AbsentAbove(d, i);
        }
      }
      LookupDeterminesRecords(c, d);
      assert a == c + [a[|a| - 1]] && b == d + [b[|b| - 1]];
    }
  }

  lemma {:induction false} AbsentAbove(chunks: Records, index: u64)
    requires forall j :: 0 <= j < |chunks| ==> chunks[j].index != index
    ensures HashOf(chunks, index) == None
  {
    if |chunks| > 0 {
      AbsentAbove(chunks[..|chunks| - 1], index);
    }
  }

  /** A strictly increasing in-range list as long as the chunk count lists every chunk. */
  lemma {:induction false} CoverageByCounting(l: Layout, chunks: Records, i: u64)
    requires InRange(l, chunks) && |chunks| == ChunkCount(l)
    requires i < ChunkCount(l)
    ensures chunks[i].index == i && HashOf(chunks, i) == Some(chunks[i].hash)
  {
    HashAt(chunks, i);
    IndexAtLeastPosition(chunks, i);
    IndexRoom(l, chunks, i);
  }

  lemma {:induction false} IndexAtLeastPosition(chunks: Records, j: nat)
    requires j < |chunks|
    ensures j <= chunks[j].index
  {
    if j > 0 {
      IndexAtLeastPosition(chunks, j - 1);
    }
  }

  lemma {:induction false} IndexRoom(l: Layout, chunks: Records, j: nat)
    requires j < |chunks| && InRange(l, chunks)
    ensures chunks[j].index + (|chunks| - j) <= ChunkCount(l)
    decreases |chunks| - j
  {
    if j + 1 < |chunks| {
      IndexRoom(l, chunks, j + 1);
    }
  }

  lemma {:induction false} CountAtMost(l: Layout, chunks: Records)
    requires InRange(l, chunks)
    ensures |chunks| <= ChunkCount(l)
  {
    if |chunks| > 0 {
      IndexRoom(l, chunks, 0);
    }
  }

  datatype ChunkStateError =
    | ChunkIndexOutOfRange(index: u64)
    | DuplicateChunkIndex(index: u64)
    | UnorderedChunkIndices(previous: u64, current: u64)

  /** The error the code reports for position `k`, given that the positions before it were accepted. */
  function RecordErrorAt(l: Layout, chunks: seq<RecordedChunk>, k: nat): Option<ChunkStateError>
    requires k < |chunks|
  {
    if Range(l, chunks[k].index).None? then Some(ChunkIndexOutOfRange(chunks[k].index))
    else if k > 0 && chunks[k].index == chunks[k - 1].index then Some(DuplicateChunkIndex(chunks[k].index))
    else if k > 0 && chunks[k].index < chunks[k - 1].index
    then Some(UnorderedChunkIndices(chunks[k - 1].index, chunks[k].index))
    else None
  }

  ghost predicate FirstRecordError(l: Layout, chunks: seq<RecordedChunk>, k: nat, error: ChunkStateError)
    requires k < |chunks|
  {
    && RecordErrorAt(l, chunks, k) == Some(error)
    && Increasing(chunks[..k]) && InRange(l, chunks[..k])
  }

  /** Accepts exactly the sorted in-range lists, and otherwise names the first offending position. */
  method ValidateRecordedChunks(l: Layout, chunks: seq<RecordedChunk>) returns (r: Result<Unit, ChunkStateError>)
    ensures r.Ok? <==> Increasing(chunks) && InRange(l, chunks)
    ensures r.Err? ==> exists k :: 0 <= k < |chunks| && FirstRecordError(l, chunks, k, r.error)
  {
    var previousIndex: Option<u64> := None;
    for k := 0 to |chunks|
      invariant k == 0 ==> previousIndex == None
      invariant k > 0 ==> previousIndex == Some(chunks[k - 1].index)
      invariant Increasing(chunks[..k]) && InRange(l, chunks[..k])
    {
      var chunk := chunks[k];
      assert forall j :: 0 <= j < k ==> chunks[..k][j] == chunks[j];
      if ComputeRange(l, chunk.index).None? {
        assert FirstRecordError(l, chunks, k, ChunkIndexOutOfRange(chunk.index));
        return Err(ChunkIndexOutOfRange(chunk.index));
      }
      if previousIndex.Some? {
        var previous := previousIndex.value;
        if chunk.index == previous {
          assert FirstRecordError(l, chunks, k, DuplicateChunkIndex(chunk.index));
          return Err(DuplicateChunkIndex(chunk.index));
        }
        if chunk.index < previous {
          assert FirstRecordError(l, chunks, k, UnorderedChunkIndices(previous, chunk.index));
          return Err(UnorderedChunkIndices(previous, chunk.index));
        }
        assert forall j :: 0 <= j < k ==> chunks[..k][j].index <= chunks[..k][k - 1].index;
      }
      previousIndex := Some(chunk.index);
    }
    assert chunks[..|chunks|] == chunks;
    return Ok(Unit.Unit);
  }

  /** Rust's `binary_search_by_key`: a matching position, or where the key would be inserted. */
  method BinarySearchByKey(chunks: Records, index: u64) returns (found: bool, position: nat)
    ensures position == Position(chunks, index)
    ensures found <==> position < |chunks| && chunks[position].index == index
    ensures found ==> HashOf(chunks, index) == Some(chunks[position].hash)
    ensures !found ==> HashOf(chunks, index) == None
  {
    var low, high := 0, |chunks|;
    while low < high
      invariant 0 <= low <= high <= |chunks|
      invariant forall j :: 0 <= j < low ==> chunks[j].index < index
      invariant forall j :: high <= j < |chunks| ==> index < chunks[j].index
    {
      var middle := low + (high - low) / 2;
      if chunks[middle].index < index {
        low := middle + 1;
      } else if index < chunks[middle].index {
        high := middle;
      } else {
        PositionIsUnique(chunks, index, middle);
        HashAt(chunks, middle);
        return true, middle;
      }
    }
    PositionIsUnique(chunks, index, low);
    AbsentAbove(chunks, index);
    return false, low;
  }

  class ChunkStateTable {
    const layout: Layout
    var chunks: Records

    ghost predicate Valid()
      reads this
    {
      InRange(layout, chunks)
    }

    constructor (layout: Layout, chunks: Records)
      requires InRange(layout, chunks)
      ensures Valid() && this.layout == layout && this.chunks == chunks
    {
      this.layout := layout;
      this.chunks := chunks;
    }

    method Hash(index: u64) returns (r: Option<Digest>)
      ensures r == HashOf(chunks, index)
    {
      var found, position := BinarySearchByKey(chunks, index);
      return if found then Some(chunks[position].hash) else None;
    }

    method RecordVerifiedChunk(index: u64, hash: Digest) returns (r: Result<Unit, ChunkStateError>)
      requires Valid()
      modifies this`chunks
      ensures Valid()
      ensures r.Ok? <==> index < ChunkCount(layout)
      ensures r.Err? ==> r.error == ChunkIndexOutOfRange(index) && chunks == old(chunks)
      ensures r.Ok? ==> chunks == Recorded(old(chunks), index, hash)
    {
      if ComputeRange(layout, index).None? {
        return Err(ChunkIndexOutOfRange(index));
      }
      RecordedInRange(layout, chunks, index, hash);
      var found, position := BinarySearchByKey(chunks, index);
      if found {
        chunks := chunks[position := chunks[position].(hash := hash)];
      } else {
        chunks := chunks[..position] + [RecordedChunk(index, hash)] + chunks[position..];
      }
      return Ok(Unit.Unit);
    }
  }
}
