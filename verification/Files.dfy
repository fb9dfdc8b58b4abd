/** Files as the transfer code reads them. */
module Files {
  import opened Prelude

  /** An open file whose reads may return fewer bytes than asked for. */
  class ReadFile {
    const content: Bytes
    var position: nat

    constructor (content: Bytes)
      ensures this.content == content && position == 0
    {
      this.content := content;
      position := 0;
    }

    method Seek(offset: nat)
      modifies this
      ensures position == offset
    {
      position := offset;
    }

    /** Any positive number of bytes up to the request, and none only at or past the end of the file. */
    method Read(limit: nat) returns (data: Bytes)
      modifies this
      ensures position == old(position) + |data| && |data| <= limit
      ensures old(position) <= |content| ==> position <= |content| && data == content[old(position)..position]
      ensures |data| == 0 <==> limit == 0 || old(position) >= |content|
    {
      if position >= |content| {
        return [];
      }
      var most := Min(limit, |content| - position);
      var n: nat :| n <= most && (most > 0 ==> n > 0);
      data := content[position..position + n];
      position := position + n;
    }

    /** The read-to-end loops that hash a whole file. */
    method ReadToEnd(bufferSize: nat) returns (data: Bytes)
      requires position <= |content| && bufferSize > 0
      modifies this
      ensures data == content[old(position)..]
    {
      data := [];
      while true
        invariant position <= |content| && position == old(position) + |data|
        invariant data == content[old(position)..position]
        decreases |content| - position
      {
        var read := Read(bufferSize);
        if |read| == 0 {
          return;
        }
        data := data + read;
      }
    }
  }
}
