/** Bounded integers, bytes, digests and big-endian numbers shared by the whole model. */
module Prelude {
  datatype Option<+T> = None | Some(value: T)
  datatype Result<+T, +E> = Ok(value: T) | Err(error: E)
  datatype Unit = Unit

  const U64_LIMIT: nat := 0x1_0000_0000_0000_0000

  newtype byte = x: int | 0 <= x < 256
  type u16 = x: int | 0 <= x < 0x1_0000
  type u32 = x: int | 0 <= x < 0x1_0000_0000
  type u64 = x: int | 0 <= x < U64_LIMIT
  type Bytes = seq<byte>

  /** A 32-byte digest. The hash function itself is a parameter of the model. */
  type Digest = d: Bytes | |d| == 32 witness seq(32, _ => 0)
  type HashFunction = Bytes -> Digest

  /** Two different byte strings of one length that the hash function does not tell apart. */
  ghost predicate Collision(H: HashFunction, a: Bytes, b: Bytes) {
    a != b && |a| == |b| && H(a) == H(b)
  }

  lemma {:induction false} Reassociate<T>(a: seq<T>, b: seq<T>, c: seq<T>)
    ensures (a + b) + c == a + (b + c)
  {
  }

  function Min(a: int, b: int): int {
    if a <= b then a else b
  }

  function CheckedAdd(a: u64, b: u64): Option<u64> {
    if a + b < U64_LIMIT then Some(a + b) else None
  }

  function CheckedSub(a: u64, b: u64): Option<u64> {
    if b <= a then Some(a - b) else None
  }

  function CheckedMul(a: u64, b: u64): Option<u64> {
    if 0 <= a * b < U64_LIMIT then Some(a * b) else None
  }

  function Zeros(n: nat): Bytes {
    seq(n, _ => 0)
  }

  /** A positional write: the file grows, with a zero-filled gap, when the write ends past it. */
  function Splice(file: Bytes, offset: nat, data: Bytes): (r: Bytes)
    ensures offset + |data| <= |file| ==> |r| == |file|
  {
    var padded := if offset <= |file| then file else file + Zeros(offset - |file|);
    padded[..offset] + data + (if offset + |data| <= |file| then file[offset + |data|..] else [])
  }

  /** `set_len`: cut the file or extend it with zeros. */
  function SetLength(file: Bytes, n: nat): (r: Bytes)
    ensures |r| == n
  {
    if n <= |file| then file[..n] else file + Zeros(n - |file|)
  }

  /** A write changes exactly the bytes it covers, and fills a gap before it with zeros. */
  lemma {:induction false} SpliceAt(file: Bytes, offset: nat, data: Bytes, i: nat)
    ensures |Splice(file, offset, data)| ==
            if offset + |data| <= |file| then |file| else offset + |data|
    ensures i < |Splice(file, offset, data)| ==>
              Splice(file, offset, data)[i] ==
              if offset <= i < offset + |data| then data[i - offset] else if i < |file| then file[i] else 0
  {
  }

  /** Resizing keeps the bytes that stay and adds zeros. */
  lemma {:induction false} SetLengthAt(file: Bytes, n: nat, i: nat)
    requires i < n
    ensures SetLength(file, n)[i] == if i < |file| then file[i] else 0
  {
  }

  function Pow256(n: nat): nat {
    if n == 0 then 1 else 256 * Pow256(n - 1)
  }

  lemma {:induction false} Pow256Values()
    ensures Pow256(2) == 0x1_0000 && Pow256(4) == 0x1_0000_0000 && Pow256(8) == U64_LIMIT
  {
  }

  /** The low `n` bytes of `x`, most significant first. */
  function BigEndian(x: nat, n: nat): (r: Bytes)
    ensures |r| == n
  {
    if n == 0 then [] else BigEndian(x / 256, n - 1) + [(x % 256) as byte]
  }

  function FromBigEndian(b: Bytes): (x: nat)
    ensures x < Pow256(|b|)
  {
    if |b| == 0 then 0 else FromBigEndian(b[..|b| - 1]) * 256 + b[|b| - 1] as nat
  }

  lemma {:induction false} DecodeEncoded(x: nat, n: nat)
    requires x < Pow256(n)
    ensures FromBigEndian(BigEndian(x, n)) == x
  {
    if n == 0 {
    } else {
      DecodeEncoded(x / 256, n - 1);
      assert BigEndian(x, n)[..n - 1] == BigEndian(x / 256, n - 1);
    }
  }

  lemma {:induction false} EncodeDecoded(b: Bytes)
    ensures BigEndian(FromBigEndian(b), |b|) == b
  {
    if |b| == 0 {
    } else {
      EncodeDecoded(b[..|b| - 1]);
      assert b == b[..|b| - 1] + [b[|b| - 1]];
    }
  }

  function PutU16(x: u16): (r: Bytes)
    ensures |r| == 2 && FromBigEndian(r) == x
  {
    Pow256Values();
    DecodeEncoded(x, 2);
    BigEndian(x, 2)
  }

  function PutU32(x: u32): (r: Bytes)
    ensures |r| == 4 && FromBigEndian(r) == x
  {
    Pow256Values();
    DecodeEncoded(x, 4);
    BigEndian(x, 4)
  }

  function PutU64(x: u64): (r: Bytes)
    ensures |r| == 8 && FromBigEndian(r) == x
  {
    Pow256Values();
    DecodeEncoded(x, 8);
    BigEndian(x, 8)
  }

  function GetU16(b: Bytes): (x: u16)
    requires |b| == 2
    ensures PutU16(x) == b
  {
    Pow256Values();
    EncodeDecoded(b);
    FromBigEndian(b)
  }

  function GetU32(b: Bytes): (x: u32)
    requires |b| == 4
    ensures PutU32(x) == b
  {
    Pow256Values();
    EncodeDecoded(b);
    FromBigEndian(b)
  }

  function GetU64(b: Bytes): (x: u64)
    requires |b| == 8
    ensures PutU64(x) == b
  {
    Pow256Values();
    EncodeDecoded(b);
    FromBigEndian(b)
  }
}
