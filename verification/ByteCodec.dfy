/** Byte buffers and the 32-bit little-endian two's-complement integers stored in them. */
module ByteCodec {

  type Byte = x: int | 0 <= x < 256
  type Bytes = seq<Byte>

  predicate Int32(v: int) { -0x8000_0000 <= v < 0x8000_0000 }

  function EncodeInt(v: int): (r: Bytes)
    requires Int32(v)
    ensures |r| == 4
  {
    var u := if v < 0 then v + 0x1_0000_0000 else v;
    [u % 0x100, u / 0x100 % 0x100, u / 0x1_0000 % 0x100, u / 0x100_0000]
  }

  function Unsigned(b: Bytes): (u: int)
    requires |b| == 4
    ensures 0 <= u < 0x1_0000_0000
  {
    (b[0] as int) + 0x100 * (b[1] as int) + 0x1_0000 * (b[2] as int) + 0x100_0000 * (b[3] as int)
  }

  function DecodeInt(b: Bytes): (v: int)
    requires |b| == 4
    ensures Int32(v)
  {
    var u := Unsigned(b);
    if u >= 0x8000_0000 then u - 0x1_0000_0000 else u
  }

  lemma IntRoundTrip(v: int)
    requires Int32(v)
    ensures DecodeInt(EncodeInt(v)) == v
  {
    var u := if v < 0 then v + 0x1_0000_0000 else v;
    assert u / 0x100 == u / 0x1_0000 * 0x100 + u / 0x100 % 0x100;
    assert u / 0x1_0000 == u / 0x100_0000 * 0x100 + u / 0x1_0000 % 0x100;
  }

  lemma BytesRoundTrip(b: Bytes)
    requires |b| == 4
    ensures EncodeInt(DecodeInt(b)) == b
  {
    var u := Unsigned(b);
    assert u / 0x100 == (b[1] as int) + 0x100 * (b[2] as int) + 0x1_0000 * (b[3] as int);
    assert u / 0x1_0000 == (b[2] as int) + 0x100 * (b[3] as int);
    assert u / 0x100_0000 == b[3];
  }

  function ReadInt(b: Bytes, k: nat): (v: int)
    requires k + 4 <= |b|
    ensures Int32(v)
  {
    DecodeInt(b[k..k + 4])
  }

  /** The buffer with s written at position k. */
  function Patch(b: Bytes, k: nat, s: Bytes): (r: Bytes)
    requires k + |s| <= |b|
    ensures |r| == |b|
  {
    b[..k] + s + b[k + |s|..]
  }

  function WriteInt(b: Bytes, k: nat, v: int): (r: Bytes)
    requires k + 4 <= |b| && Int32(v)
    ensures |r| == |b| && ReadInt(r, k) == v
  {
    IntRoundTrip(v);
    PatchAt(b, k, EncodeInt(v));
    Patch(b, k, EncodeInt(v))
  }

  lemma PatchAt(b: Bytes, k: nat, s: Bytes)
    requires k + |s| <= |b|
    ensures Patch(b, k, s)[k..k + |s|] == s
  {
  }

  /** A patch does not touch what lies beside it. */
  lemma PatchBeside(b: Bytes, k: nat, s: Bytes, i: nat, j: nat)
    requires k + |s| <= |b| && i <= j <= |b| && (j <= k || k + |s| <= i)
    ensures Patch(b, k, s)[i..j] == b[i..j]
  {
  }

  lemma WriteBeside(b: Bytes, k: nat, v: int, i: nat, j: nat)
    requires k + 4 <= |b| && Int32(v) && i <= j <= |b| && (j <= k || k + 4 <= i)
    ensures WriteInt(b, k, v)[i..j] == b[i..j]
  {
    PatchBeside(b, k, EncodeInt(v), i, j);
  }

  lemma ReadBeside(b: Bytes, k: nat, v: int, m: nat)
    requires k + 4 <= |b| && m + 4 <= |b| && Int32(v) && (m + 4 <= k || k + 4 <= m)
    ensures ReadInt(WriteInt(b, k, v), m) == ReadInt(b, m)
  {
    WriteBeside(b, k, v, m, m + 4);
  }

  /** What an integer written at k makes of another one, apart or the same. */
  lemma ReadWritten(b: Bytes, k: nat, v: int, m: nat)
    requires k + 4 <= |b| && m + 4 <= |b| && Int32(v) && (m == k || m + 4 <= k || k + 4 <= m)
    ensures ReadInt(WriteInt(b, k, v), m) == if m == k then v else ReadInt(b, m)
  {
    if m != k { ReadBeside(b, k, v, m); }
  }

  lemma ReadBesidePatch(b: Bytes, k: nat, s: Bytes, m: nat)
    requires k + |s| <= |b| && m + 4 <= |b| && (m + 4 <= k || k + |s| <= m)
    ensures ReadInt(Patch(b, k, s), m) == ReadInt(b, m)
  {
    PatchBeside(b, k, s, m, m + 4);
  }

  /** Copies s into the buffer at position k. */
  method CopyIn(data: array<Byte>, k: nat, s: Bytes)
    requires k + |s| <= data.Length
    modifies data
    ensures data[..] == Patch(old(data[..]), k, s)
  {
    for i := 0 to |s|
      invariant forall x :: k <= x < k + i ==> data[x] == s[x - k]
      invariant forall x :: 0 <= x < data.Length && !(k <= x < k + i) ==> data[x] == old(data[x])
    {
      data[k + i] := s[i];
    }
  }
}
