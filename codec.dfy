/**
 * RowKeyCodec: a typed, length-prefixed encoding of composite keys into a row key.
 * Each part becomes [tag: 1 byte][length: 4 bytes big-endian][payload].
 */
module Codec {
  import opened Wrappers

  type Byte = x: int | 0 <= x < 256
  type Int32 = x: int | -0x8000_0000 <= x < 0x8000_0000
  type Int64 = x: int | -0x8000_0000_0000_0000 <= x < 0x8000_0000_0000_0000
  /** A Java byte array, whose length is a non-negative int. */
  type JavaBytes = s: seq<Byte> | |s| < 0x8000_0000

  const T_INT32: Byte := 0x01
  const T_INT64: Byte := 0x02
  const T_UUID: Byte := 0x03
  const T_BYTES: Byte := 0x04
  const T_STRING: Byte := 0x05

  /**
   * A key part. `Str` carries the UTF-8 bytes of the part's string form; `Null` is a
   * null reference.
   */
  datatype Part =
    | Null
    | Int32Part(i: Int32)
    | Int64Part(l: Int64)
    | UuidPart(msb: Int64, lsb: Int64)
    | BytesPart(bytes: JavaBytes)
    | StrPart(utf8: JavaBytes)

  // ---------- big-endian integers ----------

  function Pow256(n: nat): (r: int)
    ensures r >= 1
  {
    if n == 0 then 1 else 256 * Pow256(n - 1)
  }

  lemma Pow256Values()
    ensures Pow256(4) == 0x1_0000_0000
    ensures Pow256(8) == 0x1_0000_0000_0000_0000
  {
  }

  /** The unsigned value of a big-endian byte sequence. */
  function FromBE(bs: seq<Byte>): (r: nat)
    ensures r < Pow256(|bs|)
  {
    if bs == [] then 0 else FromBE(bs[..|bs| - 1]) * 256 + bs[|bs| - 1]
  }

  /** The n big-endian bytes of an unsigned value below 256^n (ByteBuffer.putInt/putLong). */
  function ToBE(v: nat, n: nat): (r: seq<Byte>)
    requires v < Pow256(n)
    ensures |r| == n
  {
    if n == 0 then [] else ToBE(v / 256, n - 1) + [v % 256]
  }

  lemma {:induction false} FromToBE(v: nat, n: nat)
    requires v < Pow256(n)
    ensures FromBE(ToBE(v, n)) == v
  {
    if n > 0 {
      var r := ToBE(v, n);
      assert r[..|r| - 1] == ToBE(v / 256, n - 1);
      FromToBE(v / 256, n - 1);
    }
  }

  /** Two's complement: the unsigned bit pattern of a signed n-byte value. */
  function Unsigned(v: int, n: nat): (r: nat)
    requires -Pow256(n) / 2 <= v < Pow256(n) / 2
    ensures r < Pow256(n)
  {
    if v < 0 then v + Pow256(n) else v
  }

  /** Two's complement: the signed value of an n-byte bit pattern (ByteBuffer.getInt/getLong). */
  function Signed(u: nat, n: nat): (r: int)
    requires n >= 1 && u < Pow256(n)
    ensures -Pow256(n) / 2 <= r < Pow256(n) / 2
  {
    if u >= Pow256(n) / 2 then u - Pow256(n) else u
  }

  lemma SignedUnsigned(v: int, n: nat)
    requires n >= 1 && -Pow256(n) / 2 <= v < Pow256(n) / 2
    ensures Signed(Unsigned(v, n), n) == v
  {
    assert Pow256(n) == 256 * Pow256(n - 1);
  }

  function PutInt(v: Int32): (r: seq<Byte>)
    ensures |r| == 4
  {
    Pow256Values();
    ToBE(Unsigned(v, 4), 4)
  }

  function PutLong(v: Int64): (r: seq<Byte>)
    ensures |r| == 8
  {
    Pow256Values();
    ToBE(Unsigned(v, 8), 8)
  }

  function GetInt(bs: seq<Byte>): (r: Int32)
    requires |bs| >= 4
  {
    Pow256Values();
    Signed(FromBE(bs[..4]), 4)
  }

  function GetLong(bs: seq<Byte>): (r: Int64)
    requires |bs| >= 8
  {
    Pow256Values();
    Signed(FromBE(bs[..8]), 8)
  }

  lemma {:induction false} GetPutInt(v: Int32, rest: seq<Byte>)
    ensures GetInt(PutInt(v) + rest) == v
  {
    Pow256Values();
    assert (PutInt(v) + rest)[..4] == PutInt(v);
    FromToBE(Unsigned(v, 4), 4);
    SignedUnsigned(v, 4);
  }

  lemma {:induction false} GetPutLong(v: Int64, rest: seq<Byte>)
    ensures GetLong(PutLong(v) + rest) == v
  {
    Pow256Values();
    assert (PutLong(v) + rest)[..8] == PutLong(v);
    FromToBE(Unsigned(v, 8), 8);
    SignedUnsigned(v, 8);
  }

  // ---------- one part ----------

  function Tag(p: Part): Byte
  {
    match p
    case Null => 0
    case Int32Part(_) => T_INT32
    case Int64Part(_) => T_INT64
    case UuidPart(_, _) => T_UUID
    case BytesPart(_) => T_BYTES
    case StrPart(_) => T_STRING
  }

  function Payload(p: Part): (r: JavaBytes)
  {
    match p
    case Null => []
    case Int32Part(i) => PutInt(i)
    case Int64Part(l) => PutLong(l)
    case UuidPart(msb, lsb) => PutLong(msb) + PutLong(lsb)
    case BytesPart(b) => b
    case StrPart(s) => s
  }

  /** encodePart: tag, big-endian length, payload; a null part is rejected. */
  function EncodePart(p: Part): (r: Result<seq<Byte>>)
    ensures r.Err? <==> p.Null?
    ensures r.Err? ==> r.error == IllegalArgumentException
    ensures r.Ok? ==> |r.value| == 5 + |Payload(p)| && r.value[0] == Tag(p)
    ensures r.Ok? ==> r.value[5..] == Payload(p) && GetInt(r.value[1..]) == |Payload(p)|
  {
    if p.Null? then Err(IllegalArgumentException)
    else
      var chunk := [Tag(p)] + PutInt(|Payload(p)|) + Payload(p);
      assert chunk[1..] == PutInt(|Payload(p)|) + Payload(p);
      GetPutInt(|Payload(p)|, Payload(p));
      Ok(chunk)
  }

  /** The fixed payload sizes of the numeric parts. */
  lemma PayloadSizes(p: Part)
    ensures p.Int32Part? ==> |Payload(p)| == 4
    ensures p.Int64Part? ==> |Payload(p)| == 8
    ensures p.UuidPart? ==> |Payload(p)| == 16
  {
  }

  /** decodePart: reads the payload back according to the tag. */
  function DecodePart(t: Byte, payload: JavaBytes): (r: Result<Part>)
    ensures t !in {T_INT32, T_INT64, T_UUID, T_BYTES, T_STRING} ==> r == Err(IllegalArgumentException)
  {
    if t == T_INT32 then
      if |payload| < 4 then Err(BufferUnderflowException) else Ok(Int32Part(GetInt(payload)))
    else if t == T_INT64 then
      if |payload| < 8 then Err(BufferUnderflowException) else Ok(Int64Part(GetLong(payload)))
    else if t == T_UUID then
      if |payload| < 16 then Err(BufferUnderflowException)
      else Ok(UuidPart(GetLong(payload), GetLong(payload[8..])))
    else if t == T_BYTES then Ok(BytesPart(payload))
    else if t == T_STRING then Ok(StrPart(payload))
    else Err(IllegalArgumentException)
  }

  /** Decoding a part's own tag and payload gives the part back. */
  lemma DecodeEncodedPart(p: Part)
    requires !p.Null?
    ensures DecodePart(Tag(p), Payload(p)) == Ok(p)
  {
    match p
    case Int32Part(i) =>
      assert PutInt(i) + [] == PutInt(i);
      GetPutInt(i, []);
    case Int64Part(l) =>
      assert PutLong(l) + [] == PutLong(l);
      GetPutLong(l, []);
    case UuidPart(msb, lsb) =>
      GetPutLong(msb, PutLong(lsb));
      assert (PutLong(msb) + PutLong(lsb))[8..] == PutLong(lsb) + [];
      GetPutLong(lsb, []);
    case BytesPart(_) =>
    case StrPart(_) =>
  }

  // ---------- whole keys ----------

  /** encode: the concatenation of the encoded parts, or the first part's rejection. */
  function EncodeAll(parts: seq<Part>): Result<seq<Byte>>
  {
    if parts == [] then Ok([])
    else
      match EncodePart(parts[0])
      case Err(e) => Err(e)
      case Ok(chunk) =>
        match EncodeAll(parts[1..])
        case Err(e) => Err(e)
        case Ok(rest) => Ok(chunk + rest)
  }

  function Then(a: Result<seq<Byte>>, b: Result<seq<Byte>>): Result<seq<Byte>>
  {
    match a
    case Err(e) => Err(e)
    case Ok(x) => match b case Err(e) => Err(e) case Ok(y) => Ok(x + y)
  }

  /** encode is concatenative. */
  lemma {:induction false} EncodeAppend(a: seq<Part>, b: seq<Part>)
    ensures EncodeAll(a + b) == Then(EncodeAll(a), EncodeAll(b))
  {
    if a == [] {
      assert a + b == b;
      match EncodeAll(b)
      case Err(_) =>
      case Ok(y) => assert [] + y == y;
    } else {
      assert (a + b)[0] == a[0];
      assert (a + b)[1..] == a[1..] + b;
      EncodeAppend(a[1..], b);
      match EncodePart(a[0])
      case Err(_) =>
      case Ok(c) =>
        match EncodeAll(a[1..])
        case Err(_) =>
        case Ok(x) =>
          match EncodeAll(b)
          case Err(_) =>
          case Ok(y) => assert c + (x + y) == (c + x) + y;
    }
  }

  /** encode fails exactly when some part is null. */
  lemma {:induction false} EncodeFails(parts: seq<Part>)
    ensures EncodeAll(parts).Err? <==> exists i :: 0 <= i < |parts| && parts[i].Null?
    ensures EncodeAll(parts).Err? ==> EncodeAll(parts).error == IllegalArgumentException
  {
    if parts != [] {
      EncodeFails(parts[1..]);
      if parts[0].Null? {
      } else {
        assert forall i :: 1 <= i < |parts| ==> parts[i] == parts[1..][i - 1];
      }
    }
  }

  /** The encoded length is the sum of the chunk lengths. */
  function EncodedLength(parts: seq<Part>): nat
  {
    if parts == [] then 0 else 5 + |Payload(parts[0])| + EncodedLength(parts[1..])
  }

  lemma {:induction false} EncodeLength(parts: seq<Part>)
    requires EncodeAll(parts).Ok?
    ensures |EncodeAll(parts).value| == EncodedLength(parts)
  {
    if parts != [] {
      EncodeLength(parts[1..]);
    }
  }

  /** The parts decoded so far followed by the outcome of decoding the rest. */
  function Preceded(out: seq<Part>, r: Result<seq<Part>>): Result<seq<Part>>
  {
    match r
    case Err(e) => Err(e)
    case Ok(ps) => Ok(out + ps)
  }

  /**
   * decode: reads parts until the buffer is exhausted. A buffer too short for the
   * length field underflows; a negative or too large length, or an unknown tag, is rejected.
   */
  function DecodeAll(bs: seq<Byte>): Result<seq<Part>>
    decreases |bs|
  {
    if bs == [] then Ok([])
    else if |bs| < 5 then Err(BufferUnderflowException)
    else
      var len := GetInt(bs[1..]);
      if len < 0 || len > |bs| - 5 then Err(IllegalArgumentException)
      else
        match DecodePart(bs[0], bs[5..5 + len])
        case Err(e) => Err(e)
        case Ok(p) => Preceded([p], DecodeAll(bs[5 + len..]))
  }

  /** A length field that is negative or runs past the buffer is rejected. */
  lemma DecodeRejectsLength(bs: seq<Byte>)
    requires |bs| >= 5
    requires GetInt(bs[1..]) < 0 || GetInt(bs[1..]) > |bs| - 5
    ensures DecodeAll(bs) == Err(IllegalArgumentException)
  {
  }

  /** An unknown tag with a well-formed length is rejected. */
  lemma DecodeRejectsTag(bs: seq<Byte>)
    requires |bs| >= 5 && 0 <= GetInt(bs[1..]) <= |bs| - 5
    requires bs[0] !in {T_INT32, T_INT64, T_UUID, T_BYTES, T_STRING}
    ensures DecodeAll(bs) == Err(IllegalArgumentException)
  {
  }

  /** Round trip: decoding an encoded key gives back its parts. */
  lemma {:induction false} DecodeEncode(parts: seq<Part>)
    requires EncodeAll(parts).Ok?
    ensures DecodeAll(EncodeAll(parts).value) == Ok(parts)
  {
    if parts != [] {
      var p := parts[0];
      var chunk := EncodePart(p).value;
      var rest := EncodeAll(parts[1..]).value;
      var bs := chunk + rest;
      var len := |Payload(p)|;
      FieldOfChunk(p, rest);
      DecodeEncodedPart(p);
      DecodeAt(bs, 0, len, Ok(p));
      assert bs[0..] == bs;
      DecodeEncode(parts[1..]);
      assert [p] + parts[1..] == parts;
    }
  }

  /** The field an encoded part leaves at the head of the buffer. */
  lemma FieldOfChunk(p: Part, rest: seq<Byte>)
    requires !p.Null?
    ensures var bs := EncodePart(p).value + rest;
      var len := |Payload(p)|;
      5 + len <= |bs| && GetInt(bs[1..]) == len && bs[0] == Tag(p)
      && bs[5..5 + len] == Payload(p) && bs[5 + len..] == rest
  {
    var chunk := EncodePart(p).value;
    Split(chunk, rest, 1);
    Split(chunk, rest, 5);
    GetIntPrefix(chunk[1..], rest);
  }

  /** Slicing a concatenation at or before the end of its first part. */
  lemma Split(a: seq<Byte>, b: seq<Byte>, k: nat)
    requires k <= |a|
    ensures (a + b)[k..] == a[k..] + b
    ensures (a + b)[k..|a|] == a[k..]
    ensures (a + b)[|a|..] == b
  {
  }

  /** getInt reads only the first four bytes. */
  lemma GetIntPrefix(a: seq<Byte>, b: seq<Byte>)
    requires |a| >= 4
    ensures GetInt(a + b) == GetInt(a)
  {
    assert (a + b)[..4] == a[..4];
  }

  /** Round trip on one part, for each kind the codec supports. */
  lemma DecodeEncodeOne(p: Part)
    requires !p.Null?
    ensures EncodeAll([p]).Ok? && DecodeAll(EncodeAll([p]).value) == Ok([p])
  {
    EncodeFails([p]);
    DecodeEncode([p]);
  }

  // ---------- the imperative encoder and decoder ----------

  function Flatten(chunks: seq<seq<Byte>>): seq<Byte>
  {
    if chunks == [] then [] else Flatten(chunks[..|chunks| - 1]) + chunks[|chunks| - 1]
  }

  /**
   * encode: gathers the chunks and their total size, then packs them into a buffer
   * of exactly that size.
   */
  method Encode(parts: seq<Part>) returns (r: Result<seq<Byte>>)
    ensures r == EncodeAll(parts)
  {
    var chunks, total, failed := GatherChunks(parts);
    if failed.Some? {
      return Err(failed.value);
    }
    var bytes := Pack(chunks, total);
    return Ok(bytes);
  }

  /** The first loop of encode: one chunk per part, stopping at a rejected part. */
  method GatherChunks(parts: seq<Part>) returns (chunks: seq<seq<Byte>>, total: nat, failed: Option<Exception>)
    ensures failed.Some? ==> EncodeAll(parts) == Err(failed.value)
    ensures failed.None? ==> EncodeAll(parts) == Ok(Flatten(chunks)) && total == |Flatten(chunks)|
  {
    chunks, total := [], 0;
    for k := 0 to |parts|
      invariant EncodeAll(parts[..k]) == Ok(Flatten(chunks))
      invariant |Flatten(chunks)| == total
    {
      var c := EncodePart(parts[k]);
      EncodeAppend(parts[..k], [parts[k]]);
      assert parts[..k + 1] == parts[..k] + [parts[k]];
      if c.Err? {
        EncodeAppend(parts[..k + 1], parts[k + 1..]);
        assert parts[..k + 1] + parts[k + 1..] == parts;
        return chunks, total, Some(c.error);
      }
      assert EncodeAll([parts[k]]) == Ok(c.value + []);
      assert c.value + [] == c.value;
      chunks := chunks + [c.value];
      total := total + |c.value|;
    }
    assert parts[..|parts|] == parts;
    failed := None;
  }

  /** The second loop of encode: copies the chunks one after another into the buffer. */
  method Pack(chunks: seq<seq<Byte>>, total: nat) returns (bytes: seq<Byte>)
    requires total == |Flatten(chunks)|
    ensures bytes == Flatten(chunks)
  {
    var buf := new Byte[total];
    var pos := 0;
    for k := 0 to |chunks|
      invariant pos == |Flatten(chunks[..k])| <= total
      invariant buf[..pos] == Flatten(chunks[..k])
    {
      FlattenPrefix(chunks, k + 1);
      var c := chunks[k];
      CopyChunk(buf, pos, c);
      pos := pos + |c|;
    }
    assert chunks[..|chunks|] == chunks;
    bytes := buf[..];
  }

  /** ByteBuffer.put of one chunk at the cursor. */
  method CopyChunk(buf: array<Byte>, pos: nat, c: seq<Byte>)
    requires pos + |c| <= buf.Length
    modifies buf
    ensures buf[..pos + |c|] == old(buf[..pos]) + c
  {
    ghost var before := buf[..pos];
    for j := 0 to |c|
      invariant buf[..pos] == before
      invariant buf[pos..pos + j] == c[..j]
    {
      buf[pos + j] := c[j];
      assert buf[pos..pos + j + 1] == buf[pos..pos + j] + [c[j]];
    }
    assert buf[..pos + |c|] == buf[..pos] + buf[pos..pos + |c|];
  }

  lemma FlattenPrefix(chunks: seq<seq<Byte>>, k: nat)
    requires 1 <= k <= |chunks|
    ensures Flatten(chunks[..k]) == Flatten(chunks[..k - 1]) + chunks[k - 1]
    ensures |Flatten(chunks[..k - 1])| + |chunks[k - 1]| <= |Flatten(chunks)|
  {
    FlattenGrows(chunks, k);
    assert chunks[..k][..k - 1] == chunks[..k - 1];
  }

  lemma {:induction false} FlattenGrows(chunks: seq<seq<Byte>>, k: nat)
    requires k <= |chunks|
    ensures |Flatten(chunks[..k])| <= |Flatten(chunks)|
    decreases |chunks| - k
  {
    if k < |chunks| {
      FlattenGrows(chunks, k + 1);
      assert chunks[..k + 1][..k] == chunks[..k];
    } else {
      assert chunks[..k] == chunks;
    }
  }

  /** decode: a cursor walks the buffer, collecting one part per field. */
  method Decode(rowKey: seq<Byte>) returns (r: Result<seq<Part>>)
    ensures r == DecodeAll(rowKey)
  {
    var out: seq<Part> := [];
    var pos := 0;
    ghost var whole := DecodeAll(rowKey);
    assert rowKey[pos..] == rowKey;
    PrecededNothing(whole);
    while pos < |rowKey|
      invariant 0 <= pos <= |rowKey|
      invariant whole == Preceded(out, DecodeAll(rowKey[pos..]))
      decreases |rowKey| - pos
    {
      var part, next := ReadField(rowKey, pos);
      if part.Err? {
        return Err(part.error);
      }
      PrecededMore(out, part.value, DecodeAll(rowKey[next..]));
      out, pos := out + [part.value], next;
    }
    assert rowKey[pos..] == [];
    assert out + [] == out;
    return Ok(out);
  }

  /** One field at the cursor: its part and the position after it, or the
    * error the decoder stops with. */
  method ReadField(rowKey: seq<Byte>, pos: nat) returns (r: Result<Part>, next: nat)
    requires pos < |rowKey|
    ensures r.Err? ==> DecodeAll(rowKey[pos..]) == Err(r.error)
    ensures r.Ok? ==> pos < next <= |rowKey|
    ensures r.Ok? ==> DecodeAll(rowKey[pos..]) == Preceded([r.value], DecodeAll(rowKey[next..]))
  {
    var t := rowKey[pos];
    if |rowKey| - (pos + 1) < 4 {
      DecodeAtShort(rowKey, pos);
      return Err(BufferUnderflowException), pos;
    }
    var len := GetInt(rowKey[pos + 1..]);
    if len < 0 || len > |rowKey| - (pos + 5) {
      DecodeAtBadLength(rowKey, pos);
      return Err(IllegalArgumentException), pos;
    }
    r := DecodePart(t, rowKey[pos + 5..pos + 5 + len]);
    DecodeAt(rowKey, pos, len, r);
    next := pos + 5 + len;
  }

  lemma PrecededNothing(r: Result<seq<Part>>)
    ensures Preceded([], r) == r
  {
    match r
    case Err(_) =>
    case Ok(ps) => assert [] + ps == ps;
  }

  lemma PrecededMore(out: seq<Part>, p: Part, r: Result<seq<Part>>)
    ensures Preceded(out, Preceded([p], r)) == Preceded(out + [p], r)
  {
    match r
    case Err(_) =>
    case Ok(ps) => assert out + ([p] + ps) == (out + [p]) + ps;
  }

  /** Fewer than five bytes left at the cursor. */
  lemma DecodeAtShort(bs: seq<Byte>, pos: nat)
    requires pos < |bs| < pos + 5
    ensures DecodeAll(bs[pos..]) == Err(BufferUnderflowException)
  {
  }

  /** A length field read at the cursor that is negative or runs past the buffer. */
  lemma DecodeAtBadLength(bs: seq<Byte>, pos: nat)
    requires pos + 5 <= |bs|
    requires GetInt(bs[pos + 1..]) < 0 || GetInt(bs[pos + 1..]) > |bs| - (pos + 5)
    ensures DecodeAll(bs[pos..]) == Err(IllegalArgumentException)
  {
    assert bs[pos..][1..] == bs[pos + 1..];
  }

  /** One well-formed field read at the cursor. */
  lemma DecodeAt(bs: seq<Byte>, pos: nat, len: nat, r: Result<Part>)
    requires pos + 5 + len <= |bs| && GetInt(bs[pos + 1..]) == len
    requires r == DecodePart(bs[pos], bs[pos + 5..pos + 5 + len])
    ensures r.Err? ==> DecodeAll(bs[pos..]) == Err(r.error)
    ensures r.Ok? ==> DecodeAll(bs[pos..]) == Preceded([r.value], DecodeAll(bs[pos + 5 + len..]))
  {
    var t := bs[pos..];
    assert t[1..] == bs[pos + 1..];
    assert t[5..5 + len] == bs[pos + 5..pos + 5 + len];
    assert t[5 + len..] == bs[pos + 5 + len..];
  }

  // ---------- shard selection ----------

  const LONG_MASK: nat := 0x7fff_ffff_ffff_ffff

  /**
   * shardForKey, given the digest of the row key: the first 8 digest bytes read as an
   * unsigned 64-bit value, its sign bit cleared, modulo the shard count.
   */
  function ShardOf(digest: seq<Byte>, numShards: int): (r: Result<int>)
    requires |digest| >= 8
    ensures numShards <= 0 <==> r.Err?
    ensures r.Err? ==> r.error == IllegalArgumentException
    ensures r.Ok? ==> 0 <= r.value < numShards
  {
    if numShards <= 0 then Err(IllegalArgumentException)
    else Ok((FromBE(digest[..8]) % (LONG_MASK + 1)) % numShards)
  }

  method ShardForKey(digest: seq<Byte>, numShards: int) returns (r: Result<int>)
    requires |digest| >= 8
    ensures r == ShardOf(digest, numShards)
  {
    if numShards <= 0 {
      return Err(IllegalArgumentException);
    }
    var v: nat := 0;
    for i := 0 to 8
      invariant v == FromBE(digest[..i])
    {
      assert digest[..i + 1][..i] == digest[..i];
      v := v * 256 + digest[i];
    }
    var unsigned := v % (LONG_MASK + 1);
    return Ok(unsigned % numShards);
  }
}
