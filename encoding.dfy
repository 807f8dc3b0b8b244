/**
 * What the type-tagged encoding of hasher.go guarantees: its layout, the
 * widening of every integer to 64 bits, and that (apart from values that
 * write their own bytes) the encoding can be decoded again, so distinct
 * values of distinct kinds never produce the same input to SHA-256.
 */
module Encoding {
  import opened GoTypes
  import opened Hasher

  // ----- layout -----

  /** writeUint64 emits the nonzero tag, then 8 bytes from which v is read back little-endian. */
  lemma Uint64Layout(tag: byte, v: u64)
    ensures tag != 0 ==> |Uint64Bytes(tag, v)| == 9 && Uint64Bytes(tag, v)[0] == tag
    ensures tag == 0 ==> |Uint64Bytes(tag, v)| == 8
    ensures FromLittleEndian(Uint64Bytes(tag, v)[|Uint64Bytes(tag, v)| - 8..]) == v
  {
    LittleEndian64RoundTrip(v);
    assert Uint64Bytes(tag, v)[|Uint64Bytes(tag, v)| - 8..] == LittleEndian64(v);
  }

  /** writeString / writeBytes: tag ++ LE64(len) ++ payload, 9 + len bytes, length and payload recoverable. */
  lemma PayloadLayout(tag: byte, s: GoBytes)
    ensures |PayloadBytes(tag, s)| == 9 + |s|
    ensures PayloadBytes(tag, s)[0] == tag
    ensures FromLittleEndian(PayloadBytes(tag, s)[1..9]) == |s|
    ensures PayloadBytes(tag, s)[9..] == s
  {
    LittleEndian64RoundTrip(|s|);
    assert PayloadBytes(tag, s)[1..9] == LittleEndian64(|s|);
  }

  /** A bool is exactly [tagBool, 1] or [tagBool, 0]. */
  lemma BoolLayout(b: bool)
    ensures Encode(BoolV(b)) == [TagBool, if b then 1 else 0]
  {
  }

  /** A Hashable value is its tag followed by exactly what it writes itself. */
  lemma HashableLayout(w: seq<byte>)
    ensures Encode(HashableV(w)) == [TagHashable] + w
  {
  }

  /** The nine tags are distinct and lie in 1..9, so no tag is the "no tag" value 0 of writeUint64. */
  lemma TagsDistinct()
    ensures [TagHashable, TagString, TagBytes, TagBool, TagInt64, TagUint64, TagFloat64, TagStringer, TagFallback]
         == [1, 2, 3, 4, 5, 6, 7, 8, 9]
  {
  }

  // ----- width normalisation -----

  /** The value writeHash actually encodes: every integer widened to 64 bits, float32 bits zero-extended under the float64 tag. */
  function Canonical(v: Value): (c: Value)
    ensures !v.HashableV? ==> !c.HashableV?
  {
    match v
    case IntV(x) => Int64V(x)
    case Int8V(x) => Int64V(x)
    case Int16V(x) => Int64V(x)
    case Int32V(x) => Int64V(x)
    case UintV(x) => Uint64V(x)
    case Uint8V(x) => Uint64V(x)
    case Uint16V(x) => Uint64V(x)
    case Uint32V(x) => Uint64V(x)
    case UintptrV(x) => Uint64V(x)
    case Float32V(x) => Float64V(x)
    case _ => v
  }

  /**
   * float32 is not widened: its 32-bit pattern is zero-extended and written
   * under the float64 tag, so a float32 encodes like exactly one float64,
   * the one with the same bits. float32(1.0), bits 0x3f800000, therefore
   * encodes like the float64 subnormal with bits 0x3f800000 and not like
   * float64(1.0), bits 0x3ff0000000000000.
   */
  lemma Float32SharesFloat64Tag(b: u32, f: u64)
    ensures Encode(Float32V(b)) == Encode(Float64V(f)) <==> f == b
  {
    Uint64Layout(TagFloat64, b);
    Uint64Layout(TagFloat64, f);
  }

  /** Every value encodes exactly as its canonical 64-bit form. */
  lemma EncodeCanonical(v: Value)
    ensures Encode(Canonical(v)) == Encode(v)
  {
  }

  /** Signed integers of every width encode as int64 of the same value. */
  lemma SignedWidthsAgree(x: i8, y: i16, z: i32, w: i64)
    ensures Encode(Int8V(x)) == Encode(Int64V(x))
    ensures Encode(Int16V(y)) == Encode(Int64V(y))
    ensures Encode(Int32V(z)) == Encode(Int64V(z))
    ensures Encode(IntV(w)) == Encode(Int64V(w))
  {
  }

  /** Unsigned integers of every width, uintptr included, encode as uint64 of the same value. */
  lemma UnsignedWidthsAgree(x: byte, y: u16, z: u32, w: u64)
    ensures Encode(Uint8V(x)) == Encode(Uint64V(x))
    ensures Encode(Uint16V(y)) == Encode(Uint64V(y))
    ensures Encode(Uint32V(z)) == Encode(Uint64V(z))
    ensures Encode(UintV(w)) == Encode(Uint64V(w))
    ensures Encode(UintptrV(w)) == Encode(Uint64V(w))
  {
  }

  // ----- decoding -----

  datatype Decoded = Decoded(value: Value, rest: seq<byte>)

  /** Read one length-prefixed payload after its tag byte. */
  function DecodePayload(s: seq<byte>): (r: Option<(GoBytes, seq<byte>)>)
    requires |s| >= 1
    ensures r.Some? ==> |r.value.1| < |s|
  {
    if |s| < 9 then None
    else
      var n := FromLittleEndian(s[1..9]);
      if n >= TWO_63 || |s| < 9 + n then None
      else Some((s[9..9 + n], s[9 + n..]))
  }

  /**
   * The inverse of Encode on everything but Hashable values: read one value
   * (in canonical form) off the front of a byte stream.
   */
  function Decode(s: seq<byte>): (r: Option<Decoded>)
    ensures r.Some? ==> |r.value.rest| < |s| && !r.value.value.HashableV?
  {
    if |s| == 0 then None
    else if s[0] == TagString || s[0] == TagBytes || s[0] == TagStringer || s[0] == TagFallback then
      match DecodePayload(s)
      case None => None
      case Some((p, rest)) =>
        var v := if s[0] == TagString then StringV(p)
                 else if s[0] == TagBytes then BytesV(p)
                 else if s[0] == TagStringer then StringerV(p)
                 else FallbackV(p);
        Some(Decoded(v, rest))
    else if s[0] == TagBool then
      if |s| >= 2 && (s[1] == 0 || s[1] == 1) then Some(Decoded(BoolV(s[1] == 1), s[2..])) else None
    else if s[0] == TagInt64 || s[0] == TagUint64 || s[0] == TagFloat64 then
      if |s| < 9 then None
      else
        Pow256Eight();
        var x: u64 := FromLittleEndian(s[1..9]);
        var v := if s[0] == TagInt64 then Int64V(SignedOfBits(x))
                 else if s[0] == TagUint64 then Uint64V(x)
                 else Float64V(x);
        Some(Decoded(v, s[9..]))
    else None
  }

  lemma DecodeUint64(tag: byte, v: u64, rest: seq<byte>)
    requires tag == TagInt64 || tag == TagUint64 || tag == TagFloat64
    ensures var s := Uint64Bytes(tag, v) + rest;
      Decode(s) == Some(Decoded(
        if tag == TagInt64 then Int64V(SignedOfBits(v))
        else if tag == TagUint64 then Uint64V(v)
        else Float64V(v), rest))
  {
    var s := Uint64Bytes(tag, v) + rest;
    Uint64Layout(tag, v);
    assert s[1..9] == Uint64Bytes(tag, v)[1..9];
    assert s[9..] == rest;
  }

  lemma DecodePayloadBytes(tag: byte, p: GoBytes, rest: seq<byte>)
    requires tag in {TagString, TagBytes, TagStringer, TagFallback}
    ensures DecodePayload(PayloadBytes(tag, p) + rest) == Some((p, rest))
  {
    var s := PayloadBytes(tag, p) + rest;
    PayloadLayout(tag, p);
    assert s[1..9] == PayloadBytes(tag, p)[1..9];
    assert s[9..9 + |p|] == p;
    assert s[9 + |p|..] == rest;
  }

  /** Decoding undoes encoding: what is read back is the value in canonical width, and the rest is untouched. */
  lemma DecodeEncode(v: Value, rest: seq<byte>)
    requires !v.HashableV?
    ensures Decode(Encode(v) + rest) == Some(Decoded(Canonical(v), rest))
  {
    if v.StringV? || v.BytesV? || v.StringerV? || v.FallbackV? {
      DecodeEncodeText(v, rest);
    } else if v.BoolV? {
      assert (Encode(v) + rest)[2..] == rest;
    } else {
      DecodeEncodeNumber(v, rest);
    }
  }

  lemma DecodeEncodeText(v: Value, rest: seq<byte>)
    requires v.StringV? || v.BytesV? || v.StringerV? || v.FallbackV?
    ensures Decode(Encode(v) + rest) == Some(Decoded(Canonical(v), rest))
  {
    match v
    case StringV(p) => DecodePayloadBytes(TagString, p, rest);
    case BytesV(p) => DecodePayloadBytes(TagBytes, p, rest);
    case StringerV(p) => DecodePayloadBytes(TagStringer, p, rest);
    case FallbackV(p) => DecodePayloadBytes(TagFallback, p, rest);
  }

  lemma DecodeEncodeNumber(v: Value, rest: seq<byte>)
    requires !v.HashableV? && !v.StringV? && !v.BytesV? && !v.StringerV? && !v.FallbackV? && !v.BoolV?
    ensures Decode(Encode(v) + rest) == Some(Decoded(Canonical(v), rest))
  {
    var (tag, w) := NumberWord(v);
    assert Encode(v) == Uint64Bytes(tag, w);
    DecodeUint64(tag, w, rest);
    if tag == TagInt64 {
      SignedOfBitsInverse(match v case IntV(x) => x case Int8V(x) => x case Int16V(x) => x
                                  case Int32V(x) => x case Int64V(x) => x case _ => 0);
    }
  }

  // ----- injectivity -----

  /** Two non-Hashable values encode alike exactly when their 64-bit canonical forms are equal. */
  lemma EncodeInjective(a: Value, b: Value)
    requires !a.HashableV? && !b.HashableV?
    ensures Encode(a) == Encode(b) <==> Canonical(a) == Canonical(b)
  {
    if Encode(a) == Encode(b) {
      DecodeEncode(a, []);
      DecodeEncode(b, []);
      assert Encode(a) + [] == Encode(b) + [];
    }
    if Canonical(a) == Canonical(b) {
      EncodeCanonical(a);
      EncodeCanonical(b);
    }
  }

  /** Because of the tags, a string never encodes like a []byte, and int 1 never like uint 1. */
  lemma KindsNeverCollide(s: GoBytes, x: i64, y: u64)
    ensures Encode(StringV(s)) != Encode(BytesV(s))
    ensures Encode(IntV(x)) != Encode(UintV(y))
    ensures Encode(StringV(s)) != Encode(StringerV(s))
  {
    PayloadLayout(TagString, s);
    PayloadLayout(TagBytes, s);
    PayloadLayout(TagStringer, s);
    Uint64Layout(TagInt64, Int64Bits(x));
    Uint64Layout(TagUint64, y);
  }

  /**
   * The SHA-256 input determines the (canonical) item and the node ID, so
   * two different placements never share a hash input.
   */
  lemma StreamInjective(id1: GoBytes, item1: Value, id2: GoBytes, item2: Value)
    requires !item1.HashableV? && !item2.HashableV?
    ensures Stream(id1, item1) == Stream(id2, item2) <==> Canonical(item1) == Canonical(item2) && id1 == id2
  {
    if Stream(id1, item1) == Stream(id2, item2) {
      DecodeEncode(item1, Encode(StringV(id1)));
      DecodeEncode(item2, Encode(StringV(id2)));
      DecodeEncode(StringV(id1), []);
      DecodeEncode(StringV(id2), []);
      assert Encode(StringV(id1)) + [] == Encode(StringV(id2)) + [];
    }
    if Canonical(item1) == Canonical(item2) {
      EncodeCanonical(item1);
      EncodeCanonical(item2);
    }
  }

  /**
   * A Hashable value's own writes are not length-prefixed, so the SHA-256
   * input alone does not fix where the item ends and the node ID begins:
   * the item Hashable(w) on node ID enc(z) and the item
   * Hashable(w ++ [tagString] ++ LittleEndian64(|enc(z)|)) on node ID z feed the same bytes.
   */
  lemma HashableStreamAmbiguous(w: seq<byte>, z: GoBytes, id1: GoBytes)
    requires id1 == Encode(StringV(z))
    ensures Stream(id1, HashableV(w)) == Stream(z, HashableV(w + [TagString] + LittleEndian64(|id1|)))
  {
  }
}
