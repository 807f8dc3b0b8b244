/**
 * hasher.go: the default node hasher. An item and a node ID are written,
 * each as a type-tagged, length-prefixed byte encoding, into a running
 * SHA-256 state; the score is the first 8 digest bytes read big-endian.
 *
 * SHA-256 itself is a parameter `sha`; the running hash state is modelled by
 * the bytes written into it so far (HashState), which is all the digest can
 * depend on.
 */
module Hasher {
  import opened GoTypes

  // ----- tag constants (hasher.go:31-41) -----

  const TagHashable: byte := 1
  const TagString: byte := 2
  const TagBytes: byte := 3
  const TagBool: byte := 4
  const TagInt64: byte := 5
  const TagUint64: byte := 6
  const TagFloat64: byte := 7
  const TagStringer: byte := 8
  const TagFallback: byte := 9

  /** A SHA-256 digest: 32 bytes. */
  type Digest = d: seq<byte> | |d| == 32 witness seq(32, _ => 0)

  /** The NodeHasher interface: a pure function from (node ID, item) to a score. */
  type NodeHasher = (GoBytes, Value) -> u64

  /**
   * The item kinds writeHash tells apart. A `Hashable` value is represented
   * by the bytes its own `Hash` method writes; a `fmt.Stringer` by the text
   * its `String` method returns; any other value by its "%T:%v" text.
   */
  datatype Value =
    | HashableV(writes: seq<byte>)
    | StringV(str: GoBytes)
    | BytesV(bytes: GoBytes)
    | BoolV(flag: bool)
    | IntV(int64: i64)          // Go's int, 64 bits wide
    | Int8V(int8: i8)
    | Int16V(int16: i16)
    | Int32V(int32: i32)
    | Int64V(i64: i64)
    | UintV(uint64: u64)        // Go's uint, 64 bits wide
    | Uint8V(uint8: byte)
    | Uint16V(uint16: u16)
    | Uint32V(uint32: u32)
    | Uint64V(u64: u64)
    | UintptrV(uintptr: u64)
    | Float32V(bits32: u32)     // math.Float32bits of the value
    | Float64V(bits64: u64)     // math.Float64bits of the value
    | StringerV(text: GoBytes)
    | FallbackV(formatted: GoBytes)

  // ----- little- and big-endian integers -----

  function Pow256(n: nat): (r: nat)
    ensures r > 0
  {
    if n == 0 then 1 else 256 * Pow256(n - 1)
  }

  lemma Pow256Eight()
    ensures Pow256(8) == TWO_64
  {
  }

  /** byte(v >> (8 * i)): byte i of v, counting from the least significant. */
  function ByteAt(v: nat, i: nat): byte {
    if i == 0 then v % 256 else ByteAt(v / 256, i - 1)
  }

  /** binary.LittleEndian.PutUint64: byte i of the buffer is byte i of v. */
  function LittleEndian64(v: u64): (r: seq<byte>)
    ensures |r| == 8
  {
    seq(8, i requires 0 <= i < 8 => ByteAt(v, i))
  }

  /** The number a little-endian byte string stands for. */
  function FromLittleEndian(s: seq<byte>): (r: nat)
    ensures r < Pow256(|s|)
  {
    if s == [] then 0
    else
      var rest := FromLittleEndian(s[1..]);
      assert rest + 1 <= Pow256(|s| - 1);
      assert 256 * rest + 256 <= 256 * Pow256(|s| - 1);
      s[0] + 256 * rest
  }

  /** binary.BigEndian.Uint64 generalised: the number a big-endian byte string stands for. */
  function FromBigEndian(s: seq<byte>): (r: nat)
    ensures r < Pow256(|s|)
  {
    if s == [] then 0
    else
      var front := FromBigEndian(s[..|s| - 1]);
      assert front + 1 <= Pow256(|s| - 1);
      assert 256 * front + 256 <= 256 * Pow256(|s| - 1);
      front * 256 + s[|s| - 1]
  }

  /** Any n bytes that are bytes 0..n-1 of v read back as v, when v fits in n bytes. */
  lemma {:induction false} LittleEndianBytesRoundTrip(v: nat, s: seq<byte>)
    requires v < Pow256(|s|)
    requires forall i | 0 <= i < |s| :: s[i] == ByteAt(v, i)
    ensures FromLittleEndian(s) == v
  {
    if s != [] {
      assert v / 256 < Pow256(|s| - 1);
      forall i | 0 <= i < |s| - 1
        ensures s[1..][i] == ByteAt(v / 256, i)
      {
        assert s[i + 1] == ByteAt(v, i + 1);
      }
      LittleEndianBytesRoundTrip(v / 256, s[1..]);
    }
  }

  /** PutUint64 followed by binary.LittleEndian.Uint64 gives v back. */
  lemma LittleEndian64RoundTrip(v: u64)
    ensures FromLittleEndian(LittleEndian64(v)) == v
  {
    Pow256Eight();
    LittleEndianBytesRoundTrip(v, LittleEndian64(v));
  }

  /** Reading the first 8 digest bytes big-endian always yields a uint64. */
  function Uint64OfDigest(d: Digest): (r: u64)
    ensures r == FromBigEndian(d[..8])
  {
    Pow256Eight();
    FromBigEndian(d[..8])
  }

  // ----- the encoding, as pure functions -----

  /** writeUint64: the tag byte when it is nonzero, then v as 8 little-endian bytes. */
  function Uint64Bytes(tag: byte, v: u64): (r: seq<byte>)
    ensures |r| == if tag != 0 then 9 else 8
  {
    (if tag != 0 then [tag] else []) + LittleEndian64(v)
  }

  /** writeString and writeBytes: tag, 8-byte little-endian length (writeUint64 with tag 0), payload. */
  function PayloadBytes(tag: byte, s: GoBytes): (r: seq<byte>)
    ensures |r| == 9 + |s| && r[0] == tag
  {
    [tag] + LittleEndian64(|s|) + s
  }

  /** The tag and 64-bit word an integer or float is written as. */
  function NumberWord(v: Value): (byte, u64)
    requires !v.HashableV? && !v.StringV? && !v.BytesV? && !v.StringerV? && !v.FallbackV? && !v.BoolV?
  {
    match v
    case IntV(x) => (TagInt64, Int64Bits(x))
    case Int8V(x) => (TagInt64, Int64Bits(x))
    case Int16V(x) => (TagInt64, Int64Bits(x))
    case Int32V(x) => (TagInt64, Int64Bits(x))
    case Int64V(x) => (TagInt64, Int64Bits(x))
    case UintV(x) => (TagUint64, x)
    case Uint8V(x) => (TagUint64, x)
    case Uint16V(x) => (TagUint64, x)
    case Uint32V(x) => (TagUint64, x)
    case Uint64V(x) => (TagUint64, x)
    case UintptrV(x) => (TagUint64, x)
    case Float32V(x) => (TagFloat64, x)
    case Float64V(x) => (TagFloat64, x)
  }

  /** writeHash: the bytes a value contributes to the hash state. */
  function Encode(v: Value): (r: seq<byte>)
    ensures |r| > 0 && TagHashable <= r[0] <= TagFallback
  {
    match v
    case HashableV(w) => [TagHashable] + w
    case StringV(s) => PayloadBytes(TagString, s)
    case BytesV(b) => PayloadBytes(TagBytes, b)
    case BoolV(b) => [TagBool] + (if b then [1] else [0])
    case StringerV(s) => PayloadBytes(TagStringer, s)
    case FallbackV(s) => PayloadBytes(TagFallback, s)
    case _ => Uint64Bytes(NumberWord(v).0, NumberWord(v).1)
  }

  /** The byte stream DefaultNodeHasher.Hash feeds to SHA-256: the item, then the node ID. */
  function Stream(nodeID: GoBytes, item: Value): (r: seq<byte>)
    ensures |r| == |Encode(item)| + 9 + |nodeID|
  {
    Encode(item) + Encode(StringV(nodeID))
  }

  /** DefaultNodeHasher.Hash as a function of the digest function. */
  function DefaultHash(sha: seq<byte> -> Digest, nodeID: GoBytes, item: Value): (r: u64)
    ensures r == FromBigEndian(sha(Stream(nodeID, item))[..8])
  {
    Uint64OfDigest(sha(Stream(nodeID, item)))
  }

  /** The default hasher as a NodeHasher value. */
  function DefaultNodeHasher(sha: seq<byte> -> Digest): NodeHasher {
    (nodeID, item) => DefaultHash(sha, nodeID, item)
  }

  // ----- the writers, as methods on the running hash state -----

  /** The running SHA-256 state, seen as the bytes written into it so far. */
  class HashState {
    var written: seq<byte>

    constructor ()
      ensures written == []
    {
      written := [];
    }

    /** hash.Hash.Write: append p to the input. */
    method Write(p: seq<byte>)
      modifies this
      ensures written == old(written) + p
    {
      written := written + p;
    }

    /** hash.Hash.Sum: the digest of everything written. */
    function Sum(sha: seq<byte> -> Digest): Digest
      reads this
    {
      sha(written)
    }
  }

  /** writeUint64 (hasher.go:107-114): the optional tag, then v into an 8-byte buffer, little-endian. */
  method WriteUint64(h: HashState, tag: byte, v: u64)
    modifies h
    ensures h.written == old(h.written) + Uint64Bytes(tag, v)
  {
    if tag != 0 {
      h.Write([tag]);
    }
    var buf := new byte[8];
    for i := 0 to 8
      modifies buf
      invariant forall k | 0 <= k < i :: buf[k] == ByteAt(v, k)
    {
      buf[i] := ByteAt(v, i);
    }
    assert buf[..] == LittleEndian64(v);
    h.Write(buf[..]);
  }

  /** writeString (hasher.go:95-99). */
  method WriteString(h: HashState, tag: byte, s: GoBytes)
    modifies h
    ensures h.written == old(h.written) + PayloadBytes(tag, s)
  {
    h.Write([tag]);
    WriteUint64(h, 0, |s|);
    assert Uint64Bytes(0, |s|) == LittleEndian64(|s|);
    h.Write(s);
  }

  /** writeBytes (hasher.go:101-105): the same layout as writeString. */
  method WriteBytes(h: HashState, tag: byte, b: GoBytes)
    modifies h
    ensures h.written == old(h.written) + PayloadBytes(tag, b)
  {
    h.Write([tag]);
    WriteUint64(h, 0, |b|);
    assert Uint64Bytes(0, |b|) == LittleEndian64(|b|);
    h.Write(b);
  }

  /** writeHash (hasher.go:43-92): a Hashable value writes itself; everything else goes through the type switch. */
  method WriteHash(h: HashState, v: Value)
    modifies h
    ensures h.written == old(h.written) + Encode(v)
  {
    ghost var start := h.written;
    match v {
      case HashableV(w) =>
        h.Write([TagHashable]);
        h.Write(w);
        assert h.written == start + ([TagHashable] + w);
      case StringV(s) => WriteString(h, TagString, s);
      case BytesV(b) => WriteBytes(h, TagBytes, b);
      case BoolV(b) =>
        h.Write([TagBool]);
        if b {
          h.Write([1]);
        } else {
          h.Write([0]);
        }
        assert h.written == start + ([TagBool] + (if b then [1] else [0]));
      case StringerV(s) => WriteString(h, TagStringer, s);
      case FallbackV(s) => WriteString(h, TagFallback, s);
      case _ => WriteNumber(h, v);
    }
  }

  /** The numeric arms of writeHash's type switch (hasher.go:62-87). */
  method WriteNumber(h: HashState, v: Value)
    requires !v.HashableV? && !v.StringV? && !v.BytesV? && !v.BoolV? && !v.StringerV? && !v.FallbackV?
    modifies h
    ensures h.written == old(h.written) + Encode(v)
  {
    match v {
      case IntV(x) => WriteUint64(h, TagInt64, Int64Bits(x));
      case Int8V(x) => WriteUint64(h, TagInt64, Int64Bits(x));
      case Int16V(x) => WriteUint64(h, TagInt64, Int64Bits(x));
      case Int32V(x) => WriteUint64(h, TagInt64, Int64Bits(x));
      case Int64V(x) => WriteUint64(h, TagInt64, Int64Bits(x));
      case UintV(x) => WriteUint64(h, TagUint64, x);
      case Uint8V(x) => WriteUint64(h, TagUint64, x);
      case Uint16V(x) => WriteUint64(h, TagUint64, x);
      case Uint32V(x) => WriteUint64(h, TagUint64, x);
      case Uint64V(x) => WriteUint64(h, TagUint64, x);
      case UintptrV(x) => WriteUint64(h, TagUint64, x);
      case Float32V(x) => WriteUint64(h, TagFloat64, x);
      case Float64V(x) => WriteUint64(h, TagFloat64, x);
    }
  }

  /** DefaultNodeHasher.Hash (hasher.go:23-29): hash the item, then the node ID, and read 8 digest bytes. */
  method Hash(sha: seq<byte> -> Digest, nodeID: GoBytes, item: Value) returns (r: u64)
    ensures r == DefaultHash(sha, nodeID, item)
    ensures r == FromBigEndian(sha(Encode(item) + Encode(StringV(nodeID)))[..8])
  {
    var h := new HashState();
    WriteHash(h, item);
    WriteHash(h, StringV(nodeID));
    assert h.written == Stream(nodeID, item);
    var sum := h.Sum(sha);
    r := Uint64OfDigest(sum);
  }
}
