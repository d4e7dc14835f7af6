/**
 * The wire format the handshake travels in: Minecraft VarInts (7 data bits
 * per byte, least-significant group first, high bit set on every byte but the
 * last, at most five bytes, negative values in 32-bit two's complement),
 * VarInt-length-prefixed byte strings, big-endian `u16`s and VarInt-length-
 * prefixed frames. Every decoder takes the bytes still unread and returns the
 * value together with the bytes after it.
 */
module Codec {
  import opened Ints
  import opened Wrappers

  /** Why a decoder refused its input. */
  datatype DecodeError =
    | EndOfInput                                 // the bytes ran out inside a value
    | VarIntTooLong                              // a fifth byte still has its continuation bit
    | VarIntTooLarge                             // five bytes carrying more than 32 bits
    | NegativeLength(declared: int)              // a length prefix below zero
    | StringTooLong(length: nat, limit: nat)     // a declared string length above its limit
    | UnknownTag(tag: int)                       // an enum key no variant declares

  /** A decoded value and the bytes that follow it. */
  type Decoded<T> = Result<(T, seq<byte>), DecodeError>

  const VARINT_MAX_BYTES: nat := 5
  const U32_LIMIT: nat := 0x1_0000_0000

  /** `rest` is what is left of `s` after some bytes were taken from its front. */
  predicate IsSuffix(rest: seq<byte>, s: seq<byte>)
  {
    |rest| <= |s| && rest == s[|s| - |rest|..]
  }

  /** `128^k`: the first value that needs more than `k` VarInt bytes. */
  function Pow128(k: nat): (p: nat)
    ensures p >= 1
  {
    if k == 0 then 1 else 0x80 * Pow128(k - 1)
  }

  // ---------------------------------------------------------------------------
  // Two's complement between i32 and its 32-bit pattern

  /** The 32-bit pattern of an `i32`, read as an unsigned number. */
  function ToUnsigned(x: i32): (u: nat)
    ensures u < U32_LIMIT
    ensures x >= 0 ==> u == x
    ensures x < 0 ==> u > I32_MAX
  {
    if x < 0 then x + U32_LIMIT else x
  }

  /** The `i32` whose pattern is `u`: patterns from `2^31` on are negative. */
  function ToSigned(u: nat): (x: i32)
    requires u < U32_LIMIT
    ensures u <= I32_MAX ==> x == u
    ensures u > I32_MAX ==> x < 0
  {
    if u <= I32_MAX then u else u - U32_LIMIT
  }

  /** The two conversions are inverse bijections. */
  lemma SignedUnsignedInverse(x: i32, u: nat)
    requires u < U32_LIMIT
    ensures ToSigned(ToUnsigned(x)) == x
    ensures ToUnsigned(ToSigned(u)) == u
  {
  }

  // ---------------------------------------------------------------------------
  // Unsigned LEB128 groups

  /** The VarInt bytes of the pattern `u`: low seven bits first, continuation bit on all but the last. */
  function EncodeUnsigned(u: nat): (b: seq<byte>)
    ensures |b| >= 1
    ensures |b| == 1 <==> u < 0x80
    decreases u
  {
    if u < 0x80 then [u] else [u % 0x80 + 0x80] + EncodeUnsigned(u / 0x80)
  }

  /** Only the last byte of an encoding lacks the continuation bit. */
  lemma {:induction false} EncodeUnsignedShape(u: nat)
    ensures var b := EncodeUnsigned(u);
            b[|b| - 1] < 0x80 && forall i :: 0 <= i < |b| - 1 ==> b[i] >= 0x80
    decreases u
  {
    if u >= 0x80 {
      EncodeUnsignedShape(u / 0x80);
    }
  }

  /** A value below `128^k` takes at most `k` bytes. */
  lemma {:induction false} EncodeUnsignedShort(u: nat, k: nat)
    requires k >= 1 && u < Pow128(k)
    ensures |EncodeUnsigned(u)| <= k
    decreases k
  {
    if u >= 0x80 {
      assert k >= 2;
      assert u / 0x80 < Pow128(k - 1);
      EncodeUnsignedShort(u / 0x80, k - 1);
    }
  }

  /** Every 32-bit pattern fits the five bytes a VarInt may take. */
  lemma EncodeUnsignedFits(u: nat)
    requires u < U32_LIMIT
    ensures |EncodeUnsigned(u)| <= VARINT_MAX_BYTES
  {
    assert Pow128(5) == 0x8_0000_0000 by {
      assert Pow128(1) == 0x80;
      assert Pow128(2) == 0x4000;
      assert Pow128(3) == 0x20_0000;
      assert Pow128(4) == 0x1000_0000;
    }
    EncodeUnsignedShort(u, 5);
  }

  /**
   * Reading VarInt groups, `read` of them already taken: a byte without the
   * continuation bit ends the value; a fifth byte with it is refused.
   */
  function DecodeUnsignedFrom(s: seq<byte>, read: nat): (r: Decoded<nat>)
    requires read < VARINT_MAX_BYTES
    ensures r.Ok? ==> |s| - VARINT_MAX_BYTES + read <= |r.value.1| < |s|
    decreases VARINT_MAX_BYTES - read
  {
    if s == [] then Err(EndOfInput)
    else if s[0] < 0x80 then Ok((s[0], s[1..]))
    else if read == VARINT_MAX_BYTES - 1 then Err(VarIntTooLong)
    else
      match DecodeUnsignedFrom(s[1..], read + 1)
      case Err(e) => Err(e)
      case Ok((v, rest)) => Ok((s[0] - 0x80 + 0x80 * v, rest))
  }

  /** A whole VarInt pattern: at most five bytes, and no more than 32 bits. */
  function DecodeUnsigned(s: seq<byte>): (r: Decoded<nat>)
    ensures r.Ok? ==> r.value.0 < U32_LIMIT && |s| - VARINT_MAX_BYTES <= |r.value.1| < |s|
  {
    match DecodeUnsignedFrom(s, 0)
    case Err(e) => Err(e)
    case Ok((v, rest)) => if v >= U32_LIMIT then Err(VarIntTooLarge) else Ok((v, rest))
  }

  /** A continuation byte in front of a group sequence the decoder accepts. */
  lemma DecodeContinuation(s: seq<byte>, read: nat, v: nat, rest: seq<byte>)
    requires s != [] && 0x80 <= s[0] && read < VARINT_MAX_BYTES - 1
    requires DecodeUnsignedFrom(s[1..], read + 1) == Ok((v, rest))
    ensures DecodeUnsignedFrom(s, read) == Ok((s[0] - 0x80 + 0x80 * v, rest))
  {
  }

  /** The first byte of a multi-byte encoding, and what the remaining bytes encode. */
  lemma EncodeUnsignedUnfold(u: nat) returns (low: nat, high: nat)
    requires u >= 0x80
    ensures low < 0x80 && high < u && u == low + 0x80 * high
    ensures EncodeUnsigned(u) == [low + 0x80] + EncodeUnsigned(high)
  {
    low, high := u % 0x80, u / 0x80;
  }

  lemma {:induction false} DecodeEncodeUnsignedFrom(u: nat, rest: seq<byte>, read: nat)
    requires read + |EncodeUnsigned(u)| <= VARINT_MAX_BYTES
    ensures DecodeUnsignedFrom(EncodeUnsigned(u) + rest, read) == Ok((u, rest))
    decreases u
  {
    if u < 0x80 {
      assert (EncodeUnsigned(u) + rest)[1..] == rest;
    } else {
      var low, high := EncodeUnsignedUnfold(u);
      var s := EncodeUnsigned(u) + rest;
      assert s[0] == low + 0x80;
      assert s[1..] == EncodeUnsigned(high) + rest;
      DecodeEncodeUnsignedFrom(high, rest, read + 1);
      DecodeContinuation(s, read, high, rest);
    }
  }

  /** Decoding the bytes of a 32-bit pattern gives the pattern back and leaves what followed untouched. */
  lemma DecodeEncodeUnsigned(u: nat, rest: seq<byte>)
    requires u < U32_LIMIT
    ensures DecodeUnsigned(EncodeUnsigned(u) + rest) == Ok((u, rest))
  {
    EncodeUnsignedFits(u);
    DecodeEncodeUnsignedFrom(u, rest, 0);
  }

  /** Bytes that all carry the continuation bit, ending before the fifth: the stream ended inside the VarInt. */
  lemma {:induction false} TruncatedVarIntFrom(s: seq<byte>, read: nat)
    requires read + |s| < VARINT_MAX_BYTES
    requires forall i :: 0 <= i < |s| ==> s[i] >= 0x80
    ensures DecodeUnsignedFrom(s, read) == Err(EndOfInput)
    decreases |s|
  {
    if s != [] {
      TruncatedVarIntFrom(s[1..], read + 1);
    }
  }

  /** Any proper prefix of an encoding is refused as cut short, never read as a smaller value. */
  lemma TruncatedVarInt(u: nat, k: nat)
    requires u < U32_LIMIT && k < |EncodeUnsigned(u)|
    ensures DecodeUnsigned(EncodeUnsigned(u)[..k]) == Err(EndOfInput)
  {
    EncodeUnsignedFits(u);
    EncodeUnsignedShape(u);
    TruncatedVarIntFrom(EncodeUnsigned(u)[..k], 0);
  }

  lemma {:induction false} OverlongVarIntFrom(s: seq<byte>, read: nat)
    requires read < VARINT_MAX_BYTES && |s| >= VARINT_MAX_BYTES - read
    requires forall i :: 0 <= i < VARINT_MAX_BYTES - read ==> s[i] >= 0x80
    ensures DecodeUnsignedFrom(s, read) == Err(VarIntTooLong)
    decreases VARINT_MAX_BYTES - read
  {
    if read < VARINT_MAX_BYTES - 1 {
      OverlongVarIntFrom(s[1..], read + 1);
    }
  }

  /** Five bytes in a row with the continuation bit are refused, whatever follows. */
  lemma OverlongVarInt(s: seq<byte>)
    requires |s| >= VARINT_MAX_BYTES
    requires forall i :: 0 <= i < VARINT_MAX_BYTES ==> s[i] >= 0x80
    ensures DecodeUnsigned(s) == Err(VarIntTooLong)
  {
    OverlongVarIntFrom(s, 0);
  }

  /** The decoder only takes bytes from the front: what it leaves is the tail of its input. */
  lemma {:induction false} DecodeUnsignedFromLeavesTail(s: seq<byte>, read: nat)
    requires read < VARINT_MAX_BYTES
    ensures var r := DecodeUnsignedFrom(s, read);
            r.Ok? ==> IsSuffix(r.value.1, s)
    decreases VARINT_MAX_BYTES - read
  {
    if s != [] && s[0] >= 0x80 && read < VARINT_MAX_BYTES - 1 {
      DecodeUnsignedFromLeavesTail(s[1..], read + 1);
      var r := DecodeUnsignedFrom(s[1..], read + 1);
      if r.Ok? {
        var rest := r.value.1;
        assert s[|s| - |rest|..] == s[1..][|s| - 1 - |rest|..];
      }
    }
  }

  // ---------------------------------------------------------------------------
  // VarInt

  /** `VarInt` on the wire: the groups of the value's two's-complement pattern. */
  function EncodeVarInt(x: i32): (b: seq<byte>)
    ensures 1 <= |b| <= VARINT_MAX_BYTES
    ensures 0 <= x < 0x80 ==> b == [x]
  {
    EncodeUnsignedFits(ToUnsigned(x));
    EncodeUnsigned(ToUnsigned(x))
  }

  function DecodeVarInt(s: seq<byte>): (r: Decoded<i32>)
    ensures r.Ok? ==> |s| - VARINT_MAX_BYTES <= |r.value.1| < |s|
  {
    match DecodeUnsigned(s)
    case Err(e) => Err(e)
    case Ok((u, rest)) => Ok((ToSigned(u), rest))
  }

  /** Every `i32` survives the trip through its VarInt bytes, and nothing after them is consumed. */
  lemma DecodeEncodeVarInt(x: i32, rest: seq<byte>)
    ensures DecodeVarInt(EncodeVarInt(x) + rest) == Ok((x, rest))
  {
    DecodeEncodeUnsigned(ToUnsigned(x), rest);
    SignedUnsignedInverse(x, 0);
  }

  // ---------------------------------------------------------------------------
  // Length-prefixed byte strings and frames

  /** A VarInt or length read leaves the tail of its input. */
  lemma DecodeVarIntLeavesTail(s: seq<byte>)
    ensures DecodeVarInt(s).Ok? ==> IsSuffix(DecodeVarInt(s).value.1, s)
    ensures DecodeLength(s).Ok? ==> IsSuffix(DecodeLength(s).value.1, s)
  {
    DecodeUnsignedFromLeavesTail(s, 0);
  }

  /** A length prefix: a VarInt that must not be negative. */
  function DecodeLength(s: seq<byte>): (r: Decoded<nat>)
    ensures r.Ok? ==> r.value.0 <= I32_MAX && |s| - VARINT_MAX_BYTES <= |r.value.1| < |s|
    ensures r.Ok? ==> DecodeVarInt(s) == Ok((r.value.0 as i32, r.value.1))
    ensures r.Err? && r.error.NegativeLength? ==>
              r.error.declared < 0 && DecodeVarInt(s).Ok? && DecodeVarInt(s).value.0 == r.error.declared
  {
    match DecodeVarInt(s)
    case Err(e) => Err(e)
    case Ok((n, rest)) => if n < 0 then Err(NegativeLength(n)) else Ok((n, rest))
  }

  /**
   * A length prefix written as a VarInt reads back as that length; a negative
   * one is refused with the value it declared, and nothing is consumed past it.
   */
  lemma DecodeEncodeLength(x: i32, rest: seq<byte>)
    ensures DecodeLength(EncodeVarInt(x) + rest) ==
              if x < 0 then Err(NegativeLength(x)) else Ok((x as nat, rest))
  {
    DecodeEncodeVarInt(x, rest);
  }

  /**
   * A string field: its byte length as a VarInt, then the bytes. The limit is
   * a decoding bound only; the encoder writes whatever it is given.
   */
  function EncodeString(str: seq<byte>): (b: seq<byte>)
    requires |str| <= I32_MAX
    ensures |str| < |b| <= VARINT_MAX_BYTES + |str|
    ensures b[|b| - |str|..] == str
  {
    EncodeVarInt(|str|) + str
  }

  /**
   * Reading a string declared with `limit`: a declared length above the limit
   * is refused before any of the string is read, never truncated.
   */
  function DecodeString(s: seq<byte>, limit: nat): (r: Decoded<seq<byte>>)
    ensures r.Ok? ==> |r.value.0| <= limit && |r.value.0| + |r.value.1| < |s|
  {
    match DecodeLength(s)
    case Err(e) => Err(e)
    case Ok((n, rest)) =>
      if n > limit then Err(StringTooLong(n, limit))
      else if |rest| < n then Err(EndOfInput)
      else Ok((rest[..n], rest[n..]))
  }

  /** A string within its limit comes back as written, followed by the untouched rest. */
  lemma DecodeEncodeString(str: seq<byte>, limit: nat, rest: seq<byte>)
    requires |str| <= limit && |str| <= I32_MAX
    ensures DecodeString(EncodeString(str) + rest, limit) == Ok((str, rest))
  {
    assert EncodeString(str) + rest == EncodeVarInt(|str|) + (str + rest);
    DecodeEncodeVarInt(|str|, str + rest);
    assert (str + rest)[..|str|] == str;
    assert (str + rest)[|str|..] == rest;
  }

  /** A string over its limit is refused with its declared length, whatever bytes follow. */
  lemma OverlongString(str: seq<byte>, limit: nat, rest: seq<byte>)
    requires limit < |str| <= I32_MAX
    ensures DecodeString(EncodeString(str) + rest, limit) == Err(StringTooLong(|str|, limit))
  {
    assert EncodeString(str) + rest == EncodeVarInt(|str|) + (str + rest);
    DecodeEncodeVarInt(|str|, str + rest);
  }

  /**
   * The frame the writer chain emits: the payload's length as a VarInt, then
   * the payload, which is the layout of a string field.
   */
  function EncodeFrame(payload: seq<byte>): (b: seq<byte>)
    requires |payload| <= I32_MAX
    ensures |payload| < |b| <= VARINT_MAX_BYTES + |payload|
    ensures b[|b| - |payload|..] == payload
  {
    EncodeString(payload)
  }

  /**
   * Reading one frame off a byte stream: the payload, and every byte after
   * the frame's end, none dropped.
   */
  function DecodeFrame(s: seq<byte>): (r: Decoded<seq<byte>>)
    ensures r.Ok? ==> |s| - VARINT_MAX_BYTES <= |r.value.0| + |r.value.1| < |s|
  {
    match DecodeLength(s)
    case Err(e) => Err(e)
    case Ok((n, rest)) =>
      if |rest| < n then Err(EndOfInput)
      else Ok((rest[..n], rest[n..]))
  }

  /**
   * A frame read takes a header of one to five bytes, then the payload; the
   * bytes after the frame are the rest of the input, in order.
   */
  lemma DecodeFrameSplit(s: seq<byte>)
    ensures var r := DecodeFrame(s);
            r.Ok? ==>
              var header := |s| - |r.value.0| - |r.value.1|;
              1 <= header <= VARINT_MAX_BYTES && s[header..] == r.value.0 + r.value.1 &&
              IsSuffix(r.value.1, s)
  {
    DecodeVarIntLeavesTail(s);
    if DecodeFrame(s).Ok? {
      var (n, rest) := DecodeLength(s).value;
      assert rest == rest[..n] + rest[n..];
      assert rest[n..] == s[|s| - |rest[n..]|..];
    }
  }

  /** A frame comes back whole, with the bytes after it left for the next reader. */
  lemma DecodeEncodeFrame(payload: seq<byte>, rest: seq<byte>)
    requires |payload| <= I32_MAX
    ensures DecodeFrame(EncodeFrame(payload) + rest) == Ok((payload, rest))
  {
    assert EncodeFrame(payload) + rest == EncodeVarInt(|payload|) + (payload + rest);
    DecodeEncodeVarInt(|payload|, payload + rest);
    assert (payload + rest)[..|payload|] == payload;
    assert (payload + rest)[|payload|..] == rest;
  }

  // ---------------------------------------------------------------------------
  // u16

  /** `u16` in network byte order. */
  function EncodeU16(x: u16): (b: seq<byte>)
    ensures |b| == 2
  {
    [x / 0x100, x % 0x100]
  }

  function DecodeU16(s: seq<byte>): (r: Decoded<u16>)
    ensures r.Err? <==> |s| < 2
    ensures r.Ok? ==> r.value.1 == s[2..]
  {
    if |s| < 2 then Err(EndOfInput) else Ok(((s[0] as int) * 0x100 + s[1], s[2..]))
  }

  lemma DecodeEncodeU16(x: u16, rest: seq<byte>)
    ensures DecodeU16(EncodeU16(x) + rest) == Ok((x, rest))
  {
    assert (EncodeU16(x) + rest)[2..] == rest;
  }
}
