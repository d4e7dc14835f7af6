/**
 * The handshake interceptor of src/proxy.rs: the `Handshake` packet and its
 * VarInt-keyed enums, the chain that reads one frame and decodes it, the chain
 * that writes one, and `MinecraftReverseProxy`, which keeps the bytes read past
 * the handshake frame as `overflow` and forwards them right after the rewritten
 * handshake. The sockets are byte sequences: `inbound` is what the client has
 * sent and nobody has read yet, `outbound` what has been written to the backend.
 */
module Proxy {
  import opened Ints
  import opened Wrappers
  import opened Codec

  /** `NextState`, keyed on the wire by a VarInt: 0, 1, 2 in declaration order. */
  datatype NextState = Handshaking | Status | Login

  /** `#[drax(limit = 255)]` on `server_address`. */
  const ADDRESS_LIMIT: nat := 255

  /** The most bytes the fields other than the address, and the packet key, take on the wire. */
  const FIXED_FIELDS_MAX: nat := 14

  /** `Handshake`; the address is kept as the bytes of its UTF-8 text. */
  datatype Handshake = Handshake(protocolVersion: i32, serverAddress: seq<byte>, serverPort: u16, nextState: NextState)

  /** `HandshakeWrapper`: a one-variant enum, keyed by a VarInt, whose variant 0 carries a `Handshake`. */
  datatype HandshakeWrapper = HandshakePacket(handshake: Handshake)

  // ---------------------------------------------------------------------------
  // NextState

  function NextStateKey(ns: NextState): (key: i32)
    ensures 0 <= key <= 2
  {
    match ns
    case Handshaking => 0
    case Status => 1
    case Login => 2
  }

  /** The variant a key names, if any. */
  function NextStateOfKey(key: i32): (r: Option<NextState>)
    ensures r.Some? <==> 0 <= key <= 2
    ensures r.Some? ==> NextStateKey(r.value) == key
  {
    if key == 0 then Some(Handshaking)
    else if key == 1 then Some(Status)
    else if key == 2 then Some(Login)
    else None
  }

  /** Every variant's key names that variant: the keys are distinct. */
  lemma NextStateKeyInverse(ns: NextState)
    ensures NextStateOfKey(NextStateKey(ns)) == Some(ns)
  {
  }

  function EncodeNextState(ns: NextState): (b: seq<byte>)
    ensures |b| == 1
  {
    EncodeVarInt(NextStateKey(ns))
  }

  /** Read a VarInt key; a key no variant declares is refused. */
  function DecodeNextState(s: seq<byte>): (r: Decoded<NextState>)
    ensures r.Ok? ==> |r.value.1| < |s|
  {
    match DecodeVarInt(s)
    case Err(e) => Err(e)
    case Ok((key, rest)) =>
      match NextStateOfKey(key)
      case None => Err(UnknownTag(key))
      case Some(ns) => Ok((ns, rest))
  }

  lemma DecodeEncodeNextState(ns: NextState, rest: seq<byte>)
    ensures DecodeNextState(EncodeNextState(ns) + rest) == Ok((ns, rest))
  {
    DecodeEncodeVarInt(NextStateKey(ns), rest);
  }

  /** Any key other than 0, 1 and 2 is a decoding error naming that key. */
  lemma UnknownNextState(key: i32, rest: seq<byte>)
    requires key < 0 || key > 2
    ensures DecodeNextState(EncodeVarInt(key) + rest) == Err(UnknownTag(key))
  {
    DecodeEncodeVarInt(key, rest);
  }

  // ---------------------------------------------------------------------------
  // Handshake and its wrapper

  /** The address is short enough for every length on the wire to fit its VarInt. */
  predicate Writable(h: Handshake)
  {
    |h.serverAddress| <= I32_MAX - FIXED_FIELDS_MAX
  }

  /** The fields in declaration order. */
  function EncodeHandshake(h: Handshake): (b: seq<byte>)
    requires Writable(h)
    ensures |b| <= |h.serverAddress| + FIXED_FIELDS_MAX - 1
  {
    EncodeVarInt(h.protocolVersion) + EncodeString(h.serverAddress) +
    EncodeU16(h.serverPort) + EncodeNextState(h.nextState)
  }

  /** The fields in declaration order; an address declared longer than its limit is refused. */
  function DecodeHandshake(s: seq<byte>): (r: Decoded<Handshake>)
    ensures r.Ok? ==> |r.value.0.serverAddress| <= ADDRESS_LIMIT && |r.value.1| < |s|
  {
    match DecodeVarInt(s)
    case Err(e) => Err(e)
    case Ok((protocolVersion, s1)) =>
      match DecodeString(s1, ADDRESS_LIMIT)
      case Err(e) => Err(e)
      case Ok((serverAddress, s2)) =>
        match DecodeU16(s2)
        case Err(e) => Err(e)
        case Ok((serverPort, s3)) =>
          match DecodeNextState(s3)
          case Err(e) => Err(e)
          case Ok((nextState, s4)) => Ok((Handshake(protocolVersion, serverAddress, serverPort, nextState), s4))
  }

  /** A handshake whose address is within the limit comes back field by field. */
  lemma DecodeEncodeHandshake(h: Handshake, rest: seq<byte>)
    requires Writable(h) && |h.serverAddress| <= ADDRESS_LIMIT
    ensures DecodeHandshake(EncodeHandshake(h) + rest) == Ok((h, rest))
  {
    var pv, addr, port, ns := EncodeVarInt(h.protocolVersion), EncodeString(h.serverAddress),
                              EncodeU16(h.serverPort), EncodeNextState(h.nextState);
    var s3 := ns + rest;
    var s2 := port + s3;
    var s1 := addr + s2;
    assert EncodeHandshake(h) + rest == pv + s1;
    DecodeEncodeVarInt(h.protocolVersion, s1);
    DecodeEncodeString(h.serverAddress, ADDRESS_LIMIT, s2);
    DecodeEncodeU16(h.serverPort, s3);
    DecodeEncodeNextState(h.nextState, rest);
  }

  /** An address over the limit makes the whole handshake fail with the declared length; it is never cut short. */
  lemma OverlongAddress(h: Handshake, rest: seq<byte>)
    requires Writable(h) && |h.serverAddress| > ADDRESS_LIMIT
    ensures DecodeHandshake(EncodeHandshake(h) + rest) == Err(StringTooLong(|h.serverAddress|, ADDRESS_LIMIT))
  {
    var s1 := EncodeString(h.serverAddress) + (EncodeU16(h.serverPort) + EncodeNextState(h.nextState) + rest);
    assert EncodeHandshake(h) + rest == EncodeVarInt(h.protocolVersion) + s1;
    DecodeEncodeVarInt(h.protocolVersion, s1);
    OverlongString(h.serverAddress, ADDRESS_LIMIT, EncodeU16(h.serverPort) + EncodeNextState(h.nextState) + rest);
  }

  /** The packet payload: the wrapper's key 0, then the handshake. */
  function EncodePacket(h: Handshake): (b: seq<byte>)
    requires Writable(h)
    ensures |b| <= |h.serverAddress| + FIXED_FIELDS_MAX
  {
    EncodeVarInt(0) + EncodeHandshake(h)
  }

  /** `HandshakeWrapper::read_from_transport`: only key 0 is a variant. */
  function DecodePacket(s: seq<byte>): (r: Decoded<HandshakeWrapper>)
    ensures r.Ok? ==> |r.value.0.handshake.serverAddress| <= ADDRESS_LIMIT
  {
    match DecodeVarInt(s)
    case Err(e) => Err(e)
    case Ok((key, rest)) =>
      if key != 0 then Err(UnknownTag(key))
      else
        match DecodeHandshake(rest)
        case Err(e) => Err(e)
        case Ok((h, after)) => Ok((HandshakePacket(h), after))
  }

  lemma DecodeEncodePacket(h: Handshake, rest: seq<byte>)
    requires Writable(h) && |h.serverAddress| <= ADDRESS_LIMIT
    ensures DecodePacket(EncodePacket(h) + rest) == Ok((HandshakePacket(h), rest))
  {
    assert EncodePacket(h) + rest == EncodeVarInt(0) + (EncodeHandshake(h) + rest);
    DecodeEncodeVarInt(0, EncodeHandshake(h) + rest);
    DecodeEncodeHandshake(h, rest);
  }

  /** A payload keyed other than 0 is refused with that key, whatever follows it. */
  lemma UnknownPacket(key: i32, rest: seq<byte>)
    requires key != 0
    ensures DecodePacket(EncodeVarInt(key) + rest) == Err(UnknownTag(key))
  {
    DecodeEncodeVarInt(key, rest);
  }

  /**
   * `MCHandshakeProcessor::process`: decode the wrapper from the frame's
   * payload and hand back its only variant's handshake; bytes after it are ignored.
   */
  function Process(payload: seq<byte>): (r: Result<Handshake, DecodeError>)
    ensures r.Ok? ==> |r.value.serverAddress| <= ADDRESS_LIMIT
  {
    match DecodePacket(payload)
    case Err(e) => Err(e)
    case Ok((HandshakePacket(h), _)) => Ok(h)
  }

  /** What `process` makes of an encoded handshake, with or without bytes after it. */
  lemma ProcessEncoded(h: Handshake, trailing: seq<byte>)
    requires Writable(h)
    ensures |h.serverAddress| <= ADDRESS_LIMIT ==> Process(EncodePacket(h) + trailing) == Ok(h)
    ensures |h.serverAddress| > ADDRESS_LIMIT ==>
              Process(EncodePacket(h) + trailing) == Err(StringTooLong(|h.serverAddress|, ADDRESS_LIMIT))
  {
    if |h.serverAddress| <= ADDRESS_LIMIT {
      DecodeEncodePacket(h, trailing);
    } else {
      assert EncodePacket(h) + trailing == EncodeVarInt(0) + (EncodeHandshake(h) + trailing);
      DecodeEncodeVarInt(0, EncodeHandshake(h) + trailing);
      OverlongAddress(h, trailing);
    }
  }

  // ---------------------------------------------------------------------------
  // The two chains

  /**
   * The reading pipeline with `MCHandshakeProcessor`: one frame off the
   * stream, its payload processed; the bytes after the frame are returned untouched.
   */
  function ReadPacket(stream: seq<byte>): (r: Result<(Handshake, seq<byte>), DecodeError>)
    ensures r.Ok? ==> |r.value.0.serverAddress| <= ADDRESS_LIMIT && |r.value.1| < |stream|
  {
    match DecodeFrame(stream)
    case Err(e) => Err(e)
    case Ok((payload, after)) =>
      match Process(payload)
      case Err(e) => Err(e)
      case Ok(h) => Ok((h, after))
  }

  /** The bytes after the frame are the stream's own tail: nothing dropped, nothing reordered. */
  lemma ReadPacketLeavesTail(stream: seq<byte>)
    ensures ReadPacket(stream).Ok? ==> IsSuffix(ReadPacket(stream).value.1, stream)
  {
    DecodeFrameSplit(stream);
  }

  /** `link!(GenericWriter, FrameEncoder::new(-1), FrameSizeAppender)`: the packet, uncompressed, behind its length. */
  function WritePacket(h: Handshake): (b: seq<byte>)
    requires Writable(h)
    ensures |b| > |EncodePacket(h)|
  {
    EncodeFrame(EncodePacket(h))
  }

  /** What one proxy writes, the next one reads: the handshake, and every byte after its frame. */
  lemma ReadWritten(h: Handshake, after: seq<byte>)
    requires Writable(h) && |h.serverAddress| <= ADDRESS_LIMIT
    ensures ReadPacket(WritePacket(h) + after) == Ok((h, after))
  {
    DecodeEncodeFrame(EncodePacket(h), after);
    ProcessEncoded(h, []);
    assert EncodePacket(h) + [] == EncodePacket(h);
  }

  // ---------------------------------------------------------------------------
  // The rewrite

  /** The handshake `proxy_connection` forwards: the client's, with the backend's address in place of its own. */
  function Forwarded(h: Handshake, targetAddress: seq<byte>): (f: Handshake)
    ensures f.serverAddress == targetAddress
    ensures f.(serverAddress := h.serverAddress) == h
  {
    Handshake(h.protocolVersion, targetAddress, h.serverPort, h.nextState)
  }

  /**
   * The backend reads back exactly the client's protocol version, port and next
   * state, with the target address, whatever address the client sent.
   */
  lemma ForwardedReadsBack(h: Handshake, targetAddress: seq<byte>, after: seq<byte>)
    requires |targetAddress| <= ADDRESS_LIMIT
    ensures var f := Forwarded(h, targetAddress);
            Writable(f) && ReadPacket(WritePacket(f) + after) ==
              Ok((Handshake(h.protocolVersion, targetAddress, h.serverPort, h.nextState), after))
  {
    ReadWritten(Forwarded(h, targetAddress), after);
  }

  // ---------------------------------------------------------------------------
  // The interceptor

  lemma SplitAt(s: seq<byte>, k: nat)
    requires k <= |s|
    ensures s[..k] + s[k..] == s
  {
  }

  /** `MinecraftReverseProxy`, with its sockets as byte sequences. */
  class MinecraftReverseProxy {
    /** What the client has sent and nobody has read yet. */
    var inbound: seq<byte>
    /** What has been written to the backend. */
    var outbound: seq<byte>
    /** What the handshake read buffered past the frame, until it is forwarded. */
    var overflow: Option<seq<byte>>

    constructor (inbound: seq<byte>)
      ensures this.inbound == inbound && outbound == [] && overflow == None
    {
      this.inbound := inbound;
      outbound := [];
      overflow := None;
    }

    /**
     * `read_handshake`: read one frame and decode it. The read buffered
     * `readAhead` bytes past the frame, or as many as there were; they become
     * `overflow`. On an error nothing is stored.
     */
    method ReadHandshake(readAhead: nat) returns (r: Result<Handshake, DecodeError>)
      modifies this
      ensures outbound == old(outbound)
      ensures r.Ok? <==> ReadPacket(old(inbound)).Ok?
      ensures r.Err? ==> r.error == ReadPacket(old(inbound)).error &&
                         inbound == old(inbound) && overflow == old(overflow)
      ensures r.Ok? ==>
                var (h, after) := ReadPacket(old(inbound)).value;
                var buffered := Min(readAhead, |after|);
                r.value == h &&
                overflow == Some(after[..buffered]) && inbound == after[buffered..] &&
                overflow.value + inbound == after
    {
      var packet := ReadPacket(inbound);
      match packet
      case Err(e) =>
        r := Err(e);
      case Ok((h, after)) =>
        var buffered := Min(readAhead, |after|);
        overflow := Some(after[..buffered]);
        inbound := after[buffered..];
        SplitAt(after, buffered);
        r := Ok(h);
    }

    /**
     * `write_handshake`: the handshake's frame, then the overflow if there is
     * one, nothing in between; `take()` leaves no overflow behind.
     */
    method WriteHandshake(h: Handshake)
      requires Writable(h)
      modifies this
      ensures inbound == old(inbound)
      ensures overflow == None
      ensures outbound == old(outbound) + WritePacket(h) +
                          (if old(overflow).Some? then old(overflow).value else [])
    {
      var encoded := WritePacket(h);
      outbound := outbound + encoded;
      var extra := overflow;
      overflow := None;
      if extra.Some? {
        outbound := outbound + extra.value;
      }
    }
  }

  lemma Concatenated(written: seq<byte>, frame: seq<byte>, extra: seq<byte>, unread: seq<byte>)
    requires written == [] + frame + extra
    ensures written == frame + extra
    ensures written + unread == frame + (extra + unread)
  {
  }

  /**
   * `proxy_connection`: read the client's handshake, note a login, forward the
   * handshake with `targetAddress` in place of the client's address, then the
   * overflow. On success what the backend has received, followed by what the
   * client has still to send, is the rewritten frame followed by every byte the
   * client sent after its own: nothing is dropped, repeated or reordered.
   */
  method ProxyConnection(inbound: seq<byte>, targetAddress: seq<byte>, readAhead: nat)
    returns (r: Result<(), DecodeError>, proxy: MinecraftReverseProxy, loginLogged: bool)
    requires |targetAddress| <= I32_MAX - FIXED_FIELDS_MAX
    ensures fresh(proxy)
    ensures r.Ok? <==> ReadPacket(inbound).Ok?
    ensures r.Err? ==> r.error == ReadPacket(inbound).error && proxy.outbound == [] && !loginLogged
    ensures r.Ok? ==>
              var (h, after) := ReadPacket(inbound).value;
              var buffered := Min(readAhead, |after|);
              proxy.outbound == WritePacket(Forwarded(h, targetAddress)) + after[..buffered] &&
              proxy.inbound == after[buffered..] &&
              proxy.outbound + proxy.inbound == WritePacket(Forwarded(h, targetAddress)) + after &&
              proxy.overflow == None &&
              (loginLogged <==> h.nextState == Login)
  {
    proxy := new MinecraftReverseProxy(inbound);
    loginLogged := false;
    var read := proxy.ReadHandshake(readAhead);
    match read
    case Err(e) =>
      r := Err(e);
    case Ok(handshake) =>
      if handshake.nextState == Login {
        loginLogged := true;
      }
      ghost var extra := proxy.overflow.value;
      var forwarded := Forwarded(handshake, targetAddress);
      proxy.WriteHandshake(forwarded);
      Concatenated(proxy.outbound, WritePacket(forwarded), extra, proxy.inbound);
      r := Ok(());
  }
}
