/**
 * PROXY protocol version 2 headers, section 2.2 of the HAProxy PROXY protocol specification:
 * the encoder, a whole-stream decoder, and the reader that consumes a stream in pieces.
 */
module ProxyProtocol {
  import opened Prelude

  const MAX_HEADER: nat := 16 * 1024
  const SIGNATURE: Bytes := [0x0d, 0x0a, 0x0d, 0x0a, 0x00, 0x0d, 0x0a, 0x51, 0x55, 0x49, 0x54, 0x0a]
  const COMMAND: byte := 0x21
  const TCP4: byte := 0x11
  const TCP6: byte := 0x21

  type u16 = x: int | 0 <= x < 65536

  /** A socket address; an IPv6 one also has flow information and a scope. */
  datatype Socket =
    | Inet4(octets: Bytes, port: u16)
    | Inet6(octets: Bytes, port: u16, flow: nat, scope: nat)

  predicate IsSocket(s: Socket) {
    if s.Inet4? then |s.octets| == 4 else |s.octets| == 16
  }

  datatype VisitorAddresses = VisitorAddresses(source: Socket, destination: Socket)

  /** What the encoder demands of its caller: two addresses of one family. */
  predicate Encodable(a: VisitorAddresses) {
    IsSocket(a.source) && IsSocket(a.destination) && (a.source.Inet4? <==> a.destination.Inet4?)
  }

  function BigEndian(x: u16): (b: Bytes)
    ensures |b| == 2
  {
    [x / 256, x % 256]
  }

  function FromBigEndian(hi: byte, lo: byte): u16 {
    hi * 256 + lo
  }

  function Family(a: VisitorAddresses): byte {
    if a.source.Inet4? then TCP4 else TCP6
  }

  function AddressLength(family: byte): nat {
    if family == TCP4 then 12 else 36
  }

  /** The address block: source, destination, source port, destination port. */
  function AddressBlock(a: VisitorAddresses): Bytes {
    a.source.octets + a.destination.octets + BigEndian(a.source.port) + BigEndian(a.destination.port)
  }

  /** A header whose payload carries `extra` bytes of type-length-value data after the addresses. */
  function HeaderWith(a: VisitorAddresses, extra: Bytes): Bytes
    requires Encodable(a) && AddressLength(Family(a)) + |extra| < 65536
  {
    SIGNATURE + [COMMAND, Family(a)] + BigEndian(AddressLength(Family(a)) + |extra|) + AddressBlock(a) + extra
  }

  function Header(a: VisitorAddresses): Bytes
    requires Encodable(a)
  {
    HeaderWith(a, [])
  }

  /** What the wire cannot carry: IPv6 flow information and scope. */
  function OnTheWire(s: Socket): Socket {
    if s.Inet4? then s else s.(flow := 0, scope := 0)
  }

  function Carried(a: VisitorAddresses): VisitorAddresses {
    VisitorAddresses(OnTheWire(a.source), OnTheWire(a.destination))
  }

  // ---------------------------------------------------------------------------------------------
  // Decoding a whole stream
  // ---------------------------------------------------------------------------------------------

  datatype ProxyError = UnexpectedEof | BadSignature | NotProxyCommand | TooLarge | UnsupportedFamily | Truncated

  /** A decoded prefix of a stream and what is left of it. */
  datatype Decoded = Decoded(result: Result<VisitorAddresses, ProxyError>, rest: Bytes)

  function PayloadLength(fixed: Bytes): nat
    requires |fixed| == 16
  {
    FromBigEndian(fixed[14], fixed[15])
  }

  /** Whether the fixed part announces a payload to read. */
  function CheckFixed(fixed: Bytes): Option<ProxyError>
    requires |fixed| == 16
  {
    if fixed[..12] != SIGNATURE then Some(BadSignature)
    else if fixed[12] != COMMAND then Some(NotProxyCommand)
    else if 16 + PayloadLength(fixed) > MAX_HEADER then Some(TooLarge)
    else if fixed[13] != TCP4 && fixed[13] != TCP6 then Some(UnsupportedFamily)
    else if PayloadLength(fixed) < AddressLength(fixed[13]) then Some(Truncated)
    else None
  }

  function ReadAddresses(family: byte, payload: Bytes): VisitorAddresses
    requires family == TCP4 || family == TCP6
    requires |payload| >= AddressLength(family)
  {
    if family == TCP4 then
      VisitorAddresses(
        Inet4(payload[0..4], FromBigEndian(payload[8], payload[9])),
        Inet4(payload[4..8], FromBigEndian(payload[10], payload[11])))
    else
      VisitorAddresses(
        Inet6(payload[0..16], FromBigEndian(payload[32], payload[33]), 0, 0),
        Inet6(payload[16..32], FromBigEndian(payload[34], payload[35]), 0, 0))
  }

  function Decode(stream: Bytes): Decoded {
    if |stream| < 16 then Decoded(Err(UnexpectedEof), [])
    else
      var fixed, after := stream[..16], stream[16..];
      match CheckFixed(fixed)
      case Some(error) => Decoded(Err(error), after)
      case None =>
        var n := PayloadLength(fixed);
        if |after| < n then Decoded(Err(UnexpectedEof), [])
        else Decoded(Ok(ReadAddresses(fixed[13], after[..n])), after[n..])
  }

  // ---------------------------------------------------------------------------------------------
  // The decoder inverts the encoder
  // ---------------------------------------------------------------------------------------------

  lemma BigEndianRoundTrip(x: u16)
    ensures FromBigEndian(BigEndian(x)[0], BigEndian(x)[1]) == x
  {
  }

  lemma BytesRoundTrip(hi: byte, lo: byte)
    ensures BigEndian(FromBigEndian(hi, lo)) == [hi, lo]
  {
    assert (hi * 256 + lo) / 256 == hi && (hi * 256 + lo) % 256 == lo;
  }

  /** The fixed part of an encoded header. */
  lemma EncodedFixed(a: VisitorAddresses, extra: Bytes, more: Bytes)
    requires Encodable(a) && AddressLength(Family(a)) + |extra| < 65536
    ensures
      var stream := HeaderWith(a, extra) + more;
      && |stream| >= 16
      && stream[..12] == SIGNATURE && stream[12] == COMMAND && stream[13] == Family(a)
      && FromBigEndian(stream[14], stream[15]) == AddressLength(Family(a)) + |extra|
      && stream[16..] == AddressBlock(a) + extra + more
  {
    var n := AddressLength(Family(a)) + |extra|;
    var stream := HeaderWith(a, extra) + more;
    BigEndianRoundTrip(n);
    assert stream == SIGNATURE + ([COMMAND, Family(a)] + BigEndian(n) + (AddressBlock(a) + extra + more));
    assert stream[..12] == SIGNATURE;
    var tail := stream[12..];
    assert tail == [COMMAND, Family(a)] + BigEndian(n) + (AddressBlock(a) + extra + more);
    assert stream[16..] == tail[4..];
  }

  /** Bytes `i` and `i + 1` are the 16-bit number `x`, high byte first. */
  predicate BigEndianAt(bytes: Bytes, i: nat, x: int) {
    i + 1 < |bytes| && bytes[i] as int * 256 + bytes[i + 1] as int == x
  }

  /**
   * The header byte for byte: the 12-byte signature, version 2 with the PROXY command, TCP over
   * IPv4 or IPv6, the length of what follows, then source, destination, source port, destination port.
   */
  lemma HeaderLayout(a: VisitorAddresses)
    requires Encodable(a)
    ensures
      var h, n := Header(a), if a.source.Inet4? then 4 else 16;
      && |h| == 16 + 2 * n + 4
      && h[..12] == [0x0d, 0x0a, 0x0d, 0x0a, 0x00, 0x0d, 0x0a, 0x51, 0x55, 0x49, 0x54, 0x0a]
      && h[12] == 0x21 && h[13] == (if a.source.Inet4? then 0x11 else 0x21)
      && BigEndianAt(h, 14, 2 * n + 4)
      && h[16..16 + n] == a.source.octets && h[16 + n..16 + 2 * n] == a.destination.octets
      && BigEndianAt(h, 16 + 2 * n, a.source.port) && BigEndianAt(h, 18 + 2 * n, a.destination.port)
  {
    EncodedFixed(a, [], []);
    var h, n := Header(a), if a.source.Inet4? then 4 else 16;
    assert h + [] == h;
    assert h[16..] == AddressBlock(a) + [] + [] == AddressBlock(a);
    BlockLayout(a, n);
    assert h[16..16 + n] == h[16..][..n] && h[16 + n..16 + 2 * n] == h[16..][n..2 * n];
    assert h[16 + 2 * n] == h[16..][2 * n] && h[17 + 2 * n] == h[16..][2 * n + 1];
    assert h[18 + 2 * n] == h[16..][2 * n + 2] && h[19 + 2 * n] == h[16..][2 * n + 3];
  }

  lemma BlockLayout(a: VisitorAddresses, n: nat)
    requires Encodable(a) && n == if a.source.Inet4? then 4 else 16
    ensures
      var b := AddressBlock(a);
      && |b| == 2 * n + 4 && b[..n] == a.source.octets && b[n..2 * n] == a.destination.octets
      && BigEndianAt(b, 2 * n, a.source.port) && BigEndianAt(b, 2 * n + 2, a.destination.port)
  {
    BigEndianRoundTrip(a.source.port);
    BigEndianRoundTrip(a.destination.port);
  }

  /**
   * How a stream is refused, the tests in this order: fewer than 16 bytes, another signature, another
   * version or command, more than 16 KiB in all, another family, too short for its addresses, and
   * too few bytes for the length it announces.
   */
  lemma RefusedExactly(stream: Bytes)
    ensures
      var n := if |stream| < 16 then 0 else stream[14] as int * 256 + stream[15] as int;
      match Decode(stream).result
      case Ok(_) =>
        && |stream| >= 16 + n && stream[..12] == SIGNATURE && stream[12] == 0x21 && 16 + n <= 16384
        && ((stream[13] == 0x11 && 12 <= n) || (stream[13] == 0x21 && 36 <= n))
      case Err(error) =>
        if |stream| < 16 then error == UnexpectedEof
        else if stream[..12] != SIGNATURE then error == BadSignature
        else if stream[12] != 0x21 then error == NotProxyCommand
        else if 16 + n > 16384 then error == TooLarge
        else if stream[13] != 0x11 && stream[13] != 0x21 then error == UnsupportedFamily
        else if n < (if stream[13] == 0x11 then 12 else 36) then error == Truncated
        else |stream| < 16 + n && error == UnexpectedEof
  {
  }

  /** Addresses read back from an address block. */
  lemma EncodedAddresses(a: VisitorAddresses, extra: Bytes)
    requires Encodable(a)
    ensures |AddressBlock(a)| == AddressLength(Family(a))
    ensures ReadAddresses(Family(a), AddressBlock(a) + extra) == Carried(a)
  {
    BigEndianRoundTrip(a.source.port);
    BigEndianRoundTrip(a.destination.port);
    var payload := AddressBlock(a) + extra;
    var n := |a.source.octets|;
    assert payload[0..n] == a.source.octets;
    assert payload[n..2 * n] == a.destination.octets;
    assert payload[2 * n..2 * n + 2] == BigEndian(a.source.port);
    assert payload[2 * n + 2..2 * n + 4] == BigEndian(a.destination.port);
    assert payload[2 * n] == payload[2 * n..2 * n + 2][0] && payload[2 * n + 1] == payload[2 * n..2 * n + 2][1];
    assert payload[2 * n + 2] == payload[2 * n + 2..2 * n + 4][0] && payload[2 * n + 3] == payload[2 * n + 2..2 * n + 4][1];
  }

  /**
   * Decoding an encoded header returns the addresses it can carry and leaves exactly what follows
   * it; legal extra payload is skipped.
   */
  lemma DecodeEncoded(a: VisitorAddresses, extra: Bytes, more: Bytes)
    requires Encodable(a) && 16 + AddressLength(Family(a)) + |extra| <= MAX_HEADER
    ensures Decode(HeaderWith(a, extra) + more) == Decoded(Ok(Carried(a)), more)
  {
    var stream := HeaderWith(a, extra) + more;
    EncodedFixed(a, extra, more);
    EncodedAddresses(a, extra);
    var fixed, after := stream[..16], stream[16..];
    assert fixed[..12] == stream[..12];
    var n := AddressLength(Family(a)) + |extra|;
    assert PayloadLength(fixed) == n;
    assert after[..n] == AddressBlock(a) + extra && after[n..] == more;
  }

  /** The addresses survive unchanged exactly when they have no IPv6 flow information and scope. */
  lemma RoundTripExactly(a: VisitorAddresses, more: Bytes)
    requires Encodable(a)
    ensures Decode(Header(a) + more).result == Ok(a)
       <==> (a.source.Inet6? ==> a.source.flow == 0 && a.source.scope == 0 && a.destination.flow == 0 && a.destination.scope == 0)
    ensures Decode(Header(a) + more).rest == more
  {
    DecodeEncoded(a, [], more);
  }

  /** `stream` is a legal header for `a` with `extra` payload, followed by `rest`. */
  ghost predicate IsEncoded(stream: Bytes, a: VisitorAddresses, extra: Bytes, rest: Bytes) {
    && Encodable(a)
    && 16 + AddressLength(Family(a)) + |extra| <= MAX_HEADER
    && stream == HeaderWith(a, extra) + rest
  }

  lemma FixedReadBack(fixed: Bytes)
    requires |fixed| == 16 && CheckFixed(fixed).None?
    ensures fixed == SIGNATURE + [COMMAND, fixed[13]] + BigEndian(PayloadLength(fixed))
  {
    BytesRoundTrip(fixed[14], fixed[15]);
    assert fixed == fixed[..12] + [fixed[12], fixed[13]] + [fixed[14], fixed[15]];
  }

  /**
   * Whatever the decoder accepts is an encoded header followed by the rest it reports, and the
   * addresses it returns can be encoded again.
   */
  lemma DecodedWasEncoded(stream: Bytes)
    requires Decode(stream).result.Ok?
    ensures Carried(Decode(stream).result.value) == Decode(stream).result.value
    ensures exists extra: Bytes :: IsEncoded(stream, Decode(stream).result.value, extra, Decode(stream).rest)
  {
    var fixed, after := stream[..16], stream[16..];
    var n := PayloadLength(fixed);
    var payload, rest := after[..n], after[n..];
    var a, extra := ReadAddresses(fixed[13], payload), payload[AddressLength(fixed[13])..];
    BlockReadBack(fixed[13], payload);
    FixedReadBack(fixed);
    Reassemble(fixed, a, extra);
    assert payload == AddressBlock(a) + extra;
    assert stream == (fixed + payload) + rest;
    assert IsEncoded(stream, a, extra, rest);
  }

  lemma Reassemble(fixed: Bytes, a: VisitorAddresses, extra: Bytes)
    requires Encodable(a) && AddressLength(Family(a)) + |extra| < 65536
    requires fixed == SIGNATURE + [COMMAND, Family(a)] + BigEndian(AddressLength(Family(a)) + |extra|)
    ensures HeaderWith(a, extra) == fixed + (AddressBlock(a) + extra)
  {
  }

  /** An address block is rebuilt from the addresses read from it. */
  lemma BlockReadBack(family: byte, payload: Bytes)
    requires family == TCP4 || family == TCP6
    requires |payload| >= AddressLength(family)
    ensures
      var a := ReadAddresses(family, payload);
      Encodable(a) && Family(a) == family && AddressBlock(a) == payload[..AddressLength(family)]
  {
    var a, n := ReadAddresses(family, payload), if family == TCP4 then 4 else 16;
    BytesRoundTrip(payload[2 * n], payload[2 * n + 1]);
    BytesRoundTrip(payload[2 * n + 2], payload[2 * n + 3]);
    assert AddressBlock(a) == payload[0..n] + payload[n..2 * n] + [payload[2 * n], payload[2 * n + 1]] + [payload[2 * n + 2], payload[2 * n + 3]];
  }

  // ---------------------------------------------------------------------------------------------
  // The encoder and the reader
  // ---------------------------------------------------------------------------------------------

  /** Build the header by appending to a buffer. */
  method EncodeProxyV2(a: VisitorAddresses) returns (output: Bytes)
    requires Encodable(a)
    ensures output == Header(a)
    ensures forall more: Bytes :: Decode(output + more) == Decoded(Ok(Carried(a)), more)
  {
    output := SIGNATURE;
    output := output + [0x21];
    if a.source.Inet4? {
      output := output + [0x11];
      output := output + BigEndian(12);
    } else {
      output := output + [0x21];
      output := output + BigEndian(36);
    }
    output := output + a.source.octets;
    output := output + a.destination.octets;
    output := output + BigEndian(a.source.port);
    output := output + BigEndian(a.destination.port);
    assert output == Header(a);
    forall more: Bytes ensures Decode(output + more) == Decoded(Ok(Carried(a)), more) {
      DecodeEncoded(a, [], more);
    }
  }

  /** A byte stream that hands out its bytes in pieces of arbitrary size. */
  class Reader {
    var rest: Bytes

    constructor (bytes: Bytes)
      ensures rest == bytes
    {
      rest := bytes;
    }

    /** One read: some bytes if any are left and wanted, none at the end. */
    method Read(capacity: nat) returns (got: Bytes)
      modifies this
      ensures got + rest == old(rest) && |got| <= capacity
      ensures got == [] <==> old(rest) == [] || capacity == 0
    {
      if rest == [] || capacity == 0 {
        return [];
      }
      var n: nat :| 1 <= n <= capacity && n <= |rest|;
      got := rest[..n];
      rest := rest[n..];
    }

    /** Read exactly `n` bytes; at an early end everything is consumed and nothing returned. */
    method ReadExact(n: nat) returns (buffer: Option<Bytes>)
      modifies this
      ensures buffer.Some? <==> n <= |old(rest)|
      ensures buffer.Some? ==> buffer.value == old(rest)[..n] && rest == old(rest)[n..]
      ensures buffer.None? ==> rest == []
    {
      var got: Bytes := [];
      while |got| < n
        invariant got + rest == old(rest) && |got| <= n
        decreases n - |got|
      {
        var piece := Read(n - |got|);
        if piece == [] {
          return None;
        }
        got := got + piece;
      }
      buffer := Some(got);
    }

    /** Read a header; however the stream is fragmented, it decodes like the whole stream. */
    method ReadProxyV2() returns (result: Result<VisitorAddresses, ProxyError>)
      modifies this
      ensures Decoded(result, rest) == Decode(old(rest))
    {
      var fixed := ReadExact(16);
      if fixed.None? {
        return Err(UnexpectedEof);
      }
      var error := CheckFixed(fixed.value);
      if error.Some? {
        return Err(error.value);
      }
      var payload := ReadExact(PayloadLength(fixed.value));
      if payload.None? {
        return Err(UnexpectedEof);
      }
      result := Ok(ReadAddresses(fixed.value[13], payload.value));
    }
  }
}
