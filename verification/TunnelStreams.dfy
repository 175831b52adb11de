/**
 * Tunnel streams: a PROXY header, then a buffered TLS ClientHello, then the rest of the Visitor's
 * bytes. The TLS acceptor is an oracle on the bytes buffered so far.
 */
module TunnelStreams {
  import opened Prelude
  import opened ProxyProtocol
  import Hostnames

  const HELLO_LIMIT: nat := 16 * 1024
  const READ_SIZE: nat := 4096

  /** What the acceptor says about the bytes it was given. */
  datatype Verdict = NeedMore | Accepted(serverName: Option<string>) | InvalidTls | AcceptorIo

  datatype HelloError = HelloIo | Invalid | InvalidSni | MissingSni | TooLong | HelloEof

  datatype ClientHello = ClientHello(buffered: Bytes, hostname: string)

  /** The acceptor and the IP-literal predicate that hostname validation depends on. */
  datatype Oracle = Oracle(accept: Bytes -> Verdict, isIp: string -> bool)

  /** What a ClientHello the acceptor accepted comes to. */
  function Named(o: Oracle, buffered: Bytes, serverName: Option<string>): (r: Result<ClientHello, HelloError>)
    ensures r.Ok? ==> r.value.buffered == buffered
    ensures r.Ok? ==> serverName.Some? && r.value.hostname == Hostnames.Normalize(serverName.value)
    ensures r == Err(MissingSni) <==> serverName.None?
    ensures r == Err(InvalidSni) <==> serverName.Some? && !Hostnames.Validate(o.isIp, serverName.value).Ok?
    ensures r.Err? ==> r.error in {MissingSni, InvalidSni}
  {
    if serverName.None? then Err(MissingSni)
    else
      match Hostnames.Validate(o.isIp, serverName.value)
      case Err(_) => Err(InvalidSni)
      case Ok(hostname) => Ok(ClientHello(buffered, hostname))
  }

  /**
   * The acceptor completes after `k` bytes of `stream`: it asks for more before that, and on any
   * longer prefix it accepts with the same server name.
   */
  ghost predicate CompletesAt(o: Oracle, stream: Bytes, k: nat, serverName: Option<string>) {
    && 0 < k <= |stream|
    && (forall n :: 0 < n < k ==> o.accept(stream[..n]) == NeedMore)
    && (forall n :: k <= n <= |stream| ==> o.accept(stream[..n]) == Accepted(serverName))
  }

  /** Even a read that overshoots the ClientHello as far as it can stays within the limit. */
  predicate NeverTooLong(stream: Bytes, k: nat) {
    |stream| <= 16384 || k - 1 + 4096 <= 16384
  }

  // ---------------------------------------------------------------------------------------------
  // Buffering, for a given fragmentation
  // ---------------------------------------------------------------------------------------------

  /** Sizes of successive non-empty reads that start after `n` bytes of `stream`. */
  predicate Fragments(stream: Bytes, n: nat, sizes: seq<nat>)
    decreases sizes
  {
    sizes == [] ||
    (1 <= sizes[0] <= READ_SIZE && n + sizes[0] <= |stream| && Fragments(stream, n + sizes[0], sizes[1..]))
  }

  /** What the buffering loop decides after these reads, if it has decided. */
  function Buffering(o: Oracle, stream: Bytes, n: nat, sizes: seq<nat>): Option<Result<ClientHello, HelloError>>
    requires Fragments(stream, n, sizes)
    decreases sizes
  {
    if sizes == [] then None
    else
      var m := n + sizes[0];
      var decision := Decided(o, stream[..m]);
      if decision.Some? then decision else Buffering(o, stream, m, sizes[1..])
  }

  /** What one turn of the loop makes of the bytes buffered so far. */
  function Decided(o: Oracle, buffered: Bytes): Option<Result<ClientHello, HelloError>> {
    if |buffered| > HELLO_LIMIT then Some(Err(TooLong))
    else
      match o.accept(buffered)
      case Accepted(serverName) => Some(Named(o, buffered, serverName))
      case InvalidTls => Some(Err(Invalid))
      case AcceptorIo => Some(Err(HelloIo))
      case NeedMore => None
  }

  /** Single-byte reads up to just before completion decide nothing. */
  lemma {:induction false} ByteReadsWait(o: Oracle, stream: Bytes, n: nat, k: nat, name: Option<string>, last: nat)
    requires CompletesAt(o, stream, k, name) && n < k && k - 1 <= HELLO_LIMIT
    requires 1 <= last <= READ_SIZE && k - 1 + last <= |stream|
    ensures
      var sizes := seq(k - 1 - n, _ => 1) + [last];
      Fragments(stream, n, sizes) && Buffering(o, stream, n, sizes) == Buffering(o, stream, k - 1, [last])
    decreases k - n
  {
    var sizes := seq(k - 1 - n, _ => 1) + [last];
    if n == k - 1 {
      assert sizes == [last];
    } else {
      ByteReadsWait(o, stream, n + 1, k, name, last);
      assert sizes[0] == 1 && sizes[1..] == seq(k - 1 - (n + 1), _ => 1) + [last];
    }
  }

  /** A ClientHello that already exceeds the limit fails on single-byte reads. */
  lemma {:induction false} ByteReadsOverflow(o: Oracle, stream: Bytes, n: nat, k: nat, name: Option<string>)
    requires CompletesAt(o, stream, k, name) && n <= HELLO_LIMIT < k - 1
    ensures
      var sizes := seq(HELLO_LIMIT + 1 - n, _ => 1);
      Fragments(stream, n, sizes) && Buffering(o, stream, n, sizes) == Some(Err(TooLong))
    decreases HELLO_LIMIT - n
  {
    var sizes := seq(HELLO_LIMIT + 1 - n, _ => 1);
    if n < HELLO_LIMIT {
      ByteReadsOverflow(o, stream, n + 1, k, name);
      assert sizes[1..] == seq(HELLO_LIMIT + 1 - (n + 1), _ => 1);
    } else {
      assert sizes == [1];
    }
  }

  lemma {:induction false} NeverOverflows(o: Oracle, stream: Bytes, n: nat, k: nat, name: Option<string>, sizes: seq<nat>)
    requires CompletesAt(o, stream, k, name) && NeverTooLong(stream, k) && n < k
    requires Fragments(stream, n, sizes)
    ensures Buffering(o, stream, n, sizes) != Some(Err(TooLong))
    decreases sizes
  {
    if sizes != [] {
      var m := n + sizes[0];
      if m < k {
        NeverOverflows(o, stream, m, k, name, sizes[1..]);
      }
    }
  }

  /** Some fragmentation exceeds the buffer limit. */
  ghost predicate CanOverflow(o: Oracle, stream: Bytes) {
    exists sizes :: Fragments(stream, 0, sizes) && Buffering(o, stream, 0, sizes) == Some(Err(TooLong))
  }

  /**
   * A ClientHello that completes after `k` bytes is found under every fragmentation exactly when
   * even the longest overshooting read stays within the buffer limit.
   */
  lemma OverflowsExactly(o: Oracle, stream: Bytes, k: nat, name: Option<string>)
    requires CompletesAt(o, stream, k, name)
    ensures CanOverflow(o, stream) <==> !NeverTooLong(stream, k)
  {
    if NeverTooLong(stream, k) {
      forall sizes | Fragments(stream, 0, sizes)
        ensures Buffering(o, stream, 0, sizes) != Some(Err(TooLong))
      {
        NeverOverflows(o, stream, 0, k, name, sizes);
      }
    } else if k - 1 > HELLO_LIMIT {
      ByteReadsOverflow(o, stream, 0, k, name);
    } else {
      var last := Min(READ_SIZE, |stream| - (k - 1));
      ByteReadsWait(o, stream, 0, k, name, last);
      assert Buffering(o, stream, k - 1, [last]) == Some(Err(TooLong));
    }
  }

  /** One more read at the end of a fragmentation that has not decided yet. */
  lemma {:induction false} BufferingSnoc(o: Oracle, stream: Bytes, n: nat, sizes: seq<nat>, size: nat)
    requires Fragments(stream, n, sizes) && Buffering(o, stream, n, sizes).None?
    requires 1 <= size <= READ_SIZE && n + Sum(sizes) + size <= |stream|
    ensures Fragments(stream, n, sizes + [size]) && Sum(sizes + [size]) == Sum(sizes) + size
    ensures Buffering(o, stream, n, sizes + [size]) == Decided(o, stream[..n + Sum(sizes) + size])
    decreases sizes
  {
    if sizes == [] {
      assert sizes + [size] == [size];
      assert Buffering(o, stream, n + size, []).None?;
    } else {
      assert (sizes + [size])[0] == sizes[0] && (sizes + [size])[1..] == sizes[1..] + [size];
      BufferingSnoc(o, stream, n + sizes[0], sizes[1..], size);
    }
  }

  function Sum(sizes: seq<nat>): nat {
    if sizes == [] then 0 else sizes[0] + Sum(sizes[1..])
  }

  /** A ClientHello that completes, and cannot overflow, is found in `buffered`. */
  ghost predicate FindsCompleted(o: Oracle, stream: Bytes, buffered: Bytes, result: Result<ClientHello, HelloError>) {
    forall k: nat, name :: CompletesAt(o, stream, k, name) && NeverTooLong(stream, k) ==>
      k <= |buffered| && result == Named(o, buffered, name)
  }

  /** The first `n` bytes of `stream` did not settle anything. */
  predicate Waiting(o: Oracle, stream: Bytes, n: nat) {
    n <= |stream| && n <= HELLO_LIMIT && (n == 0 || o.accept(stream[..n]) == NeedMore)
  }

  /** Why reading failed: too many bytes, or what the acceptor made of those buffered, or an end before it decided. */
  ghost predicate FailsBy(o: Oracle, buffered: Bytes, result: Result<ClientHello, HelloError>) {
    && (result == Err(TooLong) <==> |buffered| > 16384)
    && (result == Err(Invalid) <==> 0 < |buffered| <= 16384 && o.accept(buffered) == InvalidTls)
    && (result == Err(HelloIo) <==> 0 < |buffered| <= 16384 && o.accept(buffered) == AcceptorIo)
    && (result == Err(HelloEof) ==> buffered == [] || o.accept(buffered) == NeedMore)
  }

  lemma DecisionFails(o: Oracle, buffered: Bytes)
    requires buffered != [] && Decided(o, buffered).Some?
    ensures FailsBy(o, buffered, Decided(o, buffered).value)
  {
  }

  lemma EndFails(o: Oracle, buffered: Bytes)
    requires |buffered| <= HELLO_LIMIT && (buffered == [] || o.accept(buffered) == NeedMore)
    ensures FailsBy(o, buffered, Err(HelloEof))
  {
  }

  /** One more piece moves the boundary between what is buffered and what is left. */
  lemma Advance(stream: Bytes, buffered: Bytes, piece: Bytes, rest: Bytes)
    requires buffered + (piece + rest) == stream
    ensures (buffered + piece) + rest == stream
    ensures |buffered| + |piece| <= |stream| && buffered + piece == stream[..|buffered| + |piece|]
  {
    assert (buffered + piece) + rest == buffered + (piece + rest);
  }

  lemma DecisionFinds(o: Oracle, stream: Bytes, n: nat, m: nat)
    requires Waiting(o, stream, n) && n < m <= n + READ_SIZE && m <= |stream|
    requires Decided(o, stream[..m]).Some?
    ensures FindsCompleted(o, stream, stream[..m], Decided(o, stream[..m]).value)
  {
  }

  lemma EndFinds(o: Oracle, stream: Bytes)
    requires Waiting(o, stream, |stream|)
    ensures FindsCompleted(o, stream, stream, Err(HelloEof))
  {
    assert stream[..|stream|] == stream;
  }

  /**
   * Buffer reads until the acceptor decides. Whatever the fragmentation, the bytes buffered
   * followed by the bytes left are the bytes there were; `sizes` are the reads that happened, and
   * the result is the one they call for, or an early end.
   */
  method ReadClientHello(reader: Reader, o: Oracle)
    returns (result: Result<ClientHello, HelloError>, buffered: Bytes, ghost sizes: seq<nat>)
    modifies reader
    ensures buffered + reader.rest == old(reader.rest)
    ensures result.Ok? ==>
      && result.value.buffered == buffered && 0 < |buffered| <= HELLO_LIMIT
      && o.accept(buffered).Accepted? && result == Named(o, buffered, o.accept(buffered).serverName)
    ensures Fragments(old(reader.rest), 0, sizes) && Sum(sizes) == |buffered|
    ensures if result == Err(HelloEof) then reader.rest == [] && Buffering(o, old(reader.rest), 0, sizes).None?
            else Buffering(o, old(reader.rest), 0, sizes) == Some(result)
    ensures FindsCompleted(o, old(reader.rest), buffered, result)
    ensures FailsBy(o, buffered, result)
  {
    ghost var stream := reader.rest;
    buffered, sizes := [], [];
    assert Fragments(stream, 0, []) && Sum([]) == 0 && Buffering(o, stream, 0, []).None?;
    hide Fragments, Buffering, Sum, FindsCompleted, Named, FailsBy;
    while true
      invariant buffered + reader.rest == stream
      invariant Waiting(o, stream, |buffered|) && buffered == stream[..|buffered|]
      invariant Fragments(stream, 0, sizes) && Sum(sizes) == |buffered|
      invariant Buffering(o, stream, 0, sizes).None?
      decreases |reader.rest|
    {
      var piece := reader.Read(READ_SIZE);
      if piece == [] {
        assert buffered == stream;
        EndFinds(o, stream);
        EndFails(o, buffered);
        return Err(HelloEof), buffered, sizes;
      }
      BufferingSnoc(o, stream, 0, sizes, |piece|);
      ghost var before := |buffered|;
      Advance(stream, buffered, piece, reader.rest);
      buffered, sizes := buffered + piece, sizes + [|piece|];
      if Decided(o, buffered).Some? {
        DecisionFinds(o, stream, before, |buffered|);
        DecisionFails(o, buffered);
      }
      if |buffered| > HELLO_LIMIT {
        return Err(TooLong), buffered, sizes;
      }
      match o.accept(buffered) {
        case Accepted(serverName) =>
          return Named(o, buffered, serverName), buffered, sizes;
        case NeedMore =>
        case InvalidTls =>
          return Err(Invalid), buffered, sizes;
        case AcceptorIo =>
          return Err(HelloIo), buffered, sizes;
      }
    }
  }

  // ---------------------------------------------------------------------------------------------
  // Framing
  // ---------------------------------------------------------------------------------------------

  function EncodeTunnelStream(a: VisitorAddresses, hello: Bytes): Bytes
    requires Encodable(a)
  {
    Header(a) + hello
  }

  datatype TunnelError = BadHeader(proxy: ProxyError) | BadHello(hello: HelloError)

  datatype Intake = Intake(addresses: VisitorAddresses, hello: ClientHello)

  /** Read the header, then the ClientHello, from the same reader. */
  method ReadTunnelStream(reader: Reader, o: Oracle) returns (result: Result<Intake, TunnelError>)
    modifies reader
    ensures result.Ok? ==>
      && Decode(old(reader.rest)).result == Ok(result.value.addresses)
      && Encodable(result.value.addresses)
      && result.value.hello.buffered + reader.rest == Decode(old(reader.rest)).rest
    ensures Decode(old(reader.rest)).result.Err? <==> result.Err? && result.error.BadHeader?
    ensures Decode(old(reader.rest)).result.Ok? ==>
      forall k: nat, name :: CompletesAt(o, Decode(old(reader.rest)).rest, k, name) && NeverTooLong(Decode(old(reader.rest)).rest, k) ==>
        (result.Ok? <==> name.Some? && Hostnames.Validate(o.isIp, name.value).Ok?)
  {
    var header := reader.ReadProxyV2();
    if header.Err? {
      return Err(BadHeader(header.error));
    }
    DecodedWasEncoded(old(reader.rest));
    var hello, _, _ := ReadClientHello(reader, o);
    if hello.Err? {
      return Err(BadHello(hello.error));
    }
    result := Ok(Intake(header.value, hello.value));
  }

  // ---------------------------------------------------------------------------------------------
  // Replay
  // ---------------------------------------------------------------------------------------------

  /** Replays buffered bytes before reading on. */
  class ReplayedTunnelStream {
    const inner: Reader
    const buffered: Bytes
    var offset: nat

    predicate Valid()
      reads this
    {
      offset <= |buffered|
    }

    /** The bytes still to come. */
    function Remaining(): Bytes
      requires Valid()
      reads this, inner
    {
      buffered[offset..] + inner.rest
    }

    constructor (inner: Reader, buffered: Bytes)
      ensures Valid() && this.inner == inner && Remaining() == buffered + inner.rest
    {
      this.inner, this.buffered, this.offset := inner, buffered, 0;
    }

    /** One read into a buffer with `capacity` bytes of room. */
    method PollRead(capacity: nat) returns (got: Bytes)
      requires Valid()
      modifies this, inner
      ensures Valid() && got + Remaining() == old(Remaining()) && |got| <= capacity
      ensures got == [] <==> old(Remaining()) == [] || capacity == 0
    {
      if offset < |buffered| {
        var remaining := buffered[offset..];
        var n := Min(|remaining|, capacity);
        got := remaining[..n];
        offset := offset + n;
        assert buffered[offset..] == remaining[n..];
        assert got + buffered[offset..] == remaining;
        return;
      }
      got := inner.Read(capacity);
    }

    /**
     * Any sequence of reads yields the bytes in order, none lost and none repeated, and all of them
     * once as many reads had room as there were bytes.
     */
    method ReadInTurn(capacities: seq<nat>) returns (out: Bytes)
      requires Valid()
      modifies this, inner
      ensures Valid() && out + Remaining() == old(Remaining())
      ensures WithRoom(capacities) >= |old(Remaining())| ==> out == old(Remaining()) && Remaining() == []
    {
      out := [];
      for i := 0 to |capacities|
        invariant Valid() && out + Remaining() == old(Remaining())
        invariant |out| >= WithRoom(capacities[..i]) || Remaining() == []
      {
        ghost var before, was := out, Remaining();
        var got := PollRead(capacities[i]);
        out := out + got;
        Regroup(before, got, Remaining());
        RoomSnoc(capacities, i);
      }
      assert capacities[..|capacities|] == capacities;
    }
  }

  /** How many of the reads have room for a byte. */
  function WithRoom(capacities: seq<nat>): nat {
    if capacities == [] then 0
    else WithRoom(capacities[..|capacities| - 1]) + if capacities[|capacities| - 1] > 0 then 1 else 0
  }

  lemma RoomSnoc(capacities: seq<nat>, i: nat)
    requires i < |capacities|
    ensures WithRoom(capacities[..i + 1]) == WithRoom(capacities[..i]) + if capacities[i] > 0 then 1 else 0
  {
    assert capacities[..i + 1][..i] == capacities[..i];
  }

  lemma Regroup(a: Bytes, b: Bytes, c: Bytes)
    ensures (a + b) + c == a + (b + c)
  {
  }

  // ---------------------------------------------------------------------------------------------
  // From the encoder to the backend
  // ---------------------------------------------------------------------------------------------

  /**
   * The header of a framed stream is never refused, and a ClientHello that completes and cannot
   * overflow is refused exactly for its name.
   */
  ghost predicate Admits(o: Oracle, stream: Bytes, intake: Result<Intake, TunnelError>) {
    && (intake.Err? ==> intake.error.BadHello?)
    && forall k: nat, name :: CompletesAt(o, stream, k, name) && NeverTooLong(stream, k) ==>
         (intake.Ok? <==> name.Some? && Hostnames.Validate(o.isIp, name.value).Ok?)
  }

  /**
   * The whole path of a terminated stream: what was framed with its addresses, and whatever came
   * after it, is read back with those addresses and replayed from its first byte at any read sizes,
   * completely once enough reads had room.
   */
  method TerminateConservesBytes(a: VisitorAddresses, hello: Bytes, more: Bytes, o: Oracle, capacities: seq<nat>)
    returns (intake: Result<Intake, TunnelError>, out: Bytes, left: Bytes)
    requires Encodable(a)
    ensures intake.Ok? ==> intake.value.addresses == Carried(a) && out + left == hello + more
    ensures intake.Ok? && WithRoom(capacities) >= |hello + more| ==> out == hello + more
    ensures Admits(o, hello + more, intake)
  {
    out, left := [], [];
    var reader := new Reader(EncodeTunnelStream(a, hello) + more);
    DecodeFramed(a, hello, more);
    intake := ReadTunnelStream(reader, o);
    if intake.Ok? {
      var replay := new ReplayedTunnelStream(reader, intake.value.hello.buffered);
      out := replay.ReadInTurn(capacities);
      left := replay.buffered[replay.offset..] + reader.rest;
    }
  }

  /** The first bytes sent to a backend: the header if the service wants one, then the ClientHello. */
  method InitialBytes(sendsProxy: bool, intake: Intake) returns (initial: Bytes)
    requires Encodable(intake.addresses)
    ensures initial == (if sendsProxy then Header(intake.addresses) else []) + intake.hello.buffered
  {
    initial := [];
    if sendsProxy {
      initial := EncodeProxyV2(intake.addresses);
    }
    initial := initial + intake.hello.buffered;
  }

  /**
   * The whole path of a passed-through stream: the backend receives exactly the Visitor's bytes,
   * preceded, when the service asks for it, by a header that decodes to the Visitor's addresses.
   */
  method PassthroughConservesBytes(a: VisitorAddresses, hello: Bytes, more: Bytes, o: Oracle, sendsProxy: bool)
    returns (intake: Result<Intake, TunnelError>, received: Bytes)
    requires Encodable(a)
    ensures intake.Ok? && !sendsProxy ==> received == hello + more
    ensures intake.Ok? && sendsProxy ==> Decode(received) == Decoded(Ok(Carried(a)), hello + more)
    ensures Admits(o, hello + more, intake)
  {
    hide Decode;
    hide Header;
    received := [];
    var reader := new Reader(EncodeTunnelStream(a, hello) + more);
    DecodeFramed(a, hello, more);
    intake := ReadTunnelStream(reader, o);
    if intake.Ok? {
      var initial := InitialBytes(sendsProxy, intake.value);
      received := initial + reader.rest;
      if sendsProxy {
        DecodeForwarded(a, intake.value.hello.buffered, reader.rest);
      } else {
        assert received == intake.value.hello.buffered + reader.rest;
      }
    }
  }

  /** A framed stream decodes to its addresses and leaves the Visitor's bytes. */
  lemma DecodeFramed(a: VisitorAddresses, hello: Bytes, more: Bytes)
    requires Encodable(a)
    ensures Decode(EncodeTunnelStream(a, hello) + more) == Decoded(Ok(Carried(a)), hello + more)
  {
    assert EncodeTunnelStream(a, hello) + more == Header(a) + (hello + more);
    DecodeEncoded(a, [], hello + more);
  }

  /** A header sent ahead of the buffered bytes decodes to the carried addresses. */
  lemma DecodeForwarded(a: VisitorAddresses, buffered: Bytes, rest: Bytes)
    requires Encodable(a)
    ensures Encodable(Carried(a))
    ensures Decode(Header(Carried(a)) + buffered + rest) == Decoded(Ok(Carried(a)), buffered + rest)
  {
    assert Header(Carried(a)) + buffered + rest == Header(Carried(a)) + (buffered + rest);
    DecodeEncoded(Carried(a), [], buffered + rest);
    assert Carried(Carried(a)) == Carried(a);
  }
}
