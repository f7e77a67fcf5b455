/**
 * The three SOCKS5 exchanges of Socks5Server as functions of the input the
 * client sends and the position the server has reached in it. The class in
 * module Simplesocks is proved to behave as these functions say; the lemmas
 * here state what the functions promise, and connect them to the client's
 * side of each exchange (the greeting and request encoders, and a parser for
 * the reply frame).
 */
module Socks5Wire {
  import opened Socks5Types

  function Min(a: int, b: int): int { if a <= b then a else b }

  // ---------------------------------------------------------------------
  // The input stream
  // ---------------------------------------------------------------------

  /** What InputStream.read() returns at position p: the byte, or -1 past the end. */
  function ByteAt(s: seq<Byte>, p: int): (b: int)
    ensures -1 <= b <= 0xFF
  {
    if 0 <= p < |s| then s[p] else -1
  }

  /** Where the cursor is after read() at p: one further, unless the input is exhausted. */
  function Advance(s: seq<Byte>, p: nat): (q: nat)
    requires p <= |s|
    ensures q == Min(p + 1, |s|)
  {
    if p < |s| then p + 1 else p
  }

  // ---------------------------------------------------------------------
  // Method negotiation (section 3 of RFC 1928): acceptAuthentication
  // ---------------------------------------------------------------------

  /** The method "no authentication required", and the reply byte "no acceptable methods". */
  const NO_AUTHENTICATION: Byte := 0x00
  const NO_ACCEPTABLE_METHODS: Byte := 0xFF

  /** What acceptAuthentication returns (or throws) and where it leaves the cursor. */
  datatype AuthOutcome = AuthOutcome(result: Result<bool>, next: nat)

  /**
   * acceptAuthentication started with the cursor at p: version byte, NMETHODS,
   * then NMETHODS method bytes; accepted iff method 0x00 is among them.
   */
  function Authenticate(s: seq<Byte>, p: nat): (o: AuthOutcome)
    requires p <= |s|
    ensures p <= o.next <= |s|
    ensures ByteAt(s, p) != SOCKS_VERSION ==> o.result == Err(UnsupportedProtocol)
    ensures o.result.Ok? <==>
              ByteAt(s, p) == SOCKS_VERSION && p + 2 <= |s| && p + 2 + s[p + 1] <= |s|
    ensures o.result.Ok? ==>
              o.next == p + 2 + s[p + 1] &&
              (o.result.value <==> NO_AUTHENTICATION in s[p + 2..o.next])
    ensures o.result.Err? && ByteAt(s, p) == SOCKS_VERSION ==> o.next == |s|
  {
    if ByteAt(s, p) != SOCKS_VERSION then AuthOutcome(Err(UnsupportedProtocol), Advance(s, p))
    else
      var numMethods := ByteAt(s, p + 1);
      if numMethods < 0 then AuthOutcome(Err(NegativeArraySize), |s|)
      else if p + 2 + numMethods <= |s| then
        AuthOutcome(Ok(NO_AUTHENTICATION in s[p + 2..p + 2 + numMethods]), p + 2 + numMethods)
      else AuthOutcome(Err(EndOfStream), |s|)
  }

  /** The two bytes acceptAuthentication writes. */
  function AuthReply(accepted: bool): (m: seq<Byte>)
    ensures |m| == 2 && m[0] == SOCKS_VERSION
    ensures m[1] == NO_AUTHENTICATION <==> accepted
    ensures m[1] == NO_ACCEPTABLE_METHODS <==> !accepted
  {
    [SOCKS_VERSION, if accepted then NO_AUTHENTICATION else NO_ACCEPTABLE_METHODS]
  }

  /** The client's greeting: version, NMETHODS, methods. */
  function Greeting(methods: seq<Byte>): (m: seq<Byte>)
    requires |methods| <= 0xFF
  {
    [SOCKS_VERSION, |methods|] + methods
  }

  /** Whatever precedes or follows it, a greeting is negotiated to "accepted iff 0x00 is offered". */
  lemma {:induction false} AuthenticateGreeting(s: seq<Byte>, p: nat, methods: seq<Byte>)
    requires |methods| <= 0xFF
    requires p + 2 + |methods| <= |s| && s[p..p + 2 + |methods|] == Greeting(methods)
    ensures Authenticate(s, p) == AuthOutcome(Ok(NO_AUTHENTICATION in methods), p + 2 + |methods|)
  {
    assert s[p] == Greeting(methods)[0];
    assert s[p + 1] == Greeting(methods)[1];
    assert s[p + 2..p + 2 + |methods|] == Greeting(methods)[2..];
  }

  /** Conversely, an accepted-or-refused negotiation consumed exactly a greeting. */
  lemma {:induction false} AuthenticatedIsGreeting(s: seq<Byte>, p: nat)
    requires p <= |s| && Authenticate(s, p).result.Ok?
    ensures var o := Authenticate(s, p);
            |s[p + 2..o.next]| <= 0xFF && s[p..o.next] == Greeting(s[p + 2..o.next])
  {
    var o := Authenticate(s, p);
    var methods := s[p + 2..o.next];
    assert |methods| == s[p + 1];
    assert s[p..o.next] == [s[p], s[p + 1]] + methods;
  }

  // ---------------------------------------------------------------------
  // Requests and addressing (sections 4 and 5 of RFC 1928): readRequest
  // ---------------------------------------------------------------------

  predicate IsAddressType(atyp: int) {
    atyp == ATYPE_IPV4 || atyp == ATYPE_DNS || atyp == ATYPE_IPV6
  }

  /** An address as it stands on the wire after ATYP (a host name is length-prefixed). */
  function AddressBytes(a: Address): (b: seq<Byte>)
    requires WellFormed(a)
  {
    match a
    case IPv4(bytes) => bytes
    case IPv6(bytes) => bytes
    case Domain(name) => [|name|] + name
  }

  /** What reading DST.ADDR gives: an address, nothing (ATYP unknown), or an exception. */
  datatype AddressRead =
    | Captured(address: Address, next: nat)
    | Unrecognized
    | Truncated(error: IoError, next: nat)

  /** The address branch of readRequest, with the cursor at p just after ATYP. */
  function ReadAddress(s: seq<Byte>, p: nat, atyp: int): (a: AddressRead)
    requires p <= |s|
    ensures a.Captured? ==> p <= a.next <= |s|
    ensures a.Truncated? ==> a.next == |s|
  {
    if atyp == ATYPE_IPV4 then
      if p + 4 <= |s| then Captured(IPv4(s[p..p + 4]), p + 4) else Truncated(EndOfStream, |s|)
    else if atyp == ATYPE_DNS then
      var hostNameLength := ByteAt(s, p);
      if hostNameLength < 0 then Truncated(NegativeArraySize, |s|)
      else if p + 1 + hostNameLength <= |s| then
        Captured(Domain(s[p + 1..p + 1 + hostNameLength]), p + 1 + hostNameLength)
      else Truncated(EndOfStream, |s|)
    else if atyp == ATYPE_IPV6 then
      if p + 16 <= |s| then Captured(IPv6(s[p..p + 16]), p + 16) else Truncated(EndOfStream, |s|)
    else Unrecognized
  }

  /**
   * The address bytes are captured verbatim: exactly 4 for IPv4, 16 for IPv6,
   * one length byte L and then L bytes for a host name, and none for an
   * unknown ATYP. An exception is raised exactly when the input ends first.
   */
  lemma ReadAddressCapture(s: seq<Byte>, p: nat, atyp: int)
    requires p <= |s|
    ensures var a := ReadAddress(s, p, atyp);
            (a.Unrecognized? <==> !IsAddressType(atyp)) &&
            (atyp == ATYPE_IPV4 ==> (a.Captured? <==> p + 4 <= |s|)) &&
            (atyp == ATYPE_IPV6 ==> (a.Captured? <==> p + 16 <= |s|)) &&
            (atyp == ATYPE_DNS ==> (a.Captured? <==> p < |s| && p + 1 + s[p] <= |s|)) &&
            (a.Captured? ==>
               WellFormed(a.address) && AddressType(a.address) == atyp &&
               a.next == p + |AddressBytes(a.address)| && s[p..a.next] == AddressBytes(a.address))
  {
    var a := ReadAddress(s, p, atyp);
    if a.Captured? && atyp == ATYPE_DNS {
      assert s[p..a.next] == [s[p]] + s[p + 1..a.next];
    }
  }

  /** ReadAddress reads back an address that stands encoded at p. */
  lemma ReadEncodedAddress(s: seq<Byte>, p: nat, a: Address)
    requires WellFormed(a) && p + |AddressBytes(a)| <= |s|
    requires s[p..p + |AddressBytes(a)|] == AddressBytes(a)
    ensures ReadAddress(s, p, AddressType(a)) == Captured(a, p + |AddressBytes(a)|)
  {
    match a
    case Domain(name) =>
      assert s[p] == AddressBytes(a)[0];
      FramedAt(s, p, AddressBytes(a), 1, |AddressBytes(a)|);
      assert AddressBytes(a)[1..] == name;
    case _ =>
  }

  /** The fields command, address and port of Socks5Server. */
  datatype RequestFields = RequestFields(command: Option<Command>, address: Option<Address>, port: int)

  /** What readRequest returns (or throws), the fields it leaves, and where it leaves the cursor. */
  datatype RequestOutcome = RequestOutcome(result: Result<bool>, fields: RequestFields, next: nat)

  /**
   * readRequest started with the cursor at p and fields f. The single reads of
   * CMD, RSV and ATYP are at p + 1, p + 2 and p + 3 (past the end, each gives -1).
   */
  function DecodeRequest(s: seq<Byte>, p: nat, f: RequestFields): (o: RequestOutcome)
    requires p <= |s|
    ensures p <= o.next <= |s|
    ensures ByteAt(s, p) != SOCKS_VERSION ==>
              o.result == Err(UnsupportedProtocol) && o.fields == f && o.next == Advance(s, p)
  {
    if ByteAt(s, p) != SOCKS_VERSION then RequestOutcome(Err(UnsupportedProtocol), f, Advance(s, p))
    else
      var command := CommandFromNumber(ByteAt(s, p + 1));
      var headerOk := command.Some? && ByteAt(s, p + 2) == 0x00;
      DecodeDestination(s, Min(p + 4, |s|), f.(command := command), headerOk, ByteAt(s, p + 3))
  }

  /** One step of DecodeRequest: an accepted version byte leads to DecodeDestination. */
  lemma DecodeRequestHeader(s: seq<Byte>, p: nat, f: RequestFields, command: Option<Command>, headerOk: bool, atyp: int)
    requires p < |s| && s[p] == SOCKS_VERSION
    requires command == CommandFromNumber(ByteAt(s, p + 1))
    requires headerOk == (command.Some? && ByteAt(s, p + 2) == 0x00) && atyp == ByteAt(s, p + 3)
    ensures DecodeRequest(s, p, f) == DecodeDestination(s, Min(p + 4, |s|), f.(command := command), headerOk, atyp)
  {
  }

  /**
   * The rest of readRequest once ATYP is read, with the cursor at q and
   * headerOk telling whether CMD and RSV were acceptable: DST.ADDR, then the
   * port, which is read even when ATYP is unknown.
   */
  function DecodeDestination(s: seq<Byte>, q: nat, f: RequestFields, headerOk: bool, atyp: int): (o: RequestOutcome)
    requires q <= |s|
    ensures q <= o.next <= |s|
  {
    match ReadAddress(s, q, atyp)
    case Truncated(e, next) => RequestOutcome(Err(e), f, next)
    case Unrecognized => ReadPort(s, q, f, false)
    case Captured(a, next) => ReadPort(s, next, f.(address := Some(a)), headerOk)
  }

  /** The unconditional two reads of DST.PORT at q, then the return of `correct`. */
  function ReadPort(s: seq<Byte>, q: nat, f: RequestFields, correct: bool): (o: RequestOutcome)
    requires q <= |s|
    ensures o.result == Ok(correct) && o.fields.command == f.command && o.fields.address == f.address
    ensures o.next == Min(q + 2, |s|)
  {
    RequestOutcome(Ok(correct), f.(port := PortAt(s, q)), Min(q + 2, |s|))
  }

  /**
   * The value of `in.read() << 8 | in.read()` with the cursor at q: the
   * big-endian port when two bytes remain, else -1 (a -1 from the second
   * read sets every bit). Socks5Server.ReadPortNumber computes the Java
   * expression itself and is proved to give this value.
   */
  function PortAt(s: seq<Byte>, q: nat): (port: int)
    requires q <= |s|
    ensures port == -1 <==> q + 2 > |s|
    ensures q + 2 <= |s| ==> 0 <= port <= 0xFFFF && port / 256 == s[q] && port % 256 == s[q + 1]
  {
    if q + 2 <= |s| then s[q] as int * 256 + s[q + 1] else -1
  }

  // The rest of readRequest, from ATYP on.

  /**
   * After ATYP, readRequest returns true iff CMD and RSV were acceptable and
   * ATYP is known; it raises an exception only for a known ATYP whose address
   * runs past the end of the input, and then leaves the fields as they were.
   */
  lemma DestinationResult(s: seq<Byte>, q: nat, f: RequestFields, headerOk: bool, atyp: int)
    requires q <= |s|
    ensures var o := DecodeDestination(s, q, f, headerOk, atyp);
            o.fields.command == f.command &&
            (o.result.Ok? ==> o.result.value == (headerOk && IsAddressType(atyp))) &&
            (o.result.Err? ==>
               IsAddressType(atyp) && o.result.error != UnsupportedProtocol && o.fields == f && o.next == |s|)
  {
    var a := ReadAddress(s, q, atyp);
    if a.Unrecognized? {
      ReadAddressCapture(s, q, atyp);
    }
  }

  /** After a known ATYP, a returned request holds the address bytes that followed it. */
  lemma DestinationAddress(s: seq<Byte>, q: nat, f: RequestFields, headerOk: bool, atyp: int)
    requires q <= |s| && IsAddressType(atyp) && DecodeDestination(s, q, f, headerOk, atyp).result.Ok?
    ensures var o := DecodeDestination(s, q, f, headerOk, atyp);
            o.fields.address.Some? &&
            var a := o.fields.address.value;
            WellFormed(a) && AddressType(a) == atyp &&
            q + |AddressBytes(a)| <= |s| && s[q..q + |AddressBytes(a)|] == AddressBytes(a) &&
            o.next == Min(q + |AddressBytes(a)| + 2, |s|) &&
            o.fields.port == PortAt(s, q + |AddressBytes(a)|)
  {
    ReadAddressCapture(s, q, atyp);
  }

  /** After an unknown ATYP, no address is read: the port follows ATYP directly. */
  lemma DestinationUnknown(s: seq<Byte>, q: nat, f: RequestFields, headerOk: bool, atyp: int)
    requires q <= |s| && !IsAddressType(atyp)
    ensures var o := DecodeDestination(s, q, f, headerOk, atyp);
            o.result == Ok(false) && o.fields.address == f.address &&
            o.next == Min(q + 2, |s|) && o.fields.port == PortAt(s, q)
  {
    ReadAddressCapture(s, q, atyp);
  }

  /**
   * readRequest returns true iff CMD is 1 or 2, RSV is 0 and ATYP is known;
   * it records the command as soon as the version is accepted; an exception
   * after the version check comes only from a known ATYP whose address runs
   * past the end of the input, and leaves address and port as they were.
   */
  lemma RequestValidity(s: seq<Byte>, p: nat, f: RequestFields)
    requires p <= |s|
    ensures var o := DecodeRequest(s, p, f);
            (ByteAt(s, p) == SOCKS_VERSION ==> o.fields.command == CommandFromNumber(ByteAt(s, p + 1))) &&
            (o.result.Ok? ==>
               (o.result.value <==>
                  (ByteAt(s, p + 1) == 1 || ByteAt(s, p + 1) == 2) &&
                  ByteAt(s, p + 2) == 0 && IsAddressType(ByteAt(s, p + 3)))) &&
            (o.result.Err? ==> o.fields.address == f.address && o.fields.port == f.port) &&
            (o.result.Err? && ByteAt(s, p) == SOCKS_VERSION ==>
               IsAddressType(ByteAt(s, p + 3)) && o.result.error != UnsupportedProtocol && o.next == |s|)
  {
    if ByteAt(s, p) == SOCKS_VERSION {
      var command := CommandFromNumber(ByteAt(s, p + 1));
      var headerOk := command.Some? && ByteAt(s, p + 2) == 0x00;
      DecodeRequestHeader(s, p, f, command, headerOk, ByteAt(s, p + 3));
      DestinationResult(s, Min(p + 4, |s|), f.(command := command), headerOk, ByteAt(s, p + 3));
    }
  }

  /**
   * An unknown ATYP consumes no address bytes and leaves the address field
   * as it was; the port is then read from the next two bytes.
   */
  lemma UnknownAddressTypeKeepsAddress(s: seq<Byte>, p: nat, f: RequestFields)
    requires p <= |s| && ByteAt(s, p) == SOCKS_VERSION && !IsAddressType(ByteAt(s, p + 3))
    ensures var o := DecodeRequest(s, p, f);
            o.result == Ok(false) && o.fields.address == f.address && o.next == Min(p + 6, |s|) &&
            o.fields.port == PortAt(s, Min(p + 4, |s|))
  {
    var command := CommandFromNumber(ByteAt(s, p + 1));
    var headerOk := command.Some? && ByteAt(s, p + 2) == 0x00;
    DecodeRequestHeader(s, p, f, command, headerOk, ByteAt(s, p + 3));
    DestinationUnknown(s, Min(p + 4, |s|), f.(command := command), headerOk, ByteAt(s, p + 3));
  }

  /**
   * A known ATYP whose address is all there is captured byte for byte right
   * after ATYP, whether or not CMD and RSV were valid; the port follows it.
   */
  lemma KnownAddressTypeCapturesAddress(s: seq<Byte>, p: nat, f: RequestFields)
    requires p <= |s| && ByteAt(s, p) == SOCKS_VERSION && IsAddressType(ByteAt(s, p + 3))
    requires DecodeRequest(s, p, f).result.Ok?
    ensures var o := DecodeRequest(s, p, f);
            o.fields.address.Some? &&
            var a := o.fields.address.value;
            WellFormed(a) && AddressType(a) == ByteAt(s, p + 3) &&
            p + 4 + |AddressBytes(a)| <= |s| && s[p + 4..p + 4 + |AddressBytes(a)|] == AddressBytes(a) &&
            o.next == Min(p + 4 + |AddressBytes(a)| + 2, |s|) &&
            o.fields.port == PortAt(s, p + 4 + |AddressBytes(a)|)
  {
    var command := CommandFromNumber(ByteAt(s, p + 1));
    var headerOk := command.Some? && ByteAt(s, p + 2) == 0x00;
    var q, f1 := p + 4, f.(command := command);
    assert Min(p + 4, |s|) == q;
    DecodeRequestHeader(s, p, f, command, headerOk, s[p + 3]);
    assert DecodeRequest(s, p, f) == DecodeDestination(s, q, f1, headerOk, s[p + 3]);
    DestinationAddress(s, q, f1, headerOk, s[p + 3]);
  }

  /**
   * The port of a returned request: -1 when the input ends before both port
   * bytes (the request then consumed everything), else the big-endian value
   * of the last two bytes the request consumed.
   */
  lemma PortOfRequest(s: seq<Byte>, p: nat, f: RequestFields)
    requires p <= |s| && DecodeRequest(s, p, f).result.Ok?
    ensures var o := DecodeRequest(s, p, f);
            (o.fields.port == -1 && o.next == |s|) ||
            (p + 6 <= o.next && 0 <= o.fields.port <= 0xFFFF &&
             o.fields.port == s[o.next - 2] as int * 256 + s[o.next - 1])
  {
    if IsAddressType(ByteAt(s, p + 3)) {
      KnownAddressTypeCapturesAddress(s, p, f);
    } else {
      UnknownAddressTypeKeepsAddress(s, p, f);
    }
  }

  /** The client's request: VER, CMD, RSV, ATYP, DST.ADDR, DST.PORT (big-endian). */
  function EncodeRequest(c: Command, a: Address, port: int): (m: seq<Byte>)
    requires WellFormed(a) && 0 <= port <= 0xFFFF
  {
    RequestHeader(c, a) + AddressBytes(a) + PortBytes(port)
  }

  function RequestHeader(c: Command, a: Address): seq<Byte> {
    [SOCKS_VERSION, CommandNumber(c), 0x00, AddressType(a)]
  }

  function PortBytes(port: int): (b: seq<Byte>)
    requires 0 <= port <= 0xFFFF
  {
    [port / 256, port % 256]
  }

  /** The two port bytes are the big-endian digits of the port. */
  lemma PortBytesDigits(port: int, hi: Byte, lo: Byte)
    requires 0 <= port <= 0xFFFF
    ensures PortBytes(port) == [hi, lo] <==> port == hi * 256 + lo
  {
  }

  /** readRequest decodes a well-formed request, wherever it stands in the input, to what was encoded. */
  lemma {:induction false} DecodeEncodedRequest(s: seq<Byte>, p: nat, c: Command, a: Address, port: int, f: RequestFields)
    requires WellFormed(a) && 0 <= port <= 0xFFFF
    requires p + |EncodeRequest(c, a, port)| <= |s|
    requires s[p..p + |EncodeRequest(c, a, port)|] == EncodeRequest(c, a, port)
    ensures DecodeRequest(s, p, f) ==
            RequestOutcome(Ok(true), RequestFields(Some(c), Some(a), port), p + |EncodeRequest(c, a, port)|)
  {
    var n := |AddressBytes(a)|;
    EncodedRequestParts(s, p, c, a, port);
    ReadEncodedAddress(s, p + 4, a);
    DecodeValidRequest(s, p, f, c, a, p + 4 + n);
  }

  /** The fields of an encoded request, as they stand in the input. */
  lemma EncodedRequestParts(s: seq<Byte>, p: nat, c: Command, a: Address, port: int)
    requires WellFormed(a) && 0 <= port <= 0xFFFF
    requires p + |EncodeRequest(c, a, port)| <= |s|
    requires s[p..p + |EncodeRequest(c, a, port)|] == EncodeRequest(c, a, port)
    ensures var n := |AddressBytes(a)|;
            |EncodeRequest(c, a, port)| == n + 6 &&
            s[p] == SOCKS_VERSION && s[p + 1] == CommandNumber(c) && s[p + 2] == 0x00 &&
            s[p + 3] == AddressType(a) && s[p + 4..p + 4 + n] == AddressBytes(a) &&
            s[p + 4 + n] as int * 256 + s[p + 5 + n] == port
  {
    var n := |AddressBytes(a)|;
    SplitFrame(s, p, RequestHeader(c, a), AddressBytes(a), PortBytes(port));
    HeaderAt(s, p, RequestHeader(c, a));
    HeaderAt(s, p + 4 + n, PortBytes(port));
    PortBytesDigits(port, s[p + 4 + n], s[p + 5 + n]);
  }

  /** One step of DecodeRequest: a valid header followed by a captured address leads to the port. */
  lemma DecodeValidRequest(s: seq<Byte>, p: nat, f: RequestFields, c: Command, a: Address, next: nat)
    requires p + 4 <= |s| && s[p] == SOCKS_VERSION && s[p + 1] == CommandNumber(c) && s[p + 2] == 0x00
    requires ReadAddress(s, p + 4, s[p + 3]) == Captured(a, next)
    ensures DecodeRequest(s, p, f) == ReadPort(s, next, RequestFields(Some(c), Some(a), f.port), true)
  {
    assert ByteAt(s, p + 3) == s[p + 3];
  }

  /** A message x + y + z standing at p in s: each of its parts stands at its place in s. */
  lemma SplitFrame(s: seq<Byte>, p: nat, x: seq<Byte>, y: seq<Byte>, z: seq<Byte>)
    requires p + |x + y + z| <= |s| && s[p..p + |x + y + z|] == x + y + z
    ensures s[p..p + |x|] == x
    ensures s[p + |x|..p + |x| + |y|] == y
    ensures s[p + |x| + |y|..p + |x + y + z|] == z
  {
    var m := x + y + z;
    FramedAt(s, p, m, 0, |x|);
    assert m[..|x|] == x;
    FramedAt(s, p, m, |x|, |x| + |y|);
    assert m[|x|..|x| + |y|] == y;
    FramedAt(s, p, m, |x| + |y|, |m|);
    assert m[|x| + |y|..] == z;
  }

  /** Conversely, three parts standing side by side at p form their concatenation. */
  lemma JoinFrame(s: seq<Byte>, p: nat, x: seq<Byte>, y: seq<Byte>, z: seq<Byte>)
    requires p + |x + y + z| <= |s|
    requires s[p..p + |x|] == x
    requires s[p + |x|..p + |x| + |y|] == y
    requires s[p + |x| + |y|..p + |x + y + z|] == z
    ensures s[p..p + |x + y + z|] == x + y + z
  {
    assert s[p..p + |x + y + z|] == s[p..p + |x|] + s[p + |x|..p + |x| + |y|] + s[p + |x| + |y|..p + |x + y + z|];
  }

  /** The bytes of a short message standing at p, one by one. */
  lemma HeaderAt(s: seq<Byte>, p: nat, m: seq<Byte>)
    requires p + |m| <= |s| && s[p..p + |m|] == m
    ensures forall k :: 0 <= k < |m| ==> s[p + k] == m[k]
  {
    forall k | 0 <= k < |m|
      ensures s[p + k] == m[k]
    {
      assert s[p + k] == s[p..p + |m|][k];
    }
  }

  /** A message m standing at p in s: every part of m stands at the matching place in s. */
  lemma FramedAt(s: seq<Byte>, p: nat, m: seq<Byte>, i: nat, j: nat)
    requires p + |m| <= |s| && s[p..p + |m|] == m && i <= j <= |m|
    ensures s[p + i..p + j] == m[i..j]
  {
    forall k | 0 <= k < j - i
      ensures s[p + i..p + j][k] == m[i..j][k]
    {
      assert s[p + i + k] == s[p..p + |m|][i + k];
    }
  }

  /** Conversely, a fully valid request with a port consumed exactly the encoding of what it decoded. */
  lemma {:induction false} DecodedRequestIsEncoded(s: seq<Byte>, p: nat, f: RequestFields)
    requires p <= |s|
    requires DecodeRequest(s, p, f).result == Ok(true) && DecodeRequest(s, p, f).fields.port != -1
    ensures var o := DecodeRequest(s, p, f);
            o.fields.command.Some? && o.fields.address.Some? &&
            WellFormed(o.fields.address.value) && 0 <= o.fields.port <= 0xFFFF &&
            s[p..o.next] == EncodeRequest(o.fields.command.value, o.fields.address.value, o.fields.port)
  {
    var o := DecodeRequest(s, p, f);
    RequestValidity(s, p, f);
    KnownAddressTypeCapturesAddress(s, p, f);
    PortOfRequest(s, p, f);
    var c, a, port := o.fields.command.value, o.fields.address.value, o.fields.port;
    var n := |AddressBytes(a)|;
    assert o.next == p + 6 + n;
    RequestFrame(s, p, c, a, port);
  }

  /** The bytes of a request header, address and port standing at p form its encoding. */
  lemma RequestFrame(s: seq<Byte>, p: nat, c: Command, a: Address, port: int)
    requires WellFormed(a) && p + 6 + |AddressBytes(a)| <= |s|
    requires s[p] == SOCKS_VERSION && s[p + 1] == CommandNumber(c) && s[p + 2] == 0x00
    requires s[p + 3] == AddressType(a) && s[p + 4..p + 4 + |AddressBytes(a)|] == AddressBytes(a)
    requires port == s[p + 4 + |AddressBytes(a)|] as int * 256 + s[p + 5 + |AddressBytes(a)|]
    ensures 0 <= port <= 0xFFFF && s[p..p + 6 + |AddressBytes(a)|] == EncodeRequest(c, a, port)
  {
    var n := |AddressBytes(a)|;
    PortBytesDigits(port, s[p + 4 + n], s[p + 5 + n]);
    assert s[p..p + 4] == RequestHeader(c, a);
    assert s[p + 4 + n..p + 6 + n] == PortBytes(port);
    JoinFrame(s, p, RequestHeader(c, a), AddressBytes(a), PortBytes(port));
  }

  // ---------------------------------------------------------------------
  // Replies (section 6 of RFC 1928): sendReply
  // ---------------------------------------------------------------------

  /** A reply frame as a client reads it: the reply code, if the frame is a wildcard IPv4 reply. */
  function ParseReply(frame: seq<Byte>): (r: Option<ResponseCode>)
    ensures r.Some? ==> |frame| == 10 && frame[1] == GetCode(r.value)
  {
    if |frame| == 10 && frame[0] == SOCKS_VERSION && frame[2] == 0x00 &&
       frame[3] == ATYPE_IPV4 && frame[4..] == [0, 0, 0, 0, 0, 0]
    then ResponseCodeFromByte(frame[1])
    else None
  }

  /** The ten bytes of sendReply: version, REP, reserved, IPv4, 0.0.0.0, port 0. */
  function ReplyFrame(r: ResponseCode): (frame: seq<Byte>)
    ensures |frame| == 10 && ParseReply(frame) == Some(r)
  {
    ResponseCodeRoundTrip(r);
    [SOCKS_VERSION, GetCode(r), 0x00, ATYPE_IPV4, 0x00, 0x00, 0x00, 0x00, 0x00, 0x00]
  }

  /** Every frame a client accepts is the frame of exactly one reply code. */
  lemma {:induction false} ParsedReplyIsFrame(frame: seq<Byte>)
    requires ParseReply(frame).Some?
    ensures frame == ReplyFrame(ParseReply(frame).value)
  {
    var r := ParseReply(frame).value;
    assert frame == frame[..4] + frame[4..];
    assert ReplyFrame(r) == ReplyFrame(r)[..4] + ReplyFrame(r)[4..];
  }
}
