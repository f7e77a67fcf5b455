/**
 * Whole exchanges with a Socks5Server on concrete client input: a new
 * server negotiates the method and then reads a request, as the unit tests
 * of Socks5Server drive it. Each method states what the server returns and
 * what it holds afterwards.
 */
module Socks5Scenarios {
  import opened Socks5Types
  import opened Socks5Wire
  import opened Simplesocks

  /** A greeting offering only "no authentication required". */
  function NoAuthGreeting(): seq<Byte> {
    Greeting([NO_AUTHENTICATION])
  }

  /** The two messages a client sends, one after the other. */
  lemma SplitSession(greeting: seq<Byte>, request: seq<Byte>)
    ensures var s := greeting + request;
            s[..|greeting|] == greeting && s[|greeting|..|greeting| + |request|] == request
  {
  }

  /**
   * A server whose client first offers only method 0x00 and then sends
   * `request`: the negotiation succeeds, the reply is [5, 0], and the server
   * is left at the start of the request with no fields set.
   */
  method Authenticated(request: seq<Byte>) returns (server: Socks5Server, accepted: Result<bool>)
    ensures server.input == NoAuthGreeting() + request && server.pos == |NoAuthGreeting()|
    ensures accepted == Ok(true) && server.output == [SOCKS_VERSION, NO_AUTHENTICATION]
    ensures server.Valid() && server.command == None && server.address == None && server.port == -1
    ensures fresh(server)
  {
    var greeting := NoAuthGreeting();
    server := new Socks5Server(greeting + request);
    SplitSession(greeting, request);
    AuthenticateGreeting(greeting + request, 0, [NO_AUTHENTICATION]);
    accepted := server.AcceptAuthentication();
  }

  /**
   * A greeting offering method 0x00 followed by a valid request: the server
   * accepts, replies [5, 0], and holds the command, address and port sent.
   */
  method Session(c: Command, a: Address, port: int) returns (server: Socks5Server, accepted: Result<bool>, valid: Result<bool>)
    requires WellFormed(a) && 0 <= port <= 0xFFFF
    ensures server.input == NoAuthGreeting() + EncodeRequest(c, a, port)
    ensures accepted == Ok(true) && valid == Ok(true) && server.Valid()
    ensures server.output == [SOCKS_VERSION, NO_AUTHENTICATION]
    ensures server.GetCommand() == Some(c) && server.GetAddress() == Some(a) && server.GetPort() == port
  {
    var request := EncodeRequest(c, a, port);
    server, accepted := Authenticated(request);
    SplitSession(NoAuthGreeting(), request);
    DecodeEncodedRequest(server.input, |NoAuthGreeting()|, c, a, port, RequestFields(None, None, -1));
    valid := server.ReadRequest();
  }

  // Requests the server reads in full.

  method ConnectIPv4() returns (server: Socks5Server, accepted: Result<bool>, valid: Result<bool>)
    ensures server.input == [0x05, 0x01, 0x00, 0x05, 0x01, 0x00, 0x01, 0xC0, 0xA8, 0x01, 0x01, 0x07, 0xD1]
    ensures accepted == Ok(true) && valid == Ok(true) && server.Valid()
    ensures server.GetCommand() == Some(Connect) && server.GetAddress() == Some(IPv4([0xC0, 0xA8, 0x01, 0x01]))
    ensures server.GetPort() == 2001
    ensures server.output == [SOCKS_VERSION, NO_AUTHENTICATION]
  {
    server, accepted, valid := Session(Connect, IPv4([0xC0, 0xA8, 0x01, 0x01]), 2001);
  }

  /** The host name "example.com" in US-ASCII. */
  function ExampleCom(): seq<Byte> {
    [0x65, 0x78, 0x61, 0x6D, 0x70, 0x6C, 0x65, 0x2E, 0x63, 0x6F, 0x6D]
  }

  method ConnectDomain() returns (server: Socks5Server, accepted: Result<bool>, valid: Result<bool>)
    ensures server.input == [0x05, 0x01, 0x00, 0x05, 0x01, 0x00, 0x03, 0x0B] + ExampleCom() + [0x22, 0xB8]
    ensures accepted == Ok(true) && valid == Ok(true) && server.Valid()
    ensures server.GetCommand() == Some(Connect) && server.GetAddress() == Some(Domain(ExampleCom()))
    ensures server.GetPort() == 8888
    ensures server.output == [SOCKS_VERSION, NO_AUTHENTICATION]
  {
    server, accepted, valid := Session(Connect, Domain(ExampleCom()), 8888);
  }

  method BindIPv4() returns (server: Socks5Server, accepted: Result<bool>, valid: Result<bool>)
    ensures server.input == [0x05, 0x01, 0x00, 0x05, 0x02, 0x00, 0x01, 0xC0, 0xA8, 0x01, 0x01, 0x04, 0x38]
    ensures accepted == Ok(true) && valid == Ok(true) && server.Valid()
    ensures server.GetCommand() == Some(Bind) && server.GetAddress() == Some(IPv4([0xC0, 0xA8, 0x01, 0x01]))
    ensures server.GetPort() == 1080
    ensures server.output == [SOCKS_VERSION, NO_AUTHENTICATION]
  {
    server, accepted, valid := Session(Bind, IPv4([0xC0, 0xA8, 0x01, 0x01]), 1080);
  }

  /** The IPv6 address 2001:db8:a55a:ff02:ccaa:110:0:d00d, byte by byte. */
  function ExampleIPv6(): seq<Byte> {
    [0x20, 0x01, 0x0D, 0xB8, 0xA5, 0x5A, 0xFF, 0x02, 0xCC, 0xAA, 0x01, 0x10, 0x00, 0x00, 0xD0, 0x0D]
  }

  method ConnectIPv6() returns (server: Socks5Server, accepted: Result<bool>, valid: Result<bool>)
    ensures server.input == [0x05, 0x01, 0x00, 0x05, 0x01, 0x00, 0x04] + ExampleIPv6() + [0x3F, 0xAE]
    ensures accepted == Ok(true) && valid == Ok(true) && server.Valid()
    ensures server.GetCommand() == Some(Connect) && server.GetAddress() == Some(IPv6(ExampleIPv6()))
    ensures server.GetPort() == 16302
    ensures server.output == [SOCKS_VERSION, NO_AUTHENTICATION]
  {
    server, accepted, valid := Session(Connect, IPv6(ExampleIPv6()), 16302);
  }

  // A negotiation the server accepts.

  /** Three methods offered, 0x00 last: the scan finds it and the server accepts. */
  method MultipleMethods() returns (server: Socks5Server, accepted: Result<bool>)
    ensures server.input == [0x05, 0x03, 0x02, 0x01, 0x00]
    ensures accepted == Ok(true) && server.output == [SOCKS_VERSION, NO_AUTHENTICATION]
    ensures server.pos == 5
  {
    server := new Socks5Server([0x05, 0x03, 0x02, 0x01, 0x00]);
    assert server.input == Greeting([0x02, 0x01, 0x00]) && server.input[..5] == server.input;
    AuthenticateGreeting(server.input, 0, [0x02, 0x01, 0x00]);
    accepted := server.AcceptAuthentication();
  }

  // Negotiations and requests the server refuses.

  method NotSocks5Greeting() returns (server: Socks5Server, accepted: Result<bool>)
    ensures server.input == [0x01, 0x01, 0x00]
    ensures accepted == Err(UnsupportedProtocol) && server.output == []
  {
    server := new Socks5Server([0x01, 0x01, 0x00]);
    accepted := server.AcceptAuthentication();
  }

  method UnsupportedAuthentication() returns (server: Socks5Server, accepted: Result<bool>)
    ensures server.input == [0x05, 0x01, 0x02]
    ensures accepted == Ok(false) && server.output == [SOCKS_VERSION, NO_ACCEPTABLE_METHODS]
  {
    server := new Socks5Server([0x05, 0x01, 0x02]);
    accepted := server.AcceptAuthentication();
  }

  method NotSocks5Request() returns (server: Socks5Server, accepted: Result<bool>, valid: Result<bool>)
    ensures server.input == [0x05, 0x01, 0x00, 0x01, 0x01, 0x00, 0x01, 0xC0, 0xA8, 0x01, 0x01]
    ensures accepted == Ok(true) && valid == Err(UnsupportedProtocol) && server.Valid()
    ensures server.GetCommand() == None && server.GetAddress() == None && server.GetPort() == -1
    ensures server.output == [SOCKS_VERSION, NO_AUTHENTICATION]
  {
    server, accepted := Authenticated([0x01, 0x01, 0x00, 0x01, 0xC0, 0xA8, 0x01, 0x01]);
    valid := server.ReadRequest();
  }

  /** An unknown command without the port bytes: the request is refused and the port stays -1. */
  method UnknownCommand() returns (server: Socks5Server, accepted: Result<bool>, valid: Result<bool>)
    ensures server.input == [0x05, 0x01, 0x00, 0x05, 0xC0, 0x00, 0x01, 0xC0, 0xA8, 0x01, 0x01]
    ensures accepted == Ok(true) && valid == Ok(false) && server.Valid()
    ensures server.GetCommand() == None && server.GetAddress() == Some(IPv4([0xC0, 0xA8, 0x01, 0x01]))
    ensures server.GetPort() == -1
    ensures server.output == [SOCKS_VERSION, NO_AUTHENTICATION]
  {
    server, accepted := Authenticated([0x05, 0xC0, 0x00, 0x01, 0xC0, 0xA8, 0x01, 0x01]);
    assert server.input[7..11] == [0xC0, 0xA8, 0x01, 0x01];
    valid := server.ReadRequest();
  }

  /** A non-zero RSV without the port bytes: refused, with the address read and the port -1. */
  method InvalidReserved() returns (server: Socks5Server, accepted: Result<bool>, valid: Result<bool>)
    ensures server.input == [0x05, 0x01, 0x00, 0x05, 0x01, 0x01, 0x01, 0xC0, 0xA8, 0x01, 0x01]
    ensures accepted == Ok(true) && valid == Ok(false) && server.Valid()
    ensures server.GetCommand() == Some(Connect) && server.GetAddress() == Some(IPv4([0xC0, 0xA8, 0x01, 0x01]))
    ensures server.GetPort() == -1
    ensures server.output == [SOCKS_VERSION, NO_AUTHENTICATION]
  {
    server, accepted := Authenticated([0x05, 0x01, 0x01, 0x01, 0xC0, 0xA8, 0x01, 0x01]);
    assert server.input[7..11] == [0xC0, 0xA8, 0x01, 0x01];
    valid := server.ReadRequest();
  }

  /** An unknown ATYP: no address is read, and the two bytes after ATYP become the port. */
  method UnknownAddressType() returns (server: Socks5Server, accepted: Result<bool>, valid: Result<bool>)
    ensures server.input == [0x05, 0x01, 0x00, 0x05, 0x01, 0x00, 0xA8, 0xC0, 0xA8, 0x01, 0x01]
    ensures accepted == Ok(true) && valid == Ok(false) && server.Valid()
    ensures server.GetCommand() == Some(Connect) && server.GetAddress() == None
    ensures server.GetPort() == 0xC0A8
    ensures server.output == [SOCKS_VERSION, NO_AUTHENTICATION]
  {
    server, accepted := Authenticated([0x05, 0x01, 0x00, 0xA8, 0xC0, 0xA8, 0x01, 0x01]);
    valid := server.ReadRequest();
  }

  method SuccessReply() returns (server: Socks5Server)
    ensures server.output == [0x05, 0x00, 0x00, 0x01, 0x00, 0x00, 0x00, 0x00, 0x00, 0x00]
  {
    server := new Socks5Server([]);
    server.SendReply(Success);
  }
}
