/**
 * Socks5Server: the server side of a SOCKS5 handshake over one client
 * connection. The connection is modelled as the whole input the client sends
 * (`input`, consumed from the cursor `pos` on) and everything written back
 * so far (`output`). Each method does what its Java counterpart does, read by
 * read, and is proved to agree with the matching function of Socks5Wire.
 */
module Simplesocks {
  import opened Socks5Types
  import opened Socks5Wire
  import JavaInt

  class Socks5Server {
    /** Every byte the client sends on the connection, in order. */
    const input: seq<Byte>
    /** How many bytes of `input` the server has consumed. */
    var pos: nat
    /** Every byte the server has written to the client, in order. */
    var output: seq<Byte>

    /** The command of the last request; None stands for null. */
    var command: Option<Command>
    /** The address of the last request; None stands for null. */
    var address: Option<Address>
    /** The port of the last request, -1 until one is read. */
    var port: int

    /** The cursor stays in the input, an address has its wire length, a port is 16 bits or -1. */
    ghost predicate Valid()
      reads this
    {
      pos <= |input| &&
      (address.Some? ==> WellFormed(address.value)) &&
      (port == -1 || 0 <= port <= 0xFFFF)
    }

    constructor (input: seq<Byte>)
      ensures Valid()
      ensures this.input == input && pos == 0 && output == []
      ensures command == None && address == None && port == -1
    {
      this.input := input;
      pos := 0;
      output := [];
      command := None;
      address := None;
      port := -1;
    }

    /** InputStream.read(): the next byte, or -1 once the input is exhausted. */
    method Read() returns (b: int)
      requires pos <= |input|
      modifies this`pos
      ensures b == ByteAt(input, old(pos)) && pos == Advance(input, old(pos))
    {
      if pos < |input| {
        b := input[pos];
        pos := pos + 1;
      } else {
        b := -1;
      }
    }

    /** DataInputStream.readFully: n bytes, or EOFException after consuming what is left. */
    method ReadFully(n: nat) returns (r: Result<seq<Byte>>)
      requires pos <= |input|
      modifies this`pos
      ensures old(pos) + n <= |input| ==> r == Ok(input[old(pos)..old(pos) + n]) && pos == old(pos) + n
      ensures old(pos) + n > |input| ==> r == Err(EndOfStream) && pos == |input|
    {
      if pos + n <= |input| {
        r := Ok(input[pos..pos + n]);
        pos := pos + n;
      } else {
        r := Err(EndOfStream);
        pos := |input|;
      }
    }

    /** Reads the version byte; false stands for IOException("Unsupported protocol"). */
    method CheckProtocolVersion() returns (ok: bool)
      requires pos <= |input|
      modifies this`pos
      ensures ok <==> ByteAt(input, old(pos)) == SOCKS_VERSION
      ensures pos == Advance(input, old(pos))
    {
      var version := Read();
      ok := version == SOCKS_VERSION;
    }

    /** The scan of the offered methods: stops at the first "no authentication required". */
    static method OffersNoAuthentication(methods: seq<Byte>) returns (success: bool)
      ensures success <==> NO_AUTHENTICATION in methods
    {
      success := false;
      var i := 0;
      while i < |methods|
        invariant 0 <= i <= |methods|
        invariant !success && NO_AUTHENTICATION !in methods[..i]
      {
        if methods[i] == NO_AUTHENTICATION {
          success := true;
          break;
        }
        i := i + 1;
      }
      assert !success ==> methods[..i] == methods;
    }

    /**
     * Method negotiation: reads VER, NMETHODS and the methods, and replies
     * with the method chosen; true iff "no authentication required" was offered.
     */
    method AcceptAuthentication() returns (r: Result<bool>)
      requires Valid()
      modifies this`pos, this`output
      ensures Valid()
      ensures r == Authenticate(input, old(pos)).result && pos == Authenticate(input, old(pos)).next
      ensures output == old(output) + (if r.Ok? then AuthReply(r.value) else [])
    {
      var ok := CheckProtocolVersion();
      if !ok {
        return Err(UnsupportedProtocol);
      }
      var numMethods := Read();
      if numMethods < 0 {
        return Err(NegativeArraySize);
      }
      var methods := ReadFully(numMethods);
      if methods.Err? {
        return Err(methods.error);
      }
      var success := OffersNoAuthentication(methods.value);
      var reply := [SOCKS_VERSION, if success then NO_AUTHENTICATION else NO_ACCEPTABLE_METHODS];
      output := output + reply;
      return Ok(success);
    }

    /**
     * Reads a request: VER, CMD, RSV, ATYP, DST.ADDR and DST.PORT. Returns
     * whether CMD, RSV and ATYP were all acceptable; records the command, the
     * address and the port as it goes.
     */
    method ReadRequest() returns (r: Result<bool>)
      requires Valid()
      modifies this`pos, this`command, this`address, this`port
      ensures Valid()
      ensures var o := DecodeRequest(input, old(pos), RequestFields(old(command), old(address), old(port)));
              r == o.result && pos == o.next &&
              command == o.fields.command && address == o.fields.address && port == o.fields.port
    {
      ghost var p, f := pos, RequestFields(command, address, port);
      var ok := CheckProtocolVersion();
      if !ok {
        return Err(UnsupportedProtocol);
      }
      var correct := true;
      var commandNumber := Read();
      assert commandNumber == ByteAt(input, p + 1) && pos == Min(p + 2, |input|);
      command := CommandFromNumber(commandNumber);
      if command == None {
        correct := false;
      }
      var reserved := Read();
      assert reserved == ByteAt(input, p + 2) && pos == Min(p + 3, |input|);
      if reserved != 0x00 {
        correct := false;
      }
      var atype := Read();
      assert atype == ByteAt(input, p + 3) && pos == Min(p + 4, |input|);
      DecodeRequestHeader(input, p, f, command, correct, atype);
      r := ReadDestinationAndPort(correct, atype);
    }

    /**
     * The rest of readRequest once ATYP is read: DST.ADDR according to ATYP,
     * then DST.PORT, which is read even when ATYP is unknown. `correct` tells
     * whether CMD and RSV were acceptable.
     */
    method ReadDestinationAndPort(correct: bool, atype: int) returns (r: Result<bool>)
      requires Valid()
      modifies this`pos, this`address, this`port
      ensures Valid()
      ensures var o := DecodeDestination(input, old(pos), RequestFields(command, old(address), old(port)), correct, atype);
              r == o.result && pos == o.next && address == o.fields.address && port == o.fields.port
    {
      var stillCorrect := correct;
      var destination := ReadDestination(atype);
      match destination {
        case Truncated(e, _) =>
          return Err(e);
        case Unrecognized =>
          stillCorrect := false;
        case Captured(x, _) =>
          address := Some(x);
      }
      port := ReadPortNumber();
      return Ok(stillCorrect);
    }

    /**
     * The DST.ADDR branch of readRequest, with ATYP already read: four or
     * sixteen raw bytes, or a length byte and that many bytes of host name.
     */
    method ReadDestination(atype: int) returns (d: AddressRead)
      requires pos <= |input|
      modifies this`pos
      ensures d == ReadAddress(input, old(pos), atype)
      ensures d.Captured? ==> WellFormed(d.address)
      ensures pos == (if d.Unrecognized? then old(pos) else d.next)
    {
      if atype == ATYPE_IPV4 {
        var addressBytes := ReadFully(4);
        if addressBytes.Err? {
          return Truncated(addressBytes.error, pos);
        }
        d := Captured(IPv4(addressBytes.value), pos);
      } else if atype == ATYPE_DNS {
        var hostNameLength := Read();
        if hostNameLength < 0 {
          return Truncated(NegativeArraySize, pos);
        }
        var hostName := ReadFully(hostNameLength);
        if hostName.Err? {
          return Truncated(hostName.error, pos);
        }
        d := Captured(Domain(hostName.value), pos);
      } else if atype == ATYPE_IPV6 {
        var addressBytes := ReadFully(16);
        if addressBytes.Err? {
          return Truncated(addressBytes.error, pos);
        }
        d := Captured(IPv6(addressBytes.value), pos);
      } else {
        d := Unrecognized;
      }
    }

    /** The port expression of readRequest: two reads, the first shifted left by 8 and OR-ed with the second. */
    method ReadPortNumber() returns (v: int)
      requires pos <= |input|
      modifies this`pos
      ensures v == PortAt(input, old(pos)) && pos == Min(old(pos) + 2, |input|)
      ensures v == -1 || 0 <= v <= 0xFFFF
    {
      var high := Read();
      var low := Read();
      v := JavaInt.ShiftOr(high, low);
    }

    /** Writes the ten-byte reply: REP is the response code, BND.ADDR 0.0.0.0, BND.PORT 0. */
    method SendReply(response: ResponseCode)
      modifies this`output
      ensures output == old(output) + ReplyFrame(response)
    {
      var responseBytes := [SOCKS_VERSION, GetCode(response), 0x00, ATYPE_IPV4, 0x00, 0x00, 0x00, 0x00, 0x00, 0x00];
      output := output + responseBytes;
    }

    /** The command of the last request, or None if none was recognised. */
    function GetCommand(): Option<Command>
      reads this
    {
      command
    }

    /** The address of the last request that had one, with its wire length. */
    function GetAddress(): (a: Option<Address>)
      reads this
      requires Valid()
      ensures a.Some? ==> WellFormed(a.value)
    {
      address
    }

    /** The port of the last request: a 16-bit value, or -1. */
    function GetPort(): (p: int)
      reads this
      requires Valid()
      ensures p == -1 || 0 <= p <= 0xFFFF
    {
      port
    }
  }
}
