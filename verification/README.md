# simplesocks: the SOCKS5 server handshake, modelled in Dafny

simplesocks is a small Java library implementing the server side of the SOCKS5
handshake of RFC 1928. Its class `Socks5Server` is bound to one client
connection. It offers four operations:

- `acceptAuthentication` reads the client's greeting (version, number of methods,
  methods). It replies with "no authentication required" (0x00) if the client
  offered it, else with 0xFF.
- `readRequest` reads a request (version, command, reserved byte, address type,
  address, port). It records the command, the address and the port in the
  server's fields, and returns whether the request was acceptable.
- `sendReply` writes the ten-byte reply frame for a reply code.
- `getCommand`, `getAddress` and `getPort` read the recorded fields.

The nested enums `Command` and `ResponseCode` map commands and reply codes to
their wire numbers.

The model has five modules:

- `Socks5Types` (types.dfy) holds the value types:
  - the two commands and nine reply codes, with their wire numbers and the inverse maps;
  - the three address forms;
  - `Result`, which stands for "returned a value or threw an exception".
- `JavaInt` (javaint.dfy) holds Java's 32-bit `<<` and `|`, as far as the port
  expression `in.read() << 8 | in.read()` uses them.
- `Socks5Wire` (wire.dfy) states each exchange as a pure function of the client's
  input and the position reached in it:
  - `Authenticate` for the greeting, `DecodeRequest` for the request, `ReplyFrame`
    for the reply;
  - the client's side of each exchange: `Greeting`, `EncodeRequest`, `ParseReply`;
  - round-trip lemmas in both directions.
- `Simplesocks` (server.dfy) holds the class `Socks5Server`. The connection is
  `input`, every byte the client sends. The field `pos` counts the bytes
  consumed. The field `output` holds every byte written so far. The fields
  `command`, `address` and `port` are updated in place as in the Java. Each
  method reads byte by byte as the Java does, and is proved to agree with the
  matching `Socks5Wire` function.
- `Socks5Scenarios` (scenarios.dfy) drives a new server through the exchanges of
  the unit tests on their concrete inputs, and through a general session: a
  greeting offering 0x00 followed by any well-formed request.

Exceptions are values of `IoError`:
- `UnsupportedProtocol` is the `IOException` for a version byte other than 5.
- `EndOfStream` is the `EOFException` of `readFully`.
- `NegativeArraySize` is raised by `new byte[-1]` when a length byte is read at
  end of input.

`InputStream.read()` returns -1 once the input is exhausted, and keeps returning
it. The model keeps this, because `readRequest` does not check it: a command,
reserved byte or address type read past the end is just an invalid value, and
the port becomes -1.

## Model

| member | source | states |
|---|---|---|
| Socks5Types.CommandNumber | simplesocks/src/main/java/org/connectbot/simplesocks/Socks5Server.java:39-61 | CONNECT is 1 and BIND is 2: every command number is 1 or 2 |
| Socks5Types.CommandFromNumber | simplesocks/src/main/java/org/connectbot/simplesocks/Socks5Server.java:43-51 | a command is found iff the number is 1 or 2, and it is the command with that number; any other number (including -1) gives null |
| Socks5Types.CommandNumberLeftInverse | simplesocks/src/main/java/org/connectbot/simplesocks/Socks5Server.java:43-61 | fromCommandNumber(c.commandNumber()) is c for both commands |
| Socks5Types.CommandNumberInjective | simplesocks/src/main/java/org/connectbot/simplesocks/Socks5Server.java:39-41 | the two commands have distinct numbers |
| Socks5Types.GetCode | simplesocks/src/main/java/org/connectbot/simplesocks/Socks5Server.java:64-83 | every reply code is a byte in 0x00..0x08 |
| Socks5Types.ResponseCodeFromByte | simplesocks/src/main/java/org/connectbot/simplesocks/Socks5Server.java:64-83 | the reply code a client reads from a REP byte: one exists iff the byte is in 0x00..0x08, and getCode gives the byte back |
| Socks5Types.ResponseCodeRoundTrip | simplesocks/src/main/java/org/connectbot/simplesocks/Socks5Server.java:64-83 | reading back getCode(r) gives r, for all nine codes |
| Socks5Types.GetCodeInjective | simplesocks/src/main/java/org/connectbot/simplesocks/Socks5Server.java:65-73 | the nine codes have nine distinct bytes |
| Socks5Types.AddressType | simplesocks/src/main/java/org/connectbot/simplesocks/Socks5Server.java:27-34 | an address announces itself as ATYP 0x01, 0x03 or 0x04 |
| JavaInt.Int32 | simplesocks/src/main/java/org/connectbot/simplesocks/Socks5Server.java:164 | wrap-around to a Java int: the result is in the int range, and an int is left unchanged |
| JavaInt.ShiftLeft8 | simplesocks/src/main/java/org/connectbot/simplesocks/Socks5Server.java:164 | `x << 8` always gives a Java int, and it is x * 256 whenever that does not overflow (as for a byte or -1) |
| JavaInt.Or | simplesocks/src/main/java/org/connectbot/simplesocks/Socks5Server.java:164 | bitwise OR on two's-complement ints: -1 if either side is -1, non-negative when both are, negative when either is |
| JavaInt.OrOfDisjoint | simplesocks/src/main/java/org/connectbot/simplesocks/Socks5Server.java:164 | OR-ing a value below 2^k into a multiple of 2^k adds them (induction on k) |
| JavaInt.ShiftOr | simplesocks/src/main/java/org/connectbot/simplesocks/Socks5Server.java:164 | the OR of hi shifted left by 8 and lo is hi * 256 + lo on two bytes, and -1 whenever the second read gave -1 |
| Socks5Wire.ByteAt | simplesocks/src/main/java/org/connectbot/simplesocks/Socks5Server.java:103 | read() gives a byte or -1 |
| Socks5Wire.Advance | simplesocks/src/main/java/org/connectbot/simplesocks/Socks5Server.java:103 | read() consumes one byte, or none at end of input |
| Socks5Wire.Authenticate | simplesocks/src/main/java/org/connectbot/simplesocks/Socks5Server.java:100-113 | version not 5 throws "Unsupported protocol"; the call returns iff version is 5 and NMETHODS and all the methods are present, and then it has consumed exactly 2 + NMETHODS bytes and returns true iff 0x00 is among the methods; any other failure consumes the whole input |
| Socks5Wire.AuthReply | simplesocks/src/main/java/org/connectbot/simplesocks/Socks5Server.java:115-122 | the reply is two bytes, 0x05 then 0x00 if accepted and 0xFF if not |
| Socks5Wire.AuthenticateGreeting | simplesocks/src/main/java/org/connectbot/simplesocks/Socks5Server.java:100-124 | a client greeting, wherever it stands in the input, is accepted iff it offers 0x00, and exactly its bytes are consumed |
| Socks5Wire.AuthenticatedIsGreeting | simplesocks/src/main/java/org/connectbot/simplesocks/Socks5Server.java:100-113 | conversely, whatever a returning negotiation consumed is a client greeting |
| Socks5Wire.ReadAddress | simplesocks/src/main/java/org/connectbot/simplesocks/Socks5Server.java:146-162 | a captured address ends within the input; a truncated one consumed the whole input |
| Socks5Wire.ReadAddressCapture | simplesocks/src/main/java/org/connectbot/simplesocks/Socks5Server.java:146-162 | no address is read iff ATYP is unknown; IPv4 is captured iff 4 bytes remain, IPv6 iff 16, a host name iff its length byte and that many bytes remain; a captured address is well-formed, has the ATYP read, and is exactly the bytes consumed |
| Socks5Wire.ReadEncodedAddress | simplesocks/src/main/java/org/connectbot/simplesocks/Socks5Server.java:146-162 | an encoded address of any form is read back as itself, consuming exactly its encoding |
| Socks5Wire.DecodeRequest | simplesocks/src/main/java/org/connectbot/simplesocks/Socks5Server.java:132-167 | version not 5 throws, consumes one byte and changes no field; the cursor never moves backwards or past the end |
| Socks5Wire.DecodeDestination | simplesocks/src/main/java/org/connectbot/simplesocks/Socks5Server.java:146-166 | the rest of readRequest never moves the cursor backwards or past the end |
| Socks5Wire.ReadPort | simplesocks/src/main/java/org/connectbot/simplesocks/Socks5Server.java:164-166 | the port read returns `correct`, keeps command and address, and consumes up to two bytes |
| Socks5Wire.PortAt | simplesocks/src/main/java/org/connectbot/simplesocks/Socks5Server.java:164 | the value of the port expression: -1 iff fewer than two bytes remain, else a 16-bit value whose high and low bytes are the two bytes read |
| Socks5Wire.DestinationResult | simplesocks/src/main/java/org/connectbot/simplesocks/Socks5Server.java:146-166 | after ATYP, the result is true iff CMD and RSV were acceptable and ATYP is known; an exception comes only from a known ATYP, leaves the fields unchanged and consumes the whole input |
| Socks5Wire.DestinationAddress | simplesocks/src/main/java/org/connectbot/simplesocks/Socks5Server.java:146-166 | after a known ATYP, a returned request holds a well-formed address equal to the bytes that follow, and the port is read right after it |
| Socks5Wire.DestinationUnknown | simplesocks/src/main/java/org/connectbot/simplesocks/Socks5Server.java:160-164 | after an unknown ATYP the result is false, the address field is unchanged, and the port is read right after ATYP |
| Socks5Wire.RequestValidity | simplesocks/src/main/java/org/connectbot/simplesocks/Socks5Server.java:132-166 | readRequest returns true iff CMD is 1 or 2, RSV is 0 and ATYP is 1, 3 or 4; the command is recorded once the version passes; every exception leaves address and port unchanged, and after the version check it comes only from a known ATYP with a truncated address |
| Socks5Wire.UnknownAddressTypeKeepsAddress | simplesocks/src/main/java/org/connectbot/simplesocks/Socks5Server.java:160-164 | an unknown ATYP returns false, consumes no address bytes, keeps the previous address, and takes the port from the two bytes after ATYP |
| Socks5Wire.KnownAddressTypeCapturesAddress | simplesocks/src/main/java/org/connectbot/simplesocks/Socks5Server.java:146-164 | a known ATYP on a returning request captures the address verbatim right after ATYP, whether or not CMD and RSV were valid |
| Socks5Wire.PortOfRequest | simplesocks/src/main/java/org/connectbot/simplesocks/Socks5Server.java:164 | the port of a returning request is either -1 with the input exhausted, or the big-endian 16-bit value of the last two bytes consumed |
| Socks5Wire.PortBytesDigits | simplesocks/src/main/java/org/connectbot/simplesocks/Socks5Server.java:164 | the two port bytes are [hi, lo] iff the port is hi * 256 + lo |
| Socks5Wire.DecodeEncodedRequest | simplesocks/src/main/java/org/connectbot/simplesocks/Socks5Server.java:132-167 | any well-formed request, wherever it stands in the input, decodes to true with its own command, address and port, consuming exactly its bytes |
| Socks5Wire.DecodedRequestIsEncoded | simplesocks/src/main/java/org/connectbot/simplesocks/Socks5Server.java:132-167 | conversely, a request decoded to true with a port consumed exactly the encoding of the command, address and port it recorded |
| Socks5Wire.ParseReply | simplesocks/src/main/java/org/connectbot/simplesocks/Socks5Server.java:169-179 | a frame the client accepts is 10 bytes long and carries the code's byte as REP |
| Socks5Wire.ReplyFrame | simplesocks/src/main/java/org/connectbot/simplesocks/Socks5Server.java:169-179 | the reply is 10 bytes, and a client reads it back as the code sent |
| Socks5Wire.ParsedReplyIsFrame | simplesocks/src/main/java/org/connectbot/simplesocks/Socks5Server.java:169-179 | every frame a client accepts is the reply of exactly one code |
| Simplesocks.Socks5Server.Valid | simplesocks/src/main/java/org/connectbot/simplesocks/Socks5Server.java:86-93 | the class invariant every method keeps: the cursor stays in the input, a recorded address has its wire length, and the port is -1 or 16 bits |
| Simplesocks.Socks5Server.constructor | simplesocks/src/main/java/org/connectbot/simplesocks/Socks5Server.java:86-98 | a new server has consumed and written nothing, command and address are null, and port is -1 |
| Simplesocks.Socks5Server.Read | simplesocks/src/main/java/org/connectbot/simplesocks/Socks5Server.java:103 | in.read() gives the byte at the cursor and moves past it, or -1 at end of input |
| Simplesocks.Socks5Server.ReadFully | simplesocks/src/main/java/org/connectbot/simplesocks/Socks5Server.java:105 | readFully yields the next n bytes, or EOFException after consuming the rest |
| Simplesocks.Socks5Server.CheckProtocolVersion | simplesocks/src/main/java/org/connectbot/simplesocks/Socks5Server.java:126-130 | passes iff the byte read is 5; the byte is consumed either way |
| Simplesocks.Socks5Server.OffersNoAuthentication | simplesocks/src/main/java/org/connectbot/simplesocks/Socks5Server.java:107-113 | the loop with early exit finds success iff 0x00 is among the methods |
| Simplesocks.Socks5Server.AcceptAuthentication | simplesocks/src/main/java/org/connectbot/simplesocks/Socks5Server.java:100-124 | result and new cursor are those of Authenticate; the two reply bytes are written only when the call returns; no request field changes |
| Simplesocks.Socks5Server.ReadRequest | simplesocks/src/main/java/org/connectbot/simplesocks/Socks5Server.java:132-167 | result, cursor, command, address and port are those of DecodeRequest from the old cursor and fields; nothing is written |
| Simplesocks.Socks5Server.ReadDestinationAndPort | simplesocks/src/main/java/org/connectbot/simplesocks/Socks5Server.java:146-166 | the address branch and the port read agree with DecodeDestination |
| Simplesocks.Socks5Server.ReadDestination | simplesocks/src/main/java/org/connectbot/simplesocks/Socks5Server.java:146-162 | the address branch agrees with ReadAddress, and a captured address is well-formed |
| Simplesocks.Socks5Server.ReadPortNumber | simplesocks/src/main/java/org/connectbot/simplesocks/Socks5Server.java:164 | the Java port expression (two reads, the first shifted left by 8 and OR-ed with the second) is the big-endian port when two bytes remain and -1 otherwise |
| Simplesocks.Socks5Server.SendReply | simplesocks/src/main/java/org/connectbot/simplesocks/Socks5Server.java:169-179 | exactly the ten reply bytes of the code are appended to the output |
| Simplesocks.Socks5Server.GetAddress | simplesocks/src/main/java/org/connectbot/simplesocks/Socks5Server.java:185-187 | a recorded address has its wire length (4, 16, or at most 255 bytes) |
| Simplesocks.Socks5Server.GetPort | simplesocks/src/main/java/org/connectbot/simplesocks/Socks5Server.java:189-191 | the port is -1 or in 0..65535 |
| Socks5Scenarios.Authenticated | simplesocks/src/test/java/org/connectbot/simplesocks/Socks5ServerTest.java:45-52 | a greeting offering 0x00 is accepted, the reply is [5, 0], and the server is left at the start of the request |
| Socks5Scenarios.Session | simplesocks/src/main/java/org/connectbot/simplesocks/Socks5Server.java:100-191 | a greeting offering 0x00 and then any well-formed request: both calls return true, and the accessors give back the command, address and port sent |
| Socks5Scenarios.ConnectIPv4 | simplesocks/src/test/java/org/connectbot/simplesocks/Socks5ServerTest.java:96-105 | CONNECT to 192.168.1.1 port 2001 |
| Socks5Scenarios.ConnectDomain | simplesocks/src/test/java/org/connectbot/simplesocks/Socks5ServerTest.java:107-117 | CONNECT to "example.com" port 8888 |
| Socks5Scenarios.ConnectIPv6 | simplesocks/src/test/java/org/connectbot/simplesocks/Socks5ServerTest.java:119-137 | CONNECT to a 16-byte address, port 16302 |
| Socks5Scenarios.BindIPv4 | simplesocks/src/test/java/org/connectbot/simplesocks/Socks5ServerTest.java:139-149 | BIND to 192.168.1.1 port 1080 |
| Socks5Scenarios.MultipleMethods | simplesocks/src/test/java/org/connectbot/simplesocks/Socks5ServerTest.java:54-61 | methods 0x02, 0x01, 0x00 offered: returns true, writes [5, 0], and consumes all five bytes |
| Socks5Scenarios.NotSocks5Greeting | simplesocks/src/test/java/org/connectbot/simplesocks/Socks5ServerTest.java:32-38 | a greeting with version 1 throws "Unsupported protocol" and nothing is written |
| Socks5Scenarios.UnsupportedAuthentication | simplesocks/src/test/java/org/connectbot/simplesocks/Socks5ServerTest.java:63-70 | only method 0x02 offered: returns false and writes [5, 0xFF] |
| Socks5Scenarios.NotSocks5Request | simplesocks/src/test/java/org/connectbot/simplesocks/Socks5ServerTest.java:72-78 | a request with version 1 throws, and no field is set |
| Socks5Scenarios.UnknownCommand | simplesocks/src/test/java/org/connectbot/simplesocks/Socks5ServerTest.java:88-94 | command 0xC0 returns false with command null; the address is still read and, with no port bytes left, the port is -1 |
| Socks5Scenarios.InvalidReserved | simplesocks/src/test/java/org/connectbot/simplesocks/Socks5ServerTest.java:151-156 | RSV 1 returns false; command and address are still recorded and the port is -1 |
| Socks5Scenarios.UnknownAddressType | simplesocks/src/test/java/org/connectbot/simplesocks/Socks5ServerTest.java:158-163 | ATYP 0xA8 returns false, reads no address, and takes the next two bytes (0xC0 0xA8) as the port |
| Socks5Scenarios.SuccessReply | simplesocks/src/test/java/org/connectbot/simplesocks/Socks5ServerTest.java:165-179 | sendReply(SUCCESS) writes 05 00 00 01 00 00 00 00 00 00 |

`getCommand` (Socks5Server.java:181-183) is `Socks5Server.GetCommand`, the plain
field read. Its properties are those of the command recorded by `ReadRequest`.

The other members carry no row of their own. They are definitions the rows
above are stated with, or proof steps for them:
- the client's side of the exchanges: `Greeting`, `EncodeRequest`, `RequestHeader`, `PortBytes` and `AddressBytes` in `Socks5Wire`, and `NoAuthGreeting` in `Socks5Scenarios`;
- the predicates `Socks5Types.WellFormed` and `Socks5Wire.IsAddressType`, and `Socks5Wire.Min`;
- the test data `ExampleCom` and `ExampleIPv6`;
- the sequence-slicing helpers `FramedAt`, `SplitFrame`, `JoinFrame` and `HeaderAt`;
- `DecodeRequestHeader`, `EncodedRequestParts`, `DecodeValidRequest` and `RequestFrame`;
- `SplitSession`, and in `JavaInt` the helpers `Size`, `Pow2`, `HalfShrinks` and `HalveMultiple`.

## Left out

- DNS resolution is not modelled, for either address form:
  - `InetAddress.getByName` at Socks5Server.java:155 resolves a host name; the model keeps the host name as the raw bytes read. The name is therefore never resolved, and an `UnknownHostException` for an unresolvable name is not modelled.
  - `InetAddress.getByAddress` at lines 150 and 159 builds an `InetAddress` from the address bytes; the model keeps the 4 or 16 bytes themselves.
- ReadAddress, DecodeEncodedRequest and Session: an IPv6 address is always recorded as its 16 bytes. For an IPv4-mapped address (`::ffff:a.b.c.d`), `InetAddress.getByAddress` returns an `Inet4Address`, so `getAddress().getAddress()` in Java gives back 4 bytes, not the 16 sent. For those addresses the claim that the accessors give back the address sent holds of the model, not of the Java.
- The streams are not modelled as live connections:
  - the input is the complete sequence of bytes the client will ever send, so blocking on a stalled peer is not represented;
  - I/O failures of the underlying streams other than end of input are not represented;
  - a failure of `out.write` is not represented, and the output only grows.
- `DataInputStream.readFully` is specified by its contract (n bytes, or EOFException after consuming what is left), not by its internal read loop.
- `getCode` returns a Java signed `byte`; for the nine codes, 0x00 to 0x08, this is the same value as the unsigned byte modelled.
- The model follows the code at two points where a reader of the protocol would expect otherwise:
  - The port is not always in 0..65535. It is -1 before any request, and again whenever fewer than two bytes follow the address (or follow ATYP, when ATYP is unknown). `PortOfRequest` and the scenarios `UnknownCommand` and `InvalidReserved` show this.
  - Running out of input raises an exception in three places only. A missing version byte is read as -1 and fails the version check with "Unsupported protocol". A missing length byte (NMETHODS, or a host name's length) gives `new byte[-1]`. A short method list or address makes `readFully` throw EOFException. A missing CMD, RSV, ATYP or port byte is read as -1 and makes the request invalid (or the port -1) without an exception.
- `Socks5Server.ReadRequest` keeps the Java method's order of reads. The address branch and the port read are split out into `ReadDestination`, `ReadDestinationAndPort` and `ReadPortNumber`, so that each part is proved on its own.
- The build script `build.gradle.kts` is not part of this model.
