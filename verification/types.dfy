/**
 * The value types of the SOCKS5 server of simplesocks: the two request
 * commands, the nine reply codes, the three forms of a destination address,
 * and the outcome of an exchange that may end in an I/O exception.
 */
module Socks5Types {

  /** The exceptions the handshake can raise, one constructor per Java exception. */
  datatype IoError =
    | UnsupportedProtocol   // IOException("Unsupported protocol"): the version byte is not 5
    | EndOfStream           // EOFException from DataInputStream.readFully
    | NegativeArraySize     // NegativeArraySizeException: a length byte read as -1 at end of input

  /** Either a returned value or the exception that ended the call. */
  datatype Result<+T> = Ok(value: T) | Err(error: IoError)

  /** A possibly-null reference. */
  datatype Option<+T> = None | Some(value: T)

  /** A byte as InputStream.read() returns it when input is available. */
  type Byte = b: int | 0 <= b <= 0xFF

  /** The protocol version byte of RFC 1928. */
  const SOCKS_VERSION: Byte := 0x05

  // ---------------------------------------------------------------------
  // Commands (CMD field of a request)
  // ---------------------------------------------------------------------

  datatype Command = Connect | Bind

  /** The wire number of a command. */
  function CommandNumber(c: Command): (n: int)
    ensures 1 <= n <= 2
  {
    match c
    case Connect => 0x01
    case Bind => 0x02
  }

  /** Maps a CMD byte (or -1 at end of input) to a command; None stands for Java's null. */
  function CommandFromNumber(n: int): (c: Option<Command>)
    ensures c.Some? <==> n == 1 || n == 2
    ensures c.Some? ==> CommandNumber(c.value) == n
  {
    if n == CommandNumber(Connect) then Some(Connect)
    else if n == CommandNumber(Bind) then Some(Bind)
    else None
  }

  /** fromCommandNumber undoes commandNumber. */
  lemma CommandNumberLeftInverse(c: Command)
    ensures CommandFromNumber(CommandNumber(c)) == Some(c)
  {
  }

  /** Two commands with the same number are the same command. */
  lemma CommandNumberInjective(c: Command, d: Command)
    ensures CommandNumber(c) == CommandNumber(d) ==> c == d
  {
    CommandNumberLeftInverse(c);
    CommandNumberLeftInverse(d);
  }

  // ---------------------------------------------------------------------
  // Reply codes (REP field of a reply)
  // ---------------------------------------------------------------------

  datatype ResponseCode =
    | Success
    | GeneralFailure
    | RulesetDenied
    | NetworkUnreachable
    | HostUnreachable
    | ConnectionRefused
    | TtlExpired
    | CommandNotSupported
    | AddressTypeNotSupported

  /** The wire byte of a reply code. */
  function GetCode(r: ResponseCode): (b: Byte)
    ensures b <= 0x08
  {
    match r
    case Success => 0x00
    case GeneralFailure => 0x01
    case RulesetDenied => 0x02
    case NetworkUnreachable => 0x03
    case HostUnreachable => 0x04
    case ConnectionRefused => 0x05
    case TtlExpired => 0x06
    case CommandNotSupported => 0x07
    case AddressTypeNotSupported => 0x08
  }

  /** The reply code carried by a REP byte, if any: the inverse of GetCode. */
  function ResponseCodeFromByte(b: int): (r: Option<ResponseCode>)
    ensures r.Some? <==> 0 <= b <= 0x08
    ensures r.Some? ==> GetCode(r.value) == b
  {
    match b
    case 0x00 => Some(Success)
    case 0x01 => Some(GeneralFailure)
    case 0x02 => Some(RulesetDenied)
    case 0x03 => Some(NetworkUnreachable)
    case 0x04 => Some(HostUnreachable)
    case 0x05 => Some(ConnectionRefused)
    case 0x06 => Some(TtlExpired)
    case 0x07 => Some(CommandNotSupported)
    case 0x08 => Some(AddressTypeNotSupported)
    case _ => None
  }

  /** Decoding the byte of a reply code gives the code back. */
  lemma ResponseCodeRoundTrip(r: ResponseCode)
    ensures ResponseCodeFromByte(GetCode(r)) == Some(r)
  {
  }

  /** The nine reply codes have nine distinct wire bytes. */
  lemma GetCodeInjective(r1: ResponseCode, r2: ResponseCode)
    ensures GetCode(r1) == GetCode(r2) ==> r1 == r2
  {
    ResponseCodeRoundTrip(r1);
    ResponseCodeRoundTrip(r2);
  }

  // ---------------------------------------------------------------------
  // Destination addresses (ATYP and DST.ADDR fields of a request)
  // ---------------------------------------------------------------------

  const ATYPE_IPV4: Byte := 0x01
  const ATYPE_DNS: Byte := 0x03
  const ATYPE_IPV6: Byte := 0x04

  /**
   * The address a request names. A host name is kept as the raw bytes that
   * were read (no DNS resolution); an IP address as its raw bytes.
   */
  datatype Address =
    | IPv4(bytes: seq<Byte>)
    | IPv6(bytes: seq<Byte>)
    | Domain(name: seq<Byte>)

  /** The byte length an address has on the wire. */
  predicate WellFormed(a: Address) {
    match a
    case IPv4(b) => |b| == 4
    case IPv6(b) => |b| == 16
    case Domain(n) => |n| <= 0xFF
  }

  /** The ATYP byte announcing an address of this form. */
  function AddressType(a: Address): (atyp: int)
    ensures atyp == ATYPE_IPV4 || atyp == ATYPE_DNS || atyp == ATYPE_IPV6
  {
    match a
    case IPv4(_) => ATYPE_IPV4
    case IPv6(_) => ATYPE_IPV6
    case Domain(_) => ATYPE_DNS
  }
}
