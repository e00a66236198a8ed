/**
 The SOCKS5 side of the proxy (RFC 1928): method negotiation, the CONNECT request and the
 reply. Each reader is proved to compute a function of the bytes still to be read.
 */
module Socks5 {
  import opened Bytes
  import opened Streams
  import opened Utf8

  // ---------------------------------------------------------------------- values

  type Octets4 = s: seq<byte> | |s| == 4 witness [0, 0, 0, 0]
  type Octets16 = s: seq<byte> | |s| == 16 witness [0, 0, 0, 0, 0, 0, 0, 0, 0, 0, 0, 0, 0, 0, 0, 0]

  datatype TargetAddr = V4(octets4: Octets4) | V6(octets16: Octets16) | Domain(name: Text)

  datatype ConnectRequest = ConnectRequest(target: TargetAddr, port: u16)

  /** Not empty, and free of control characters and blanks. */
  predicate ValidateDomain(name: seq<byte>) {
    name != [] && forall b <- name :: b > 32 && b != 127
  }

  predicate IsControl(b: byte) {
    b < 32 || b == 127
  }

  /** Blank, tab, line feed, form feed, carriage return. */
  predicate IsBlank(b: byte) {
    b in [SPACE, TAB, LF, 12, CR]
  }

  lemma DomainMeaning(name: seq<byte>)
    ensures ValidateDomain(name) <==> name != [] && forall b :: b in name ==> !IsControl(b) && !IsBlank(b)
  {
  }

  datatype ReplyCode =
    | Succeeded
    | GeneralFailure
    | ConnectionNotAllowed
    | NetworkUnreachable
    | HostUnreachable
    | ConnectionRefused
    | TtlExpired
    | CommandNotSupported
    | AddressTypeNotSupported

  function ReplyByte(code: ReplyCode): byte {
    match code
    case Succeeded => 0
    case GeneralFailure => 1
    case ConnectionNotAllowed => 2
    case NetworkUnreachable => 3
    case HostUnreachable => 4
    case ConnectionRefused => 5
    case TtlExpired => 6
    case CommandNotSupported => 7
    case AddressTypeNotSupported => 8
  }

  function ReplyFromByte(b: byte): Option<ReplyCode> {
    match b
    case 0 => Some(Succeeded)
    case 1 => Some(GeneralFailure)
    case 2 => Some(ConnectionNotAllowed)
    case 3 => Some(NetworkUnreachable)
    case 4 => Some(HostUnreachable)
    case 5 => Some(ConnectionRefused)
    case 6 => Some(TtlExpired)
    case 7 => Some(CommandNotSupported)
    case 8 => Some(AddressTypeNotSupported)
    case _ => None
  }

  datatype SocksError =
    | Io
    | UnsupportedVersion(b: byte)
    | NoSupportedAuthMethod
    | UnsupportedCommand(b: byte)
    | UnsupportedAddressType(b: byte)
    | InvalidReserved(b: byte)
    | InvalidDomain

  function ErrorReply(error: SocksError): ReplyCode {
    match error
    case UnsupportedCommand(_) => CommandNotSupported
    case UnsupportedAddressType(_) => AddressTypeNotSupported
    case _ => GeneralFailure
  }

  /** Section 6 of RFC 1928 has codes for a command and an address type that are not supported. */
  lemma ErrorReplyMeaning(error: SocksError)
    ensures ReplyByte(ErrorReply(error)) ==
            if error.UnsupportedCommand? then 7 else if error.UnsupportedAddressType? then 8 else 1
  {
  }

  /** Big-endian. */
  function U16Bytes(n: u16): seq<byte> {
    [n / 256, n % 256]
  }

  function U16Value(high: byte, low: byte): u16 {
    high * 256 + low
  }

  lemma U16IsCanonical(high: byte, low: byte)
    ensures U16Bytes(U16Value(high, low)) == [high, low]
  {
  }

  lemma U16Meaning(n: u16)
    ensures |U16Bytes(n)| == 2 && n as int == 256 * (U16Bytes(n)[0] as int) + U16Bytes(n)[1] as int
    ensures U16Value(U16Bytes(n)[0], U16Bytes(n)[1]) == n
  {
  }

  // -------------------------------------------------------------- target addresses

  function AddressType(target: TargetAddr): byte {
    match target
    case V4(_) => 1
    case Domain(_) => 3
    case V6(_) => 4
  }

  /** A domain is valid and its length fits one byte. */
  predicate IsEncodable(target: TargetAddr) {
    target.Domain? ==> ValidateDomain(target.name) && |target.name| <= 255
  }

  function AddressBytes(target: TargetAddr): seq<byte>
    requires IsEncodable(target)
  {
    match target
    case V4(octets) => octets
    case Domain(name) => [|name|] + name
    case V6(octets) => octets
  }

  /** The address of that type at the start of `s`, and its length. */
  function AddressOutcome(addressType: byte, s: seq<byte>): (r: Result<(TargetAddr, nat), SocksError>)
    ensures r.Ok? ==> r.value.1 <= |s|
  {
    match addressType
    case 1 => if |s| < 4 then Err(Io) else Ok((V4(s[..4]), 4))
    case 3 =>
      var size: nat := if s == [] then 1 else s[0] as nat + 1;
      if |s| < size then Err(Io)
      else
        var name := s[1..size];
        if IsUtf8(name) && ValidateDomain(name) then Ok((Domain(name), size)) else Err(InvalidDomain)
    case 4 => if |s| < 16 then Err(Io) else Ok((V6(s[..16]), 16))
    case _ => Err(UnsupportedAddressType(addressType))
  }

  method ReadAddress(addressType: byte, reader: Reader) returns (target: Result<TargetAddr, SocksError>)
    requires reader.Valid() && reader.Settled()
    modifies reader`buffer, reader`fetched
    ensures reader.Valid()
    ensures match AddressOutcome(addressType, old(reader.Rest()))
            case Err(e) => target == Err(e)
            case Ok((t, n)) => target == Ok(t) && reader.Settled() && reader.Rest() == old(reader.Rest())[n..]
  {
    var size := if addressType == 1 then 4 else 16;
    if addressType == 3 {
      var length := reader.ReadU8();
      if length.None? {
        return Err(Io);
      }
      var name := reader.ReadExact(length.value);
      if name.None? {
        return Err(Io);
      }
      ReadInTurn(old(reader.Rest()), [length.value], name.value, reader.Rest());
      if !IsUtf8(name.value) || !ValidateDomain(name.value) {
        return Err(InvalidDomain);
      }
      return Ok(Domain(name.value));
    }
    if addressType != 1 && addressType != 4 {
      return Err(UnsupportedAddressType(addressType));
    }
    var octets := reader.ReadExact(size);
    if octets.None? {
      return Err(Io);
    }
    return Ok(if addressType == 1 then V4(octets.value) else V6(octets.value));
  }

  /** Reading an address inverts writing it, and reads nothing beyond it. */
  lemma AddressRoundTrip(target: TargetAddr, rest: seq<byte>)
    requires IsEncodable(target)
    ensures AddressOutcome(AddressType(target), AddressBytes(target) + rest) == Ok((target, |AddressBytes(target)|))
  {
    var s := AddressBytes(target) + rest;
    match target
    case V4(octets) => assert s[..4] == octets;
    case V6(octets) => assert s[..16] == octets;
    case Domain(name) => assert s[1..1 + |name|] == name;
  }

  /** Whatever is read as an address is exactly that address as written. */
  lemma AddressIsCanonical(addressType: byte, s: seq<byte>)
    requires AddressOutcome(addressType, s).Ok?
    ensures var (target, n) := AddressOutcome(addressType, s).value;
            IsEncodable(target) && AddressType(target) == addressType && s[..n] == AddressBytes(target)
  {
    if addressType == 3 {
      var size := s[0] as nat + 1;
      assert s[..size] == [s[0]] + s[1..size];
    }
  }

  // ------------------------------------------------------------------ negotiation

  /** How many bytes a greeting that offers "no authentication" takes. */
  function GreetingOutcome(s: seq<byte>): (r: Result<nat, SocksError>)
    ensures r.Ok? ==> r.value <= |s|
  {
    if s == [] then Err(Io)
    else if s[0] != 5 then Err(UnsupportedVersion(s[0]))
    else
      var size: nat := if |s| < 2 then 2 else s[1] as nat + 2;
      if |s| < size then Err(Io)
      else if 0 in s[2..size] then Ok(size)
      else Err(NoSupportedAuthMethod)
  }

  const METHOD_NONE: seq<byte> := [5, 0]
  const METHOD_UNACCEPTABLE: seq<byte> := [5, 255]

  /** A greeting as a client writes it (section 3 of RFC 1928). */
  function GreetingBytes(methods: seq<byte>): seq<byte>
    requires |methods| < 256
  {
    [5, |methods|] + methods
  }

  /** A greeting is accepted exactly if method zero, "no authentication", is offered. */
  lemma GreetingMeaning(methods: seq<byte>, rest: seq<byte>)
    requires |methods| < 256
    ensures GreetingOutcome(GreetingBytes(methods) + rest) ==
            if 0 in methods then Ok(|GreetingBytes(methods)|) else Err(NoSupportedAuthMethod)
  {
    assert (GreetingBytes(methods) + rest)[2..2 + |methods|] == methods;
  }

  /** Whatever is not refused as no greeting is one: of another version, cut short, or as written. */
  lemma GreetingIsCanonical(s: seq<byte>)
    ensures match GreetingOutcome(s)
            case Ok(n) => exists methods :: |methods| < 256 && s[..n] == GreetingBytes(methods)
            case Err(NoSupportedAuthMethod) => exists methods :: |methods| < 256 && GreetingBytes(methods) <= s
            case Err(UnsupportedVersion(b)) => s != [] && s[0] == b != 5
            case Err(e) => e == Io && forall methods :: |methods| < 256 ==> !(GreetingBytes(methods) <= s)
  {
    if |s| >= 2 && s[0] == 5 && s[1] + 2 <= |s| {
      var methods := s[2..s[1] + 2];
      assert s[..s[1] + 2] == GreetingBytes(methods);
    }
  }

  /** Reads the greeting; it must offer "no authentication". */
  method ReadGreeting(reader: Reader) returns (done: Result<(), SocksError>)
    requires reader.Valid() && reader.Settled()
    modifies reader`buffer, reader`fetched
    ensures reader.Valid()
    ensures match GreetingOutcome(old(reader.Rest()))
            case Err(e) => done == Err(e)
            case Ok(n) => done.Ok? && reader.Settled() && reader.Rest() == old(reader.Rest())[n..]
  {
    ghost var s := reader.Rest();
    var version := reader.ReadU8();
    if version.None? {
      return Err(Io);
    }
    if version.value != 5 {
      return Err(UnsupportedVersion(version.value));
    }
    var count := reader.ReadU8();
    if count.None? {
      return Err(Io);
    }
    var methods := reader.ReadExact(count.value);
    if methods.None? {
      return Err(Io);
    }
    Regroup([5, count.value], methods.value, reader.Rest());
    assert s == GreetingBytes(methods.value) + reader.Rest();
    GreetingMeaning(methods.value, reader.Rest());
    return if 0 in methods.value then Ok(()) else Err(NoSupportedAuthMethod);
  }

  method NegotiateNoAuth(reader: Reader, writer: Writer) returns (done: Result<(), SocksError>)
    requires reader.Valid() && reader.Settled()
    modifies reader`buffer, reader`fetched, writer`output, writer`outcomes
    ensures reader.Valid()
    ensures match GreetingOutcome(old(reader.Rest()))
            case Err(NoSupportedAuthMethod) =>
              done.Err? && old(writer.output) <= writer.output <= old(writer.output) + METHOD_UNACCEPTABLE
            case Err(e) => done == Err(e) && writer.output == old(writer.output)
            case Ok(n) =>
              && old(writer.output) <= writer.output <= old(writer.output) + METHOD_NONE
              && (done.Ok? ==> writer.output == old(writer.output) + METHOD_NONE && reader.Settled()
                               && reader.Rest() == old(reader.Rest())[n..])
    ensures old(writer.Reliable()) ==>
              && writer.Reliable() && done.Ok? == GreetingOutcome(old(reader.Rest())).Ok?
              && (GreetingOutcome(old(reader.Rest())) == Err(NoSupportedAuthMethod) ==>
                    done == Err(NoSupportedAuthMethod) && writer.output == old(writer.output) + METHOD_UNACCEPTABLE)
  {
    done := ReadGreeting(reader);
    match done {
      case Ok(_) =>
        var ok := writer.WriteAll(METHOD_NONE);
        return if ok then Ok(()) else Err(Io);
      case Err(NoSupportedAuthMethod) =>
        var ok := writer.WriteAll(METHOD_UNACCEPTABLE);
        return if ok then Err(NoSupportedAuthMethod) else Err(Io);
      case Err(_) =>
    }
  }

  // ---------------------------------------------------------------- the request

  /** The CONNECT request at the start of `s`, and its length. */
  function ConnectOutcome(s: seq<byte>): (r: Result<(ConnectRequest, nat), SocksError>)
    ensures r.Ok? ==> r.value.1 <= |s|
  {
    if s == [] then Err(Io)
    else if s[0] != 5 then Err(UnsupportedVersion(s[0]))
    else if |s| < 4 then Err(Io)
    else if s[1] != 1 then Err(UnsupportedCommand(s[1]))
    else if s[2] != 0 then Err(InvalidReserved(s[2]))
    else
      match AddressOutcome(s[3], s[4..])
      case Err(e) => Err(e)
      case Ok((target, n)) =>
        if |s| < 4 + n + 2 then Err(Io)
        else Ok((ConnectRequest(target, U16Value(s[4 + n], s[5 + n])), 6 + n))
  }

  method ReadConnectRequest(reader: Reader) returns (request: Result<ConnectRequest, SocksError>)
    requires reader.Valid() && reader.Settled()
    modifies reader`buffer, reader`fetched
    ensures reader.Valid()
    ensures match ConnectOutcome(old(reader.Rest()))
            case Err(e) => request == Err(e)
            case Ok((r, n)) => request == Ok(r) && reader.Settled() && reader.Rest() == old(reader.Rest())[n..]
  {
    var version := reader.ReadU8();
    if version.None? {
      return Err(Io);
    }
    if version.value != 5 {
      return Err(UnsupportedVersion(version.value));
    }
    var head := reader.ReadExact(3);
    if head.None? {
      return Err(Io);
    }
    if head.value[0] != 1 {
      return Err(UnsupportedCommand(head.value[0]));
    }
    if head.value[1] != 0 {
      return Err(InvalidReserved(head.value[1]));
    }
    assert old(reader.Rest())[4..] == reader.Rest();
    var target := ReadAddress(head.value[2], reader);
    if target.Err? {
      return Err(target.error);
    }
    ghost var n := AddressOutcome(head.value[2], old(reader.Rest())[4..]).value.1;
    DropTwice(old(reader.Rest()), 4, n);
    var port := reader.ReadExact(2);
    if port.None? {
      return Err(Io);
    }
    DropTwice(old(reader.Rest()), 4 + n, 2);
    return Ok(ConnectRequest(target.value, U16Value(port.value[0], port.value[1])));
  }

  /** A CONNECT request as a client writes it (section 4 of RFC 1928). */
  function ConnectBytes(request: ConnectRequest): seq<byte>
    requires IsEncodable(request.target)
  {
    [5, 1, 0, AddressType(request.target)] + (AddressBytes(request.target) + U16Bytes(request.port))
  }

  lemma ConnectRoundTrip(request: ConnectRequest, rest: seq<byte>)
    requires IsEncodable(request.target)
    ensures ConnectOutcome(ConnectBytes(request) + rest) == Ok((request, |ConnectBytes(request)|))
  {
    var s := ConnectBytes(request) + rest;
    var address := AddressBytes(request.target);
    assert s[4..] == address + (U16Bytes(request.port) + rest);
    AddressRoundTrip(request.target, U16Bytes(request.port) + rest);
  }

  lemma SplitConnect(s: seq<byte>, n: nat)
    requires 6 <= n <= |s|
    ensures s[..n] == [s[0], s[1], s[2], s[3]] + (s[4..][..n - 6] + [s[n - 2], s[n - 1]])
  {
  }

  /** What is accepted as a CONNECT request is exactly one, and it can be sent through the tunnel. */
  lemma ConnectIsCanonical(s: seq<byte>)
    requires ConnectOutcome(s).Ok?
    ensures var (request, n) := ConnectOutcome(s).value;
            IsEncodable(request.target) && s[..n] == ConnectBytes(request)
  {
    AddressIsCanonical(s[3], s[4..]);
    var (request, n) := ConnectOutcome(s).value;
    var address := AddressBytes(request.target);
    U16IsCanonical(s[n - 2], s[n - 1]);
    SplitConnect(s, n);
    assert s[..n] == [5, 1, 0, s[3]] + (address + U16Bytes(request.port));
  }

  /** A request cut short is an I/O error, */
  lemma CutConnectFails(request: ConnectRequest, cut: nat)
    requires IsEncodable(request.target) && cut < |ConnectBytes(request)|
    ensures ConnectOutcome(ConnectBytes(request)[..cut]) == Err(Io)
  {
    var s, address := ConnectBytes(request)[..cut], AddressBytes(request.target);
    if cut >= 4 {
      var rest := s[4..];
      if cut < 4 + |address| {
        assert rest == address[..cut - 4];
      } else {
        assert rest == address + U16Bytes(request.port)[..cut - 4 - |address|];
        AddressRoundTrip(request.target, U16Bytes(request.port)[..cut - 4 - |address|]);
      }
    }
  }

  /** and one that asks for something else is refused by what it asks for, the first such thing. */
  lemma OtherRequestsAreNamed(command: byte, reserved: byte, addressType: byte, rest: seq<byte>)
    ensures forall version: byte :: version != 5 ==>
              ConnectOutcome([version] + rest) == Err(UnsupportedVersion(version))
    ensures var outcome := ConnectOutcome([5, command, reserved, addressType] + rest);
            && (command != 1 ==> outcome == Err(UnsupportedCommand(command)))
            && (command == 1 && reserved != 0 ==> outcome == Err(InvalidReserved(reserved)))
            && (command == 1 && reserved == 0 && addressType !in [1, 3, 4] ==>
                  outcome == Err(UnsupportedAddressType(addressType)))
  {
  }

  lemma BadDomainsAreNamed(name: seq<byte>, rest: seq<byte>)
    requires |name| < 256 && !(IsUtf8(name) && ValidateDomain(name))
    ensures AddressOutcome(3, [|name|] + (name + rest)) == Err(InvalidDomain)
  {
    var s := [|name|] + (name + rest);
    ReadInTurn(s, [|name|], name, rest);
    assert s[1..|name| + 1] == name;
  }

  /** The wire format of section 4 of RFC 1928, with the port in network order. */
  lemma ConnectWireFormat(target: TargetAddr, high: byte, low: byte)
    requires IsEncodable(target)
    ensures ConnectBytes(ConnectRequest(target, 256 * high + low)) ==
            match target
            case V4(octets) => [5, 1, 0, 1] + octets + [high, low]
            case Domain(name) => [5, 1, 0, 3, |name|] + name + [high, low]
            case V6(octets) => [5, 1, 0, 4] + octets + [high, low]
  {
    U16IsCanonical(high, low);
  }

  // ------------------------------------------------------------------- the reply

  /** A reply with an all-zero IPv4 bound address: always ten bytes. */
  function ReplyBytes(code: ReplyCode): seq<byte> {
    [5, ReplyByte(code), 0, 1, 0, 0, 0, 0, 0, 0]
  }

  /** The codes of section 6 of RFC 1928. */
  lemma ReplyWireFormat()
    ensures ReplyBytes(Succeeded) == [5, 0, 0, 1, 0, 0, 0, 0, 0, 0]
    ensures ReplyBytes(GeneralFailure) == [5, 1, 0, 1, 0, 0, 0, 0, 0, 0]
    ensures ReplyBytes(ConnectionNotAllowed) == [5, 2, 0, 1, 0, 0, 0, 0, 0, 0]
    ensures ReplyBytes(NetworkUnreachable) == [5, 3, 0, 1, 0, 0, 0, 0, 0, 0]
    ensures ReplyBytes(HostUnreachable) == [5, 4, 0, 1, 0, 0, 0, 0, 0, 0]
    ensures ReplyBytes(ReplyCode.ConnectionRefused) == [5, 5, 0, 1, 0, 0, 0, 0, 0, 0]
    ensures ReplyBytes(TtlExpired) == [5, 6, 0, 1, 0, 0, 0, 0, 0, 0]
    ensures ReplyBytes(CommandNotSupported) == [5, 7, 0, 1, 0, 0, 0, 0, 0, 0]
    ensures ReplyBytes(AddressTypeNotSupported) == [5, 8, 0, 1, 0, 0, 0, 0, 0, 0]
  {
  }

  lemma ReplyByteRoundTrip(code: ReplyCode, b: byte)
    ensures ReplyFromByte(b) == Some(code) <==> b == ReplyByte(code)
  {
  }

  method WriteReply(writer: Writer, code: ReplyCode) returns (ok: bool)
    modifies writer`output, writer`outcomes
    ensures old(writer.output) <= writer.output <= old(writer.output) + ReplyBytes(code)
    ensures ok ==> writer.output == old(writer.output) + ReplyBytes(code)
    ensures old(writer.Reliable()) ==> ok && writer.Reliable()
  {
    ok := writer.WriteAll(ReplyBytes(code));
  }
}
