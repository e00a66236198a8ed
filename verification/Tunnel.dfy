/** The tunnel's own request and response messages. */
module Tunnel {
  import opened Bytes
  import opened Streams
  import opened Socks5
  import opened Utf8

  const MAGIC: seq<byte> := [73, 82, 80, 88]  // "IRPX"
  const VERSION: byte := 1
  const CMD_CONNECT: byte := 1

  datatype TunnelError =
    | Broken
    | BadMagic
    | BadVersion(b: byte)
    | BadCommand(b: byte)
    | BadAddressType(b: byte)
    | BadDomain
    | DomainTooLong
    | BadStatus(b: byte)

  function AsTunnelError(error: SocksError): TunnelError {
    match error
    case UnsupportedAddressType(b) => BadAddressType(b)
    case InvalidDomain => BadDomain
    case _ => Broken
  }

  const PREAMBLE: seq<byte> := MAGIC + [VERSION, CMD_CONNECT]

  function RequestBytes(request: ConnectRequest): seq<byte>
    requires IsEncodable(request.target)
  {
    PREAMBLE + ([AddressType(request.target)] + (U16Bytes(request.port) + AddressBytes(request.target)))
  }

  /** The domain errors are found only after the preamble is out. */
  method WriteRequest(writer: Writer, request: ConnectRequest) returns (done: Result<(), TunnelError>)
    modifies writer`output, writer`outcomes
    ensures old(writer.output) <= writer.output
    ensures IsEncodable(request.target) ==>
              && writer.output <= old(writer.output) + RequestBytes(request)
              && (done.Ok? || done == Err(Broken))
              && (done.Ok? ==> writer.output == old(writer.output) + RequestBytes(request))
    ensures !IsEncodable(request.target) ==>
              && writer.output <= old(writer.output) + PREAMBLE
              && done.Err?
              && (done.error != Broken ==>
                    done.error == if ValidateDomain(request.target.name) then DomainTooLong else BadDomain)
    ensures old(writer.Reliable()) ==> done.Ok? == IsEncodable(request.target) && done != Err(Broken)
  {
    ghost var target := request.target;
    var ok := writer.WriteAll(MAGIC);
    if !ok { return Err(Broken); }
    ok := writer.WriteAll([VERSION]);
    if !ok { return Err(Broken); }
    ok := writer.WriteAll([CMD_CONNECT]);
    if !ok { return Err(Broken); }
    assert writer.output == old(writer.output) + PREAMBLE;
    if request.target.Domain? {
      if !ValidateDomain(request.target.name) {
        return Err(BadDomain);
      }
      if |request.target.name| > 255 {
        return Err(DomainTooLong);
      }
    }
    ok := WriteAddress(writer, request);
    if !ok { return Err(Broken); }
    return Ok(());
  }

  method WriteAddress(writer: Writer, request: ConnectRequest) returns (ok: bool)
    requires IsEncodable(request.target)
    modifies writer`output, writer`outcomes
    ensures var bytes := [AddressType(request.target)] + (U16Bytes(request.port) + AddressBytes(request.target));
            old(writer.output) <= writer.output <= old(writer.output) + bytes
            && (ok ==> writer.output == old(writer.output) + bytes)
    ensures old(writer.Reliable()) ==> ok && writer.Reliable()
  {
    ghost var front := writer.output + [AddressType(request.target)];
    Regroup(writer.output, [AddressType(request.target)], U16Bytes(request.port) + AddressBytes(request.target));
    ok := writer.WriteAll([AddressType(request.target)]);
    if !ok { return; }
    Regroup(front, U16Bytes(request.port), AddressBytes(request.target));
    ok := writer.WriteAll(U16Bytes(request.port));
    if !ok { return; }
    ok := WriteTarget(writer, request.target);
  }

  method WriteTarget(writer: Writer, target: TargetAddr) returns (ok: bool)
    requires IsEncodable(target)
    modifies writer`output, writer`outcomes
    ensures old(writer.output) <= writer.output <= old(writer.output) + AddressBytes(target)
    ensures ok ==> writer.output == old(writer.output) + AddressBytes(target)
    ensures old(writer.Reliable()) ==> ok && writer.Reliable()
  {
    match target
    case V4(octets) => ok := writer.WriteAll(octets);
    case V6(octets) => ok := writer.WriteAll(octets);
    case Domain(name) =>
      Regroup(writer.output, [|name|], name);
      ok := writer.WriteAll([|name|]);
      if !ok { return; }
      ok := writer.WriteAll(name);
  }

  // -------------------------------------------------------------- reading requests

  /** Magic and version at the start of `s`: six or more bytes are not needed to refuse. */
  function MagicOutcome(s: seq<byte>): (r: Result<(), TunnelError>)
    ensures r.Ok? <==> MAGIC + [VERSION] <= s
  {
    if |s| < 4 then Err(Broken)
    else if s[..4] != MAGIC then Err(BadMagic)
    else if |s| < 5 then Err(Broken)
    else if s[4] != VERSION then Err(BadVersion(s[4]))
    else assert s[..5] == MAGIC + [VERSION]; Ok(())
  }

  method ReadMagicAndVersion(reader: Reader) returns (done: Result<(), TunnelError>)
    requires reader.Valid() && reader.Settled()
    modifies reader`buffer, reader`fetched
    ensures reader.Valid() && done == MagicOutcome(old(reader.Rest()))
    ensures done.Ok? ==> reader.Settled() && reader.Rest() == old(reader.Rest())[5..]
  {
    var magic := reader.ReadExact(4);
    if magic.None? {
      return Err(Broken);
    }
    assert old(reader.Rest())[..4] == magic.value;
    if magic.value != MAGIC {
      return Err(BadMagic);
    }
    var version := reader.ReadU8();
    if version.None? {
      return Err(Broken);
    }
    if version.value != VERSION {
      return Err(BadVersion(version.value));
    }
    return Ok(());
  }

  /** The request at the start of `s`, and its length. */
  function RequestOutcome(s: seq<byte>): (r: Result<(ConnectRequest, nat), TunnelError>)
    ensures r.Ok? ==> 9 <= r.value.1 <= |s|
  {
    match MagicOutcome(s)
    case Err(e) => Err(e)
    case Ok(_) =>
      if |s| < 6 then Err(Broken)
      else if s[5] != CMD_CONNECT then Err(BadCommand(s[5]))
      else if |s| < 9 then Err(Broken)
      else
        match AddressOutcome(s[6], s[9..])
        case Err(e) => Err(AsTunnelError(e))
        case Ok((target, n)) => Ok((ConnectRequest(target, U16Value(s[7], s[8])), 9 + n))
  }

  /** Address type, port and address, the rest of a request `s`. */
  method ReadTarget(reader: Reader, ghost s: seq<byte>) returns (request: Result<ConnectRequest, TunnelError>)
    requires reader.Valid() && reader.Settled()
    requires MagicOutcome(s).Ok? && |s| >= 6 && s[5] == CMD_CONNECT && reader.Rest() == s[6..]
    modifies reader`buffer, reader`fetched
    ensures reader.Valid()
    ensures match RequestOutcome(s)
            case Err(e) => request == Err(e)
            case Ok((r, n)) => request == Ok(r) && reader.Settled() && reader.Rest() == s[n..]
  {
    var addressType := reader.ReadU8();
    if addressType.None? {
      return Err(Broken);
    }
    var port := reader.ReadExact(2);
    if port.None? {
      return Err(Broken);
    }
    assert s[9..] == reader.Rest();
    var target := ReadAddress(addressType.value, reader);
    if target.Err? {
      return Err(AsTunnelError(target.error));
    }
    return Ok(ConnectRequest(target.value, U16Value(port.value[0], port.value[1])));
  }

  method ReadRequest(reader: Reader) returns (request: Result<ConnectRequest, TunnelError>)
    requires reader.Valid() && reader.Settled()
    modifies reader`buffer, reader`fetched
    ensures reader.Valid()
    ensures match RequestOutcome(old(reader.Rest()))
            case Err(e) => request == Err(e)
            case Ok((r, n)) => request == Ok(r) && reader.Settled() && reader.Rest() == old(reader.Rest())[n..]
  {
    var magic := ReadMagicAndVersion(reader);
    if magic.Err? {
      return Err(magic.error);
    }
    var command := reader.ReadU8();
    if command.None? {
      return Err(Broken);
    }
    if command.value != CMD_CONNECT {
      return Err(BadCommand(command.value));
    }
    assert reader.Rest() == old(reader.Rest())[6..];
    request := ReadTarget(reader, old(reader.Rest()));
  }

  /** Reading a request inverts writing it and leaves what follows unread. */
  lemma RequestRoundTrip(request: ConnectRequest, rest: seq<byte>)
    requires IsEncodable(request.target)
    ensures RequestOutcome(RequestBytes(request) + rest) == Ok((request, |RequestBytes(request)|))
  {
    var s := RequestBytes(request) + rest;
    assert s[9..] == AddressBytes(request.target) + rest;
    AddressRoundTrip(request.target, rest);
  }

  /** Whatever is read as a request is exactly that request as written. */
  lemma RequestIsCanonical(s: seq<byte>)
    requires RequestOutcome(s).Ok?
    ensures var (request, n) := RequestOutcome(s).value;
            IsEncodable(request.target) && s[..n] == RequestBytes(request)
  {
    AddressIsCanonical(s[6], s[9..]);
    U16IsCanonical(s[7], s[8]);
    SplitRequest(s, RequestOutcome(s).value.1);
  }

  lemma SplitRequest(s: seq<byte>, n: nat)
    requires 9 <= n <= |s|
    requires MAGIC + [VERSION] <= s && s[5] == CMD_CONNECT
    ensures s[..n] == PREAMBLE + ([s[6]] + ([s[7], s[8]] + s[9..][..n - 9]))
  {
  }

  /** The layout: magic, version, command, address type, port in network order, address. */
  lemma RequestWireFormat(target: TargetAddr, high: byte, low: byte)
    requires IsEncodable(target)
    ensures RequestBytes(ConnectRequest(target, 256 * high + low)) ==
            match target
            case V4(octets) => Ascii("IRPX") + [1, 1, 1, high, low] + octets
            case Domain(name) => Ascii("IRPX") + [1, 1, 3, high, low, |name|] + name
            case V6(octets) => Ascii("IRPX") + [1, 1, 4, high, low] + octets
  {
    U16IsCanonical(high, low);
    assert MAGIC == Ascii("IRPX");
  }

  /** A request cut short is broken, */
  lemma CutRequestFails(request: ConnectRequest, cut: nat)
    requires IsEncodable(request.target) && cut < |RequestBytes(request)|
    ensures RequestOutcome(RequestBytes(request)[..cut]) == Err(Broken)
  {
    var s, address := RequestBytes(request)[..cut], AddressBytes(request.target);
    if cut >= 4 {
      assert s[..4] == MAGIC;
    }
    if cut >= 5 {
      assert MAGIC + [VERSION] <= s;
    }
    if cut >= 9 {
      assert s[9..] == address[..cut - 9];
    }
  }

  /** and one that is not of this protocol is refused by the first thing that is wrong, as soon as it is there. */
  lemma OtherRequestsAreNamed(magic: seq<byte>, version: byte, command: byte, addressType: byte,
                              high: byte, low: byte, rest: seq<byte>)
    requires |magic| == 4
    ensures magic != MAGIC ==> RequestOutcome(magic + rest) == Err(BadMagic)
    ensures version != 1 ==> RequestOutcome((MAGIC + [version]) + rest) == Err(BadVersion(version))
    ensures command != 1 ==> RequestOutcome((MAGIC + [1, command]) + rest) == Err(BadCommand(command))
    ensures addressType !in [1, 3, 4] ==>
              RequestOutcome((MAGIC + [1, 1, addressType, high, low]) + rest) == Err(BadAddressType(addressType))
  {
    assert (magic + rest)[..4] == magic && ((MAGIC + [version]) + rest)[..4] == MAGIC;
    assert ((MAGIC + [1, command]) + rest)[..5] == MAGIC + [1];
    assert ((MAGIC + [1, 1, addressType, high, low]) + rest)[..5] == MAGIC + [1];
  }

  lemma BadDomainsAreNamed(s: seq<byte>, name: seq<byte>, rest: seq<byte>)
    requires MAGIC + [1] <= s && |s| >= 9 && s[5] == 1 && s[6] == 3 && s[9..] == [|name|] + (name + rest)
    requires |name| < 256 && !(IsUtf8(name) && ValidateDomain(name))
    ensures RequestOutcome(s) == Err(BadDomain)
  {
    Socks5.BadDomainsAreNamed(name, rest);
  }

  /** No request is a proper prefix of another: the stream after it is cut unambiguously. */
  lemma RequestsArePrefixFree(a: ConnectRequest, b: ConnectRequest)
    requires IsEncodable(a.target) && IsEncodable(b.target)
    requires RequestBytes(a) <= RequestBytes(b)
    ensures a == b
  {
    RequestRoundTrip(a, RequestBytes(b)[|RequestBytes(a)|..]);
    RequestRoundTrip(b, []);
    assert RequestBytes(b) == RequestBytes(a) + RequestBytes(b)[|RequestBytes(a)|..];
    assert RequestBytes(b) + [] == RequestBytes(b);
  }

  /** A request accepted from a SOCKS client crosses the tunnel unchanged, whatever follows it. */
  lemma SocksRequestCrossesTunnel(s: seq<byte>, rest: seq<byte>)
    requires ConnectOutcome(s).Ok?
    ensures var (request, n) := ConnectOutcome(s).value;
            && IsEncodable(request.target)
            && RequestOutcome(RequestBytes(request) + rest) == Ok((request, |RequestBytes(request)|))
  {
    ConnectIsCanonical(s);
    RequestRoundTrip(ConnectOutcome(s).value.0, rest);
  }

  // ---------------------------------------------------------------------- responses

  function ResponseBytes(status: ReplyCode): seq<byte> {
    MAGIC + [VERSION, ReplyByte(status), 0, 0]
  }

  lemma ResponseWireFormat(status: ReplyCode)
    ensures ResponseBytes(status) == Ascii("IRPX") + [1, ReplyBytes(status)[1], 0, 0]
  {
    assert MAGIC == Ascii("IRPX");
  }

  method WriteResponse(writer: Writer, status: ReplyCode) returns (ok: bool)
    modifies writer`output, writer`outcomes
    ensures old(writer.output) <= writer.output <= old(writer.output) + ResponseBytes(status)
    ensures ok ==> writer.output == old(writer.output) + ResponseBytes(status)
    ensures old(writer.Reliable()) ==> ok && writer.Reliable()
  {
    ok := writer.WriteAll(MAGIC);
    if !ok { return; }
    ok := writer.WriteAll([VERSION]);
    if !ok { return; }
    ok := writer.WriteAll([ReplyByte(status)]);
    if !ok { return; }
    ok := writer.WriteAll([0, 0]);
  }

  /** The status at the start of `s`; the two reserved bytes are read but not looked at. */
  function ResponseOutcome(s: seq<byte>): Result<ReplyCode, TunnelError>
  {
    match MagicOutcome(s)
    case Err(e) => Err(e)
    case Ok(_) =>
      if |s| < 8 then Err(Broken)
      else
        match ReplyFromByte(s[5])
        case None => Err(BadStatus(s[5]))
        case Some(code) => Ok(code)
  }

  method ReadResponse(reader: Reader) returns (status: Result<ReplyCode, TunnelError>)
    requires reader.Valid() && reader.Settled()
    modifies reader`buffer, reader`fetched
    ensures reader.Valid() && status == ResponseOutcome(old(reader.Rest()))
    ensures status.Ok? ==> reader.Settled() && reader.Rest() == old(reader.Rest())[8..]
  {
    var magic := ReadMagicAndVersion(reader);
    if magic.Err? {
      return Err(magic.error);
    }
    var code := reader.ReadU8();
    if code.None? {
      return Err(Broken);
    }
    var reserved := reader.ReadExact(2);
    if reserved.None? {
      return Err(Broken);
    }
    var reply := ReplyFromByte(code.value);
    return if reply.Some? then Ok(reply.value) else Err(BadStatus(code.value));
  }

  /** A status is read exactly where a response for it was written, up to the reserved bytes. */
  lemma ResponseMeaning(s: seq<byte>, status: ReplyCode)
    ensures ResponseOutcome(s) == Ok(status) <==> |s| >= 8 && s[..6] == ResponseBytes(status)[..6]
  {
    if |s| >= 8 {
      assert s[..6] == s[..5] + [s[5]];
      assert ResponseBytes(status)[..6] == (MAGIC + [VERSION]) + [ReplyByte(status)];
    }
  }

  /** A whole response with another status byte is refused by it, a shorter one is broken. */
  lemma OtherResponsesAreNamed(status: byte, reserved: seq<byte>)
    requires |reserved| <= 2
    ensures ResponseOutcome(MAGIC + [VERSION, status] + reserved) ==
            if |reserved| < 2 then Err(Broken)
            else if status > 8 then Err(BadStatus(status))
            else Ok(ReplyFromByte(status).value)
  {
    var s := MAGIC + [VERSION, status] + reserved;
    assert MAGIC + [VERSION] <= s && s[..4] == MAGIC;
  }

  lemma ResponseRoundTrip(status: ReplyCode, rest: seq<byte>)
    ensures ResponseOutcome(ResponseBytes(status) + rest) == Ok(status)
  {
    ResponseMeaning(ResponseBytes(status) + rest, status);
  }
}
