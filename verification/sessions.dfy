/**
 * The session: its timeout option, and the protocol work of `connect` with
 * the socket taken out: building the STARTUP request and reading a response
 * header.
 */
module Sessions {
  import opened Wrappers
  import opened Bytes
  import opened Protocol

  datatype Session = Session(protocolVersion: int, timeout: int)

  datatype SessionOption = SessionTimeout(seconds: int)

  /** Runs a session option: the timeout changes and nothing else does. */
  function ApplySessionOption(s: Session, o: SessionOption): (r: Session)
    ensures r.timeout == o.seconds
    ensures r.protocolVersion == s.protocolVersion
  {
    s.(timeout := o.seconds)
  }

  /** Header constants of the STARTUP request. */
  const StartupVersion: uint8 := 0x04
  const StartupFlags: uint8 := 0x00
  const StartupStream: uint16 := 0x0001
  const StartupOpcode: uint8 := 0x01

  const CqlVersionKey: GoString := Ascii("CQL_VERSION")
  const CqlVersionValue: GoString := Ascii("3.0.0")

  /** The STARTUP body: the zero map with the single pair CQL_VERSION = 3.0.0 added. */
  function StartupBody(): (sm: StringMap)
    ensures sm.WellFormed() && sm.num == 1
    ensures sm.pairs == [StringPair(String(11, CqlVersionKey), String(5, CqlVersionValue))]
  {
    AddStringPair(EmptyMap, NewStringPair(CqlVersionKey, CqlVersionValue))
  }

  /** The STARTUP header for a serialised body; its length field is the body's byte count. */
  function StartupHeader(body: seq<uint8>): (f: Frame)
    ensures f.version == 4 && f.flags == 0 && f.stream == 1 && f.opcode == 1
    ensures (f.length - |body|) % 0x1_0000_0000 == 0
    ensures |body| <= MaxUint32 ==> f.length == |body|
  {
    Frame(StartupVersion, StartupFlags, StartupStream, StartupOpcode, ToUint32(|body|))
  }

  /** The request written to the socket: the packed header, then the body verbatim. */
  function SerializeRequest(header: Frame, body: seq<uint8>): (r: seq<uint8>)
    ensures |r| == HeaderSize + |body|
    ensures DecodeHeader(r) == Some(header)
    ensures r[HeaderSize..] == body
  {
    var r := EncodeHeader(header) + body;
    assert r[..HeaderSize] == EncodeHeader(header);
    r
  }

  /**
   * The STARTUP request: the receiver reads back a STARTUP header whose
   * length field covers exactly the rest of the request, and that rest
   * decodes to the CQL_VERSION map.
   */
  function StartupRequest(): (r: seq<uint8>)
    ensures DecodeHeader(r) == Some(Frame(4, 0, 1, 1, 22))
    ensures |r| == HeaderSize + DecodeHeader(r).value.length
    ensures ParseStringMap(r[HeaderSize..]) == Some((StartupBody(), []))
  {
    var body := MarshalBinary(StartupBody());
    MarshalRoundTrip(StartupBody(), []);
    assert body + [] == body;
    SerializeRequest(StartupHeader(body), body)
  }

  /** The key and value bytes of the STARTUP pair. */
  lemma CqlVersionBytes()
    ensures CqlVersionKey == [0x43, 0x51, 0x4C, 0x5F, 0x56, 0x45, 0x52, 0x53, 0x49, 0x4F, 0x4E]
    ensures CqlVersionValue == [0x33, 0x2E, 0x30, 0x2E, 0x30]
  {
  }

  /** The serialised STARTUP body is 22 bytes. */
  lemma StartupBodyBytes()
    ensures MarshalBinary(StartupBody()) ==
      [0x00, 0x01]
      + [0x00, 0x0B] + [0x43, 0x51, 0x4C, 0x5F, 0x56, 0x45, 0x52, 0x53, 0x49, 0x4F, 0x4E]
      + [0x00, 0x05] + [0x33, 0x2E, 0x30, 0x2E, 0x30]
  {
    CqlVersionBytes();
    var p := StartupBody().pairs[0];
    assert EncodePairs([p]) == EncodePair(p) + EncodePairs([]);
  }

  /** The STARTUP request byte for byte: 9 header bytes, then the 22 body bytes. */
  lemma StartupBytes()
    ensures StartupRequest() ==
      [0x04, 0x00, 0x00, 0x01, 0x01, 0x00, 0x00, 0x00, 0x16] + MarshalBinary(StartupBody())
  {
    var body := MarshalBinary(StartupBody());
    StartupBodyBytes();
    assert |body| == 22;
  }

  /** What `connect` holds after reading a response header. */
  datatype ResponseHeader = ResponseHeader(header: Frame, bodyBuffer: Option<nat>)

  /**
   * Reads the response header from a nine-byte buffer of which the socket
   * filled the first `|received|` bytes (the rest stay zero), and sizes the
   * body buffer: one is allocated, of exactly `length` bytes, only when the
   * length field is positive.
   */
  function ReadResponseHeader(received: seq<uint8>): (r: ResponseHeader)
    requires |received| <= HeaderSize
    ensures EncodeHeader(r.header) == received + seq(HeaderSize - |received|, _ => 0)
    ensures r.bodyBuffer.Some? <==> r.header.length > 0
    ensures r.bodyBuffer.Some? ==> r.bodyBuffer.value == r.header.length
  {
    var buffer: seq<uint8> := received + seq(HeaderSize - |received|, _ => 0);
    var header := DecodeHeader(buffer).value;
    DecodeThenEncode(buffer);
    assert buffer[..HeaderSize] == buffer;
    ResponseHeader(header, if header.length > 0 then Some(header.length) else None)
  }
}
