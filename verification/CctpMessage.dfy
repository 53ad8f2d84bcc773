/**
 * CCTP V2 messages and the forwarder's hook data: parsers over fixed offsets, the builders that are their inverses,
 * and the delivery plan that guards a mint.
 */
module CctpMessage {
  import opened Wrappers
  import opened CctpBytes

  const HEADER_BYTES := 148
  const BODY_FIXED_BYTES := 228
  const HOOK_MAGIC_BYTES := 24
  const HOOK_HEADER_BYTES := 32

  datatype Header = Header(
    version: nat, sourceDomain: nat, destinationDomain: nat, nonce: string,
    sender: seq<octet>, recipient: seq<octet>, destinationCaller: seq<octet>,
    minFinalityThreshold: nat, finalityThresholdExecuted: nat)

  datatype Body = Body(
    version: nat, burnToken: seq<octet>, mintRecipient: seq<octet>, amount: nat, messageSender: seq<octet>,
    maxFee: nat, feeExecuted: nat, expirationBlock: nat, hookData: seq<octet>)

  datatype Message = Message(header: Header, body: Body)

  // ---------------------------------------------------------------- the layout

  function Word(v: nat): (bs: seq<octet>)
    ensures |bs| == 4
  {
    ToBytes(v, 4)
  }

  function Wide(v: nat): (bs: seq<octet>)
    ensures |bs| == 32
  {
    ToBytes(v, 32)
  }

  predicate FitsWord(v: nat) { v < 0x1_0000_0000 }
  predicate FitsWide(v: nat) { v < Pow256(32) }

  function ReadWord(bytes: seq<octet>, at: nat): nat
    requires at + 4 <= |bytes|
  {
    BigEndian(bytes[at..at + 4])
  }

  function ReadWide(bytes: seq<octet>, at: nat): nat
    requires at + 32 <= |bytes|
  {
    BigEndian(bytes[at..at + 32])
  }

  /** The nonce travels as 32 bytes and is shown as their hex text. */
  predicate IsNonce(nonce: string) {
    HexToBytes(nonce).Ok? && |HexToBytes(nonce).value| == 32 && nonce == BytesToHex(HexToBytes(nonce).value)
  }

  predicate HeaderFits(h: Header) {
    && FitsWord(h.version) && FitsWord(h.sourceDomain) && FitsWord(h.destinationDomain) && IsNonce(h.nonce)
    && |h.sender| == |h.recipient| == |h.destinationCaller| == 32
    && FitsWord(h.minFinalityThreshold) && FitsWord(h.finalityThresholdExecuted)
  }

  predicate BodyFits(b: Body) {
    && FitsWord(b.version) && |b.burnToken| == |b.mintRecipient| == |b.messageSender| == 32
    && FitsWide(b.amount) && FitsWide(b.maxFee) && FitsWide(b.feeExecuted) && FitsWide(b.expirationBlock)
  }

  function EncodeHeader(h: Header): (bs: seq<octet>)
    requires HeaderFits(h)
    ensures |bs| == HEADER_BYTES
  {
    Word(h.version) + Word(h.sourceDomain) + Word(h.destinationDomain) + HexToBytes(h.nonce).value
    + h.sender + h.recipient + h.destinationCaller + Word(h.minFinalityThreshold) + Word(h.finalityThresholdExecuted)
  }

  function EncodeBody(b: Body): (bs: seq<octet>)
    requires BodyFits(b)
    ensures |bs| == BODY_FIXED_BYTES + |b.hookData|
  {
    Word(b.version) + b.burnToken + b.mintRecipient + Wide(b.amount) + b.messageSender
    + Wide(b.maxFee) + Wide(b.feeExecuted) + Wide(b.expirationBlock) + b.hookData
  }

  function EncodeMessage(m: Message): string
    requires HeaderFits(m.header) && BodyFits(m.body)
  {
    BytesToHex(EncodeHeader(m.header) + EncodeBody(m.body))
  }

  // ---------------------------------------------------------------- what the parsers return

  function HeaderAt(bytes: seq<octet>): Header
    requires |bytes| >= HEADER_BYTES
  {
    Header(ReadWord(bytes, 0), ReadWord(bytes, 4), ReadWord(bytes, 8), BytesToHex(bytes[12..44]),
      bytes[44..76], bytes[76..108], bytes[108..140], ReadWord(bytes, 140), ReadWord(bytes, 144))
  }

  function BodyOf(bytes: seq<octet>): Result<Body> {
    if |bytes| < BODY_FIXED_BYTES then Err(BodyTooShort) else
    Ok(Body(ReadWord(bytes, 0), bytes[4..36], bytes[36..68], ReadWide(bytes, 68), bytes[100..132],
      ReadWide(bytes, 132), ReadWide(bytes, 164), ReadWide(bytes, 196), bytes[228..]))
  }

  function MessageOf(messageHex: string): Result<Message> {
    var hex := HexToBytes(messageHex);
    if hex.Err? then Err(hex.error) else
    var bytes := hex.value;
    if |bytes| < HEADER_BYTES then Err(MessageTooShort) else
    var body := BodyOf(bytes[HEADER_BYTES..]);
    if body.Err? then Err(body.error) else Ok(Message(HeaderAt(bytes), body.value))
  }

  method ParseCctpBurnBody(body: seq<octet>) returns (r: Result<Body>)
    ensures r == BodyOf(body)
  {
    hide BigEndian, U32, Pow256;
    if |body| < BODY_FIXED_BYTES {
      return Err(BodyTooShort);
    }
    U32IsBigEndian(body, 0);
    FieldInside(body, 0, 4);
    FieldInside(body, 68, 32); FieldInside(body, 132, 32); FieldInside(body, 164, 32); FieldInside(body, 196, 32);
    var amount := U256(body, 68);
    var maxFee := U256(body, 132);
    var feeExecuted := U256(body, 164);
    var expirationBlock := U256(body, 196);
    return Ok(Body(U32(body, 0), body[4..36], body[36..68], amount, body[100..132],
      maxFee, feeExecuted, expirationBlock, body[BODY_FIXED_BYTES..]));
  }

  method ParseCctpMessage(messageHex: string) returns (r: Result<Message>)
    ensures r == MessageOf(messageHex)
  {
    hide HexToBytes, BigEndian, BytesToHex, U32;
    var hex := HexToBytes(messageHex);
    if hex.Err? {
      return Err(hex.error);
    }
    var bytes := hex.value;
    if |bytes| < HEADER_BYTES {
      return Err(MessageTooShort);
    }
    U32IsBigEndian(bytes, 0); U32IsBigEndian(bytes, 4); U32IsBigEndian(bytes, 8);
    U32IsBigEndian(bytes, 140); U32IsBigEndian(bytes, 144);
    FieldInside(bytes, 0, 4); FieldInside(bytes, 4, 4); FieldInside(bytes, 8, 4);
    FieldInside(bytes, 140, 4); FieldInside(bytes, 144, 4);
    var header := Header(U32(bytes, 0), U32(bytes, 4), U32(bytes, 8), BytesToHex(bytes[12..44]),
      bytes[44..76], bytes[76..108], bytes[108..140], U32(bytes, 140), U32(bytes, 144));
    var body := ParseCctpBurnBody(bytes[HEADER_BYTES..]);
    if body.Err? {
      return Err(body.error);
    }
    return Ok(Message(header, body.value));
  }

  // ---------------------------------------------------------------- parsing undoes encoding, and back

  lemma WordRoundTrip(v: nat)
    requires FitsWord(v)
    ensures BigEndian(Word(v)) == v
  {
    assert Pow256(4) == 0x1_0000_0000;
    ReadWritten(v, 4);
  }

  lemma WideRoundTrip(v: nat)
    requires FitsWide(v)
    ensures BigEndian(Wide(v)) == v
  {
    hide Pow256, ToBytes, BigEndian;
    ReadWritten(v, 32);
  }

  lemma ReadWordBack(bytes: seq<octet>, at: nat)
    requires at + 4 <= |bytes|
    ensures FitsWord(ReadWord(bytes, at)) && Word(ReadWord(bytes, at)) == bytes[at..at + 4]
  {
    assert Pow256(4) == 0x1_0000_0000;
    BigEndianBound(bytes[at..at + 4]);
    WriteRead(bytes[at..at + 4]);
  }

  lemma ReadWideBack(bytes: seq<octet>, at: nat)
    requires at + 32 <= |bytes|
    ensures FitsWide(ReadWide(bytes, at)) && Wide(ReadWide(bytes, at)) == bytes[at..at + 32]
  {
    BigEndianBound(bytes[at..at + 32]);
    WriteRead(bytes[at..at + 32]);
  }

  lemma BodyFields(b: Body)
    requires BodyFits(b)
    ensures var bs := EncodeBody(b);
            && bs[0..4] == Word(b.version) && bs[4..36] == b.burnToken && bs[36..68] == b.mintRecipient
            && bs[68..100] == Wide(b.amount) && bs[100..132] == b.messageSender && bs[132..164] == Wide(b.maxFee)
            && bs[164..196] == Wide(b.feeExecuted) && bs[196..228] == Wide(b.expirationBlock) && bs[228..] == b.hookData
  {
    hide Word, Wide, FitsWord, FitsWide;
  }

  lemma HeaderFields(h: Header)
    requires HeaderFits(h)
    ensures var bs := EncodeHeader(h);
            && bs[0..4] == Word(h.version) && bs[4..8] == Word(h.sourceDomain) && bs[8..12] == Word(h.destinationDomain)
            && bs[12..44] == HexToBytes(h.nonce).value && bs[44..76] == h.sender && bs[76..108] == h.recipient
            && bs[108..140] == h.destinationCaller && bs[140..144] == Word(h.minFinalityThreshold)
            && bs[144..148] == Word(h.finalityThresholdExecuted)
  {
    hide Word, FitsWord, HexToBytes, BytesToHex;
  }

  lemma BodyRoundTrip(b: Body)
    requires BodyFits(b)
    ensures BodyOf(EncodeBody(b)) == Ok(b)
  {
    hide Word, Wide, FitsWord, FitsWide, EncodeBody, BigEndian;
    BodyFields(b);
    WordRoundTrip(b.version);
    WideRoundTrip(b.amount);
    WideRoundTrip(b.maxFee);
    WideRoundTrip(b.feeExecuted);
    WideRoundTrip(b.expirationBlock);
  }

  lemma HeaderRoundTrip(h: Header)
    requires HeaderFits(h)
    ensures HeaderAt(EncodeHeader(h)) == h
  {
    hide Word, FitsWord, EncodeHeader, BigEndian, HexToBytes, BytesToHex;
    HeaderFields(h);
    WordRoundTrip(h.version);
    WordRoundTrip(h.sourceDomain);
    WordRoundTrip(h.destinationDomain);
    WordRoundTrip(h.minFinalityThreshold);
    WordRoundTrip(h.finalityThresholdExecuted);
  }

  lemma HeaderIsPrefix(bs: seq<octet>, more: seq<octet>)
    requires |bs| == HEADER_BYTES
    ensures HeaderAt(bs + more) == HeaderAt(bs) && (bs + more)[HEADER_BYTES..] == more
  {
    hide BigEndian, BytesToHex;
    var all := bs + more;
    assert all[0..4] == bs[0..4] && all[4..8] == bs[4..8] && all[8..12] == bs[8..12] && all[12..44] == bs[12..44];
    assert all[44..76] == bs[44..76] && all[76..108] == bs[76..108] && all[108..140] == bs[108..140];
    assert all[140..144] == bs[140..144] && all[144..148] == bs[144..148];
  }

  /** Every field of every message survives encoding, hex and parsing. */
  lemma MessageRoundTrip(m: Message)
    requires HeaderFits(m.header) && BodyFits(m.body)
    ensures MessageOf(EncodeMessage(m)) == Ok(m)
  {
    hide HeaderFits, BodyFits, EncodeHeader, EncodeBody, HeaderAt, BodyOf, HexToBytes, BytesToHex;
    var header, body := EncodeHeader(m.header), EncodeBody(m.body);
    HexRoundTrip(header + body);
    HeaderIsPrefix(header, body);
    HeaderRoundTrip(m.header);
    BodyRoundTrip(m.body);
  }

  lemma BodyRebuilds(bytes: seq<octet>)
    requires BodyOf(bytes).Ok?
    ensures BodyFits(BodyOf(bytes).value) && EncodeBody(BodyOf(bytes).value) == bytes
  {
    hide Word, Wide, FitsWord, FitsWide, ReadWord, ReadWide;
    ReadWordBack(bytes, 0);
    ReadWideBack(bytes, 68);
    ReadWideBack(bytes, 132);
    ReadWideBack(bytes, 164);
    ReadWideBack(bytes, 196);
  }

  lemma HeaderRebuilds(bytes: seq<octet>)
    requires |bytes| >= HEADER_BYTES
    ensures HeaderFits(HeaderAt(bytes)) && EncodeHeader(HeaderAt(bytes)) == bytes[..HEADER_BYTES]
  {
    hide Word, FitsWord, ReadWord, HexToBytes, BytesToHex;
    ReadWordBack(bytes, 0);
    ReadWordBack(bytes, 4);
    ReadWordBack(bytes, 8);
    ReadWordBack(bytes, 140);
    ReadWordBack(bytes, 144);
    HexRoundTrip(bytes[12..44]);
  }

  /** Nothing is lost by parsing: the parsed fields encode to the very bytes that were read. */
  lemma ParsedRebuilds(messageHex: string)
    requires MessageOf(messageHex).Ok?
    ensures var m := MessageOf(messageHex).value;
            HeaderFits(m.header) && BodyFits(m.body)
            && EncodeMessage(m) == BytesToHex(HexToBytes(messageHex).value)
  {
    hide HeaderFits, BodyFits, EncodeHeader, EncodeBody, HeaderAt, BodyOf, HexToBytes, BytesToHex;
    var bytes := HexToBytes(messageHex).value;
    HeaderRebuilds(bytes);
    BodyRebuilds(bytes[HEADER_BYTES..]);
    assert bytes == bytes[..HEADER_BYTES] + bytes[HEADER_BYTES..];
  }
}
