/**
 * The wire format in figures: every field of a message, and everything a delivery plan reads, by its place among the
 * bytes of the whole message.
 */
module CctpLayout {
  import opened Wrappers
  import opened CctpBytes
  import opened CctpMessage
  import opened CctpForwarder

  /** The code points of the hexadecimal digits, and what they stand for. */
  lemma DigitExactly(c: char)
    ensures IsHexDigit(c) <==> 48 <= c as int <= 57 || 97 <= c as int <= 102 || 65 <= c as int <= 70
    ensures IsHexDigit(c) ==>
              HexValue(c) == if c as int <= 57 then c as int - 48 else if c as int <= 70 then c as int - 55
                             else c as int - 87
  {
  }

  /** A text is hex exactly when, an `0x` aside, it has evenly many characters, all digits in either case. */
  lemma HexExactly(hex: string)
    ensures var clean := if |hex| >= 2 && hex[..2] == "0x" then hex[2..] else hex;
            && (HexToBytes(hex).Ok? <==> |clean| % 2 == 0 && forall c <- clean :: IsHexDigit(c))
            && (HexToBytes(hex).Err? ==> HexToBytes(hex).error == NotHex)
            && (HexToBytes(hex).Ok? ==>
                  && |HexToBytes(hex).value| == |clean| / 2
                  && forall k :: 0 <= k < |clean| / 2 ==>
                       && IsHexDigit(clean[2 * k]) && IsHexDigit(clean[2 * k + 1])
                       && HexToBytes(hex).value[k] == 16 * HexValue(clean[2 * k]) + HexValue(clean[2 * k + 1]))
  {
    hide IsHexDigit, HexValue;
  }

  lemma SliceOfTail(bytes: seq<octet>, from: nat, lo: nat, hi: nat)
    requires from <= |bytes| && lo <= hi && from + hi <= |bytes|
    ensures bytes[from..][lo..hi] == bytes[from + lo..from + hi]
  {
  }

  /** A message parses exactly when it is hex of at least 376 bytes, and then its fields lie at these places. */
  lemma MessageInFigures(messageHex: string)
    ensures MessageOf(messageHex).Ok? <==> HexToBytes(messageHex).Ok? && 376 <= |HexToBytes(messageHex).value|
    ensures MessageOf(messageHex).Err? ==>
              MessageOf(messageHex).error
              == if HexToBytes(messageHex).Err? then HexToBytes(messageHex).error
                 else if |HexToBytes(messageHex).value| < 148 then MessageTooShort else BodyTooShort
    ensures MessageOf(messageHex).Ok? ==>
              var bs, m := HexToBytes(messageHex).value, MessageOf(messageHex).value;
              && m.header.version == BigEndian(bs[0..4]) && m.header.sourceDomain == BigEndian(bs[4..8])
              && m.header.destinationDomain == BigEndian(bs[8..12]) && m.header.nonce == BytesToHex(bs[12..44])
              && m.header.sender == bs[44..76] && m.header.recipient == bs[76..108]
              && m.header.destinationCaller == bs[108..140]
              && m.header.minFinalityThreshold == BigEndian(bs[140..144])
              && m.header.finalityThresholdExecuted == BigEndian(bs[144..148])
    ensures MessageOf(messageHex).Ok? ==>
              var bs, m := HexToBytes(messageHex).value, MessageOf(messageHex).value;
              && m.body.version == BigEndian(bs[148..152]) && m.body.burnToken == bs[152..184]
              && m.body.mintRecipient == bs[184..216] && m.body.amount == BigEndian(bs[216..248])
              && m.body.messageSender == bs[248..280] && m.body.maxFee == BigEndian(bs[280..312])
              && m.body.feeExecuted == BigEndian(bs[312..344]) && m.body.expirationBlock == BigEndian(bs[344..376])
              && m.body.hookData == bs[376..]
  {
    hide HexToBytes, BytesToHex, BigEndian;
    if MessageOf(messageHex).Ok? {
      var bs := HexToBytes(messageHex).value;
      SliceOfTail(bs, 148, 0, 4);
      SliceOfTail(bs, 148, 4, 36);
      SliceOfTail(bs, 148, 36, 68);
      SliceOfTail(bs, 148, 68, 100);
      SliceOfTail(bs, 148, 100, 132);
      SliceOfTail(bs, 148, 132, 164);
      SliceOfTail(bs, 148, 164, 196);
      SliceOfTail(bs, 148, 196, 228);
      SliceOfTail(bs, 148, 228, |bs| - 148);
    }
  }

  /** Hook data parses exactly when the recipient its length announces is there and is an address. */
  lemma HookInFigures(hook: seq<octet>, isAddress: seq<octet> -> bool)
    ensures ParseForwarderHookData(hook, isAddress).Ok? <==>
              && 32 <= |hook| && 32 + BigEndian(hook[28..32]) <= |hook|
              && isAddress(hook[32..32 + BigEndian(hook[28..32])])
    ensures ParseForwarderHookData(hook, isAddress).Ok? ==>
              var length := BigEndian(hook[28..32]);
              ParseForwarderHookData(hook, isAddress).value
              == Hook(BigEndian(hook[24..28]), hook[32..32 + length], hook[32 + length..])
    ensures ParseForwarderHookData(hook, isAddress).Err? ==>
              ParseForwarderHookData(hook, isAddress).error
              == if |hook| < 32 then HookTooShort
                 else if |hook| < 32 + BigEndian(hook[28..32]) then HookLengthExceedsData else NotAnAddress
  {
    hide BigEndian;
  }

  /**
   * A plan is made exactly for a message to our domain, whose recipient and caller are the forwarder, with an amount,
   * a complete hook that names an address, and an attestation; and everything in the plan is read off those bytes.
   */
  lemma PlansExactly(messageHex: string, attestationHex: string, config: Config, isAddress: seq<octet> -> bool)
    ensures PlanOf(messageHex, attestationHex, config, isAddress).Ok? <==>
              && HexToBytes(attestationHex).Ok? && HexToBytes(attestationHex).value != []
              && HexToBytes(messageHex).Ok?
              && var bs := HexToBytes(messageHex).value;
              && 408 <= |bs| && 408 + BigEndian(bs[404..408]) <= |bs|
              && BigEndian(bs[8..12]) == config.domain
              && config.forwarder == Ok(bs[184..216]) && config.forwarder == Ok(bs[108..140])
              && 0 < BigEndian(bs[216..248])
              && isAddress(bs[408..408 + BigEndian(bs[404..408])])
    ensures PlanOf(messageHex, attestationHex, config, isAddress).Ok? ==>
              var bs := HexToBytes(messageHex).value;
              PlanOf(messageHex, attestationHex, config, isAddress).value
              == Plan(BytesToHex(bs[12..44]), BigEndian(bs[4..8]), BigEndian(bs[216..248]),
                      10 * BigEndian(bs[216..248]), bs[408..408 + BigEndian(bs[404..408])], bs,
                      HexToBytes(attestationHex).value)
  {
    hide HexToBytes, BytesToHex, BigEndian, MessageOf, ParseForwarderHookData;
    MessageInFigures(messageHex);
    if MessageOf(messageHex).Ok? {
      var bs := HexToBytes(messageHex).value;
      var hook := bs[376..];
      HookInFigures(hook, isAddress);
      if 408 <= |bs| {
        SliceOfTail(bs, 376, 28, 32);
        if 408 + BigEndian(bs[404..408]) <= |bs| {
          SliceOfTail(bs, 376, 32, 32 + BigEndian(bs[404..408]));
        }
      }
    }
  }

  /** Which error refuses a plan: that of the first check, in this order, that fails. */
  lemma PlanRefusals(messageHex: string, attestationHex: string, config: Config, isAddress: seq<octet> -> bool)
    requires PlanOf(messageHex, attestationHex, config, isAddress).Err?
    ensures var e := PlanOf(messageHex, attestationHex, config, isAddress).error;
            if MessageOf(messageHex).Err? then e == MessageOf(messageHex).error
            else
              var bs := HexToBytes(messageHex).value;
              && 376 <= |bs|
              && var hook := ParseForwarderHookData(bs[376..], isAddress);
              e == if BigEndian(bs[8..12]) != config.domain then WrongDomain
                   else if config.forwarder.Err? then NotAContract
                   else if bs[184..216] != config.forwarder.value then WrongMintRecipient
                   else if bs[108..140] != config.forwarder.value then WrongDestinationCaller
                   else if BigEndian(bs[216..248]) == 0 then ZeroAmount
                   else if hook.Err? then hook.error
                   else if HexToBytes(attestationHex).Err? then HexToBytes(attestationHex).error
                   else EmptyAttestation
  {
    hide HexToBytes, BytesToHex, BigEndian, MessageOf, ParseForwarderHookData;
    MessageInFigures(messageHex);
  }

  /** Built hook data: 28 zero bytes, the recipient's length in four, the recipient, the payload. */
  lemma BuiltHookInFigures(recipient: seq<octet>, payload: seq<octet>)
    ensures var hook := EncodeHook(recipient, payload);
            && |hook| == 32 + |recipient| + |payload|
            && (forall k :: 0 <= k < 28 ==> hook[k] == 0)
            && hook[28] == |recipient| / 0x100_0000 % 256 && hook[29] == |recipient| / 0x1_0000 % 256
            && hook[30] == |recipient| / 0x100 % 256 && hook[31] == |recipient| % 256
            && hook[32..32 + |recipient|] == recipient && hook[32 + |recipient|..] == payload
  {
    WordBytes(0);
    WordBytes(|recipient|);
    HookFields(recipient, payload);
    hide Word;
  }

  /** Six decimals become seven; negative amounts are refused. */
  lemma RescaleExactly(amountUsdc6: int)
    ensures Usdc6ToStellar7(amountUsdc6) == if 0 <= amountUsdc6 then Ok(10 * amountUsdc6) else Err(NegativeAmount)
  {
  }

  /** What the test builder's message parses to: its parameters cut to their widths, and these constants. */
  lemma BuiltMessageParses(sourceDomain: nat, destinationDomain: nat, nonceByte: octet, mintRecipient: seq<octet>,
                           destinationCaller: seq<octet>, amount: int, hook: seq<octet>)
    requires |mintRecipient| == |destinationCaller| == 32
    ensures var m := TestMessage(sourceDomain, destinationDomain, nonceByte, mintRecipient, destinationCaller,
                                 amount, hook);
            HeaderFits(m.header) && BodyFits(m.body) && MessageOf(EncodeMessage(m)) == Ok(m)
    ensures var Message(header, body) := TestMessage(sourceDomain, destinationDomain, nonceByte, mintRecipient,
                                                     destinationCaller, amount, hook);
            && header.version == 1 && header.sourceDomain == sourceDomain % 0x1_0000_0000
            && header.destinationDomain == destinationDomain % 0x1_0000_0000
            && HexToBytes(header.nonce) == Ok(Repeat<octet>(nonceByte, 32))
            && header.sender == Repeat<octet>(0, 32) && header.recipient == mintRecipient
            && header.destinationCaller == destinationCaller
            && header.minFinalityThreshold == 2000 && header.finalityThresholdExecuted == 2000
            && body.version == 1 && body.burnToken == Repeat<octet>(0x11, 32) && body.mintRecipient == mintRecipient
            && body.amount
               == amount % 0x1_0000_0000_0000_0000_0000_0000_0000_0000_0000_0000_0000_0000_0000_0000_0000_0000
            && body.messageSender == Repeat<octet>(0x22, 32)
            && body.maxFee == 0 && body.feeExecuted == 0 && body.expirationBlock == 0 && body.hookData == hook
  {
    WidthOfAmount();
    hide HeaderFits, BodyFits, EncodeMessage, MessageOf, HexToBytes, BytesToHex, Pow256, Repeat;
    hide EncodeHeader, EncodeBody;
    TestLayout(sourceDomain, destinationDomain, nonceByte, mintRecipient, destinationCaller, amount, hook);
    HexRoundTrip(Repeat<octet>(nonceByte, 32));
    MessageRoundTrip(
      TestMessage(sourceDomain, destinationDomain, nonceByte, mintRecipient, destinationCaller, amount, hook));
  }

  lemma WidthOfAmount()
    ensures Pow256(32) == 0x1_0000_0000_0000_0000_0000_0000_0000_0000_0000_0000_0000_0000_0000_0000_0000_0000
  {
    assert Pow256(8) == 0x1_0000_0000_0000_0000 by { Widen(0); Widen(4); }
    Widen(8); Widen(12); Widen(16); Widen(20); Widen(24); Widen(28);
  }

  lemma Widen(n: nat)
    ensures Pow256(0) == 1 && Pow256(n + 4) == 0x1_0000_0000 * Pow256(n)
  {
    assert Pow256(n + 4) == 256 * Pow256(n + 3) && Pow256(n + 3) == 256 * Pow256(n + 2);
    assert Pow256(n + 2) == 256 * Pow256(n + 1) && Pow256(n + 1) == 256 * Pow256(n);
  }
}
