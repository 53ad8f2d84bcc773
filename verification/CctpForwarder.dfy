/**
 * Hook data of the CCTP forwarder, the checks on a burn addressed to it, and the plan a delivery is built from.
 * Address checks belong to the Stellar SDK: `isAddress` and the decoded forwarder id are parameters here.
 */
module CctpForwarder {
  import opened Wrappers
  import opened FixedPoint
  import opened CctpBytes
  import opened CctpMessage

  datatype Hook = Hook(version: nat, forwardRecipient: seq<octet>, payload: seq<octet>)

  /** 24 reserved zero bytes, version 0, length, recipient, payload. */
  function EncodeHook(forwardRecipient: seq<octet>, payload: seq<octet>): seq<octet> {
    Repeat<octet>(0, HOOK_MAGIC_BYTES) + Word(0) + Word(|forwardRecipient|) + forwardRecipient + payload
  }

  // ---------------------------------------------------------------- filling a fresh buffer from left to right

  /** `done` is written, everything behind it is still zero. */
  ghost predicate Filled(a: array<octet>, done: seq<octet>)
    reads a
  {
    |done| <= a.Length && a[..] == done + Repeat<octet>(0, a.Length - |done|)
  }

  lemma NowFilled(a: array<octet>, at: nat, done: seq<octet>, bytes: seq<octet>)
    requires at == |done| && at + |bytes| <= a.Length
    requires a[..at] == done && a[at..at + |bytes|] == bytes
    requires forall k :: at + |bytes| <= k < a.Length ==> a[k] == 0
    ensures Filled(a, done + bytes)
  {
    assert a[..] == a[..at] + a[at..at + |bytes|] + a[at + |bytes|..];
  }

  /** `out.set(bytes, at)` just behind what is written. */
  method SetBytes(a: array<octet>, at: nat, bytes: seq<octet>, ghost done: seq<octet>)
    requires Filled(a, done) && at == |done| && at + |bytes| <= a.Length
    modifies a
    ensures Filled(a, done + bytes)
  {
    for i := 0 to |bytes|
      invariant a[..at] == done && a[at..at + i] == bytes[..i]
      invariant forall k :: at + i <= k < a.Length ==> a[k] == 0
    {
      a[at + i] := bytes[i];
    }
    NowFilled(a, at, done, bytes);
  }

  /** `view.setUint32(at, v)`: the value is cut to 32 bits. */
  method SetUint32(a: array<octet>, at: nat, v: nat, ghost done: seq<octet>)
    requires Filled(a, done) && at == |done| && at + 4 <= a.Length
    modifies a
    ensures Filled(a, done + Word(v))
  {
    a[at] := v / 0x100_0000 % 256;
    a[at + 1] := v / 0x1_0000 % 256;
    a[at + 2] := v / 0x100 % 256;
    a[at + 3] := v % 256;
    WordBytes(v);
    NowFilled(a, at, done, Word(v));
  }

  lemma WordBytes(v: nat)
    ensures Word(v) == [v / 0x100_0000 % 256, v / 0x1_0000 % 256, v / 0x100 % 256, v % 256]
  {
    DivDiv(v, 256, 256);
    DivDiv(v, 0x1_0000, 256);
    assert ToBytes(v / 256 / 256 / 256, 1) == [v / 256 / 256 / 256 % 256];
    assert ToBytes(v / 256 / 256, 2) == [v / 256 / 256 / 256 % 256, v / 256 / 256 % 256];
    assert ToBytes(v / 256, 3) == [v / 256 / 256 / 256 % 256, v / 256 / 256 % 256, v / 256 % 256];
  }

  /** Skipping bytes that stay zero counts as writing them. */
  lemma Skip(a: array<octet>, done: seq<octet>, n: nat)
    requires Filled(a, done) && |done| + n <= a.Length
    ensures Filled(a, done + Repeat<octet>(0, n))
  {
    assert Repeat<octet>(0, a.Length - |done|) == Repeat<octet>(0, n) + Repeat<octet>(0, a.Length - |done| - n);
  }

  /** Builds hook data in place in a buffer of the exact size. */
  method BuildForwarderHookData(forwardRecipient: seq<octet>, payload: seq<octet>, isAddress: seq<octet> -> bool)
    returns (r: Result<seq<octet>>)
    ensures r == if isAddress(forwardRecipient) then Ok(EncodeHook(forwardRecipient, payload)) else Err(NotAnAddress)
  {
    hide Word, Filled;
    if !isAddress(forwardRecipient) {
      return Err(NotAnAddress);
    }
    var out := new octet[HOOK_HEADER_BYTES + |forwardRecipient| + |payload|](_ => 0);
    AllZero(out);
    Skip(out, [], HOOK_MAGIC_BYTES);
    ghost var done := [] + Repeat<octet>(0, HOOK_MAGIC_BYTES);
    SetUint32(out, HOOK_MAGIC_BYTES, 0, done);
    done := done + Word(0);
    SetUint32(out, HOOK_MAGIC_BYTES + 4, |forwardRecipient|, done);
    done := done + Word(|forwardRecipient|);
    SetBytes(out, HOOK_HEADER_BYTES, forwardRecipient, done);
    done := done + forwardRecipient;
    SetBytes(out, HOOK_HEADER_BYTES + |forwardRecipient|, payload, done);
    done := done + payload;
    Complete(out, done);
    assert done == EncodeHook(forwardRecipient, payload);
    return Ok(out[..]);
  }

  lemma AllZero(a: array<octet>)
    requires forall k :: 0 <= k < a.Length ==> a[k] == 0
    ensures Filled(a, [])
  {
  }

  lemma Complete(a: array<octet>, done: seq<octet>)
    requires Filled(a, done) && |done| == a.Length
    ensures a[..] == done
  {
  }

  function ParseForwarderHookData(hookData: seq<octet>, isAddress: seq<octet> -> bool): Result<Hook> {
    if |hookData| < HOOK_HEADER_BYTES then Err(HookTooShort) else
    var version := ReadWord(hookData, HOOK_MAGIC_BYTES);
    var length := ReadWord(hookData, HOOK_MAGIC_BYTES + 4);
    if HOOK_HEADER_BYTES + length > |hookData| then Err(HookLengthExceedsData) else
    var forwardRecipient := hookData[HOOK_HEADER_BYTES..HOOK_HEADER_BYTES + length];
    if !isAddress(forwardRecipient) then Err(NotAnAddress) else
    Ok(Hook(version, forwardRecipient, hookData[HOOK_HEADER_BYTES + length..]))
  }

  lemma HookFields(recipient: seq<octet>, payload: seq<octet>)
    ensures var h := EncodeHook(recipient, payload);
            && |h| == HOOK_HEADER_BYTES + |recipient| + |payload|
            && h[24..28] == Word(0) && h[28..32] == Word(|recipient|)
            && h[32..32 + |recipient|] == recipient && h[32 + |recipient|..] == payload
  {
    hide Word;
  }

  /** A built hook parses to what it was built from exactly when the recipient's length fits its 32-bit field. */
  lemma HookRoundTrip(recipient: seq<octet>, payload: seq<octet>, isAddress: seq<octet> -> bool)
    requires isAddress(recipient)
    ensures ParseForwarderHookData(EncodeHook(recipient, payload), isAddress) == Ok(Hook(0, recipient, payload))
            <==> FitsWord(|recipient|)
  {
    hide Word, BigEndian, EncodeHook;
    HookFields(recipient, payload);
    WordRoundTrip(0);
    if FitsWord(|recipient|) {
      WordRoundTrip(|recipient|);
    } else {
      WordBounded(|recipient|);
    }
  }

  lemma WordBounded(v: nat)
    ensures FitsWord(BigEndian(Word(v)))
  {
    assert Pow256(4) == 0x1_0000_0000;
    BigEndianBound(Word(v));
  }

  /** Whatever parses is laid out like a built hook; the reserved bytes and the version are not checked. */
  lemma ParsedHookLayout(hookData: seq<octet>, isAddress: seq<octet> -> bool)
    requires ParseForwarderHookData(hookData, isAddress).Ok?
    ensures var h := ParseForwarderHookData(hookData, isAddress).value;
            && isAddress(h.forwardRecipient)
            && hookData
               == hookData[..24] + Word(h.version) + Word(|h.forwardRecipient|) + h.forwardRecipient + h.payload
  {
    hide Word, ReadWord, FitsWord;
    ReadWordBack(hookData, 24);
    ReadWordBack(hookData, 28);
  }

  // ---------------------------------------------------------------- the delivery plan

  /** `forwarder` is the 32-byte id of the configured forwarder contract, when that id is valid. */
  datatype Config = Config(domain: nat, forwarder: Result<seq<octet>>)

  datatype Plan = Plan(
    nonce: string, sourceDomain: nat, amountUsdc6: nat, amount7: nat, forwardRecipient: seq<octet>,
    message: seq<octet>, attestation: seq<octet>)

  function Usdc6ToStellar7(amountUsdc6: int): Result<nat> {
    if amountUsdc6 < 0 then Err(NegativeAmount) else Ok(10 * amountUsdc6)
  }

  function ForwarderFieldsError(mintRecipient: seq<octet>, destinationCaller: seq<octet>, forwarder: Result<seq<octet>>)
    : Result<bool>
  {
    if forwarder.Err? then Err(NotAContract)
    else if mintRecipient != forwarder.value then Err(WrongMintRecipient)
    else if destinationCaller != forwarder.value then Err(WrongDestinationCaller)
    else Ok(true)
  }

  function PlanOf(messageHex: string, attestationHex: string, config: Config,
                  isAddress: seq<octet> -> bool): Result<Plan>
  {
    var parsed := MessageOf(messageHex);
    if parsed.Err? then Err(parsed.error) else
    var header, body := parsed.value.header, parsed.value.body;
    if header.destinationDomain != config.domain then Err(WrongDomain) else
    var fields := ForwarderFieldsError(body.mintRecipient, header.destinationCaller, config.forwarder);
    if fields.Err? then Err(fields.error) else
    if body.amount <= 0 then Err(ZeroAmount) else
    var hook := ParseForwarderHookData(body.hookData, isAddress);
    if hook.Err? then Err(hook.error) else
    var attestation := HexToBytes(attestationHex);
    if attestation.Err? then Err(attestation.error) else
    if attestation.value == [] then Err(EmptyAttestation) else
    Ok(Plan(header.nonce, header.sourceDomain, body.amount, Usdc6ToStellar7(body.amount).value,
      hook.value.forwardRecipient, HexToBytes(messageHex).value, attestation.value))
  }

  /** What makes a burn deliverable, stated on the burn itself. */
  predicate Deliverable(m: Message, recipient: seq<octet>, payload: seq<octet>, config: Config) {
    && m.header.destinationDomain == config.domain
    && config.forwarder == Ok(m.body.mintRecipient) && config.forwarder == Ok(m.header.destinationCaller)
    && m.body.amount > 0
    && m.body.hookData == EncodeHook(recipient, payload)
  }

  /** A burn for our forwarder is planned to its own recipient, for ten times its six-decimal amount. */
  lemma DeliverablePlans(m: Message, recipient: seq<octet>, payload: seq<octet>, attestation: seq<octet>,
                         config: Config, isAddress: seq<octet> -> bool)
    requires HeaderFits(m.header) && BodyFits(m.body) && Deliverable(m, recipient, payload, config)
    requires isAddress(recipient) && FitsWord(|recipient|) && attestation != []
    ensures PlanOf(EncodeMessage(m), BytesToHex(attestation), config, isAddress)
            == Ok(Plan(m.header.nonce, m.header.sourceDomain, m.body.amount, 10 * m.body.amount, recipient,
                       EncodeHeader(m.header) + EncodeBody(m.body), attestation))
  {
    hide HeaderFits, BodyFits, EncodeHeader, EncodeBody, MessageOf, HexToBytes, BytesToHex;
    hide ParseForwarderHookData, EncodeHook;
    MessageRoundTrip(m);
    HookRoundTrip(recipient, payload, isAddress);
    HexRoundTrip(attestation);
    HexRoundTrip(EncodeHeader(m.header) + EncodeBody(m.body));
  }

  /** And every plan comes from such a burn: no other domain, forwarder, amount or recipient gets through. */
  lemma PlansAreSafe(messageHex: string, attestationHex: string, config: Config, isAddress: seq<octet> -> bool)
    requires PlanOf(messageHex, attestationHex, config, isAddress).Ok?
    ensures MessageOf(messageHex).Ok?
    ensures var plan := PlanOf(messageHex, attestationHex, config, isAddress).value;
            var m := MessageOf(messageHex).value;
            && m.header.destinationDomain == config.domain
            && config.forwarder == Ok(m.body.mintRecipient) == Ok(m.header.destinationCaller)
            && plan.nonce == m.header.nonce && IsNonce(plan.nonce) && plan.sourceDomain == m.header.sourceDomain
            && plan.amountUsdc6 == m.body.amount > 0 && plan.amount7 == 10 * m.body.amount
            && isAddress(plan.forwardRecipient)
            && plan.attestation != []
            && HeaderFits(m.header) && BodyFits(m.body) && EncodeMessage(m) == BytesToHex(plan.message)
            && ParseForwarderHookData(m.body.hookData, isAddress).Ok?
            && plan.forwardRecipient == ParseForwarderHookData(m.body.hookData, isAddress).value.forwardRecipient
  {
    hide EncodeMessage, MessageOf, HexToBytes, BytesToHex, BodyFits;
    ParsedRebuilds(messageHex);
  }

  // ---------------------------------------------------------------- the synthetic message of the test helpers

  /** A field of 32 bytes, of which `set` writes only the first ones. */
  function Field32(bytes: seq<octet>): (field: seq<octet>)
    requires |bytes| <= 32
    ensures |field| == 32 && (|bytes| == 32 ==> field == bytes)
  {
    bytes + Repeat<octet>(0, 32 - |bytes|)
  }

  /** Fixed fields of the synthetic message; the parameters are the ones a test may override. */
  function TestMessage(sourceDomain: nat, destinationDomain: nat, nonceByte: octet, mintRecipient: seq<octet>,
                       destinationCaller: seq<octet>, amount: int, hookData: seq<octet>): Message {
    Message(
      Header(1, sourceDomain % 0x1_0000_0000, destinationDomain % 0x1_0000_0000,
        BytesToHex(Repeat<octet>(nonceByte, 32)), Repeat<octet>(0, 32), mintRecipient, destinationCaller, 2000, 2000),
      Body(1, Repeat<octet>(0x11, 32), mintRecipient, amount % Pow256(32), Repeat<octet>(0x22, 32), 0, 0, 0, hookData))
  }

  /** `(v >> 8 * i) & 0xff` */
  function DigitAt(v: int, i: nat): octet { v / Pow256(i) % 256 }

  /** One more byte on the left is the next higher digit. */
  lemma {:induction false} TopByte(v: int, i: nat)
    ensures ToBytes(v, i + 1) == [DigitAt(v, i)] + ToBytes(v, i)
    decreases i
  {
    if i == 0 {
      assert ToBytes(v, 1) == ToBytes(v / 256, 0) + [v % 256];
    } else {
      TopByte(v / 256, i - 1);
      DivDiv(v, 256, Pow256(i - 1));
    }
  }

  /** The amount, written from its lowest byte at the right end to its highest. */
  method SetWide(a: array<octet>, at: nat, v: int, ghost done: seq<octet>)
    requires Filled(a, done) && at == |done| && at + 32 <= a.Length
    modifies a
    ensures Filled(a, done + ToBytes(v, 32))
  {
    hide ToBytes, DigitAt;
    assert ToBytes(v, 0) == [];
    for i := 0 to 32
      invariant a[..at] == done && a[at + 32 - i..at + 32] == ToBytes(v, i)
      invariant forall k :: at + 32 <= k < a.Length ==> a[k] == 0
    {
      TopByte(v, i);
      a[at + 31 - i] := DigitAt(v, i);
      assert a[at + 31 - i..at + 32] == [DigitAt(v, i)] + a[at + 32 - i..at + 32];
    }
    NowFilled(a, at, done, ToBytes(v, 32));
  }

  /** `msg.set` of a 32-byte field behind what is written; what it does not reach stays zero. */
  method SetField(a: array<octet>, at: nat, bytes: seq<octet>, ghost done: seq<octet>)
    requires Filled(a, done) && at == |done| && |bytes| <= 32 && at + 32 <= a.Length
    modifies a
    ensures Filled(a, done + Field32(bytes))
  {
    hide Filled;
    SetBytes(a, at, bytes, done);
    Skip(a, done + bytes, 32 - |bytes|);
    assert done + Field32(bytes) == done + bytes + Repeat<octet>(0, 32 - |bytes|);
  }

  /** The builder lays the message out exactly as the encoder does. */
  method BuildTestMessage(sourceDomain: nat, destinationDomain: nat, nonceByte: octet, mintRecipient: seq<octet>,
                          destinationCaller: seq<octet>, amount: int, hook: seq<octet>)
    returns (messageHex: string)
    requires |mintRecipient| <= 32 && |destinationCaller| <= 32
    ensures var m := TestMessage(sourceDomain, destinationDomain, nonceByte, Field32(mintRecipient),
                                 Field32(destinationCaller), amount, hook);
            HeaderFits(m.header) && BodyFits(m.body) && messageHex == EncodeMessage(m)
  {
    hide Word, Filled, Repeat, Field32, ToBytes, Pow256;
    hide EncodeHeader, EncodeBody, HeaderFits, BodyFits, BytesToHex, TestMessage;
    var msg := new octet[148 + 228 + |hook|](_ => 0);
    AllZero(msg);
    ghost var done := [];
    SetUint32(msg, 0, 1, done); done := done + Word(1);
    SetUint32(msg, 4, sourceDomain, done); done := done + Word(sourceDomain);
    SetUint32(msg, 8, destinationDomain, done); done := done + Word(destinationDomain);
    SetBytes(msg, 12, Repeat<octet>(nonceByte, 32), done); done := done + Repeat<octet>(nonceByte, 32);
    Skip(msg, done, 32); done := done + Repeat<octet>(0, 32);
    SetField(msg, 76, mintRecipient, done); done := done + Field32(mintRecipient);
    SetField(msg, 108, destinationCaller, done); done := done + Field32(destinationCaller);
    SetUint32(msg, 140, 2000, done); done := done + Word(2000);
    SetUint32(msg, 144, 2000, done); done := done + Word(2000);
    SetUint32(msg, 148, 1, done); done := done + Word(1);
    SetBytes(msg, 152, Repeat<octet>(0x11, 32), done); done := done + Repeat<octet>(0x11, 32);
    SetField(msg, 184, mintRecipient, done); done := done + Field32(mintRecipient);
    SetWide(msg, 216, amount, done); done := done + ToBytes(amount, 32);
    SetBytes(msg, 248, Repeat<octet>(0x22, 32), done); done := done + Repeat<octet>(0x22, 32);
    Skip(msg, done, 96); done := done + Repeat<octet>(0, 96);
    SetBytes(msg, 376, hook, done); done := done + hook;
    Complete(msg, done);
    TestLayout(sourceDomain, destinationDomain, nonceByte, Field32(mintRecipient), Field32(destinationCaller),
               amount, hook);
    return BytesToHex(msg[..]);
  }

  lemma WordModulo(v: nat)
    ensures Word(v % 0x1_0000_0000) == Word(v)
  {
    ToBytesModulo(v, 4);
    assert Pow256(4) == 0x1_0000_0000;
  }

  lemma ToBytesModulo(v: int, n: nat)
    ensures ToBytes(v % Pow256(n), n) == ToBytes(v, n)
  {
    ReadWritten(v, n);
    WriteRead(ToBytes(v, n));
  }

  lemma TestLayout(sourceDomain: nat, destinationDomain: nat, nonceByte: octet, mintRecipient: seq<octet>,
                   destinationCaller: seq<octet>, amount: int, hook: seq<octet>)
    requires |mintRecipient| == |destinationCaller| == 32
    ensures var m := TestMessage(sourceDomain, destinationDomain, nonceByte, mintRecipient, destinationCaller,
                                 amount, hook);
            && HeaderFits(m.header) && BodyFits(m.body)
            && EncodeHeader(m.header) + EncodeBody(m.body)
               == [] + Word(1) + Word(sourceDomain) + Word(destinationDomain)
                  + Repeat<octet>(nonceByte, 32) + Repeat<octet>(0, 32)
                  + mintRecipient + destinationCaller + Word(2000) + Word(2000) + Word(1) + Repeat<octet>(0x11, 32)
                  + mintRecipient + ToBytes(amount, 32) + Repeat<octet>(0x22, 32) + Repeat<octet>(0, 96) + hook
  {
    hide HexToBytes, BytesToHex, Pow256, ToBytes, Word, Repeat;
    WordModulo(sourceDomain);
    WordModulo(destinationDomain);
    ToBytesModulo(amount, 32);
    HexRoundTrip(Repeat<octet>(nonceByte, 32));
    WideZeros();
  }

  lemma WideZeros()
    ensures Wide(0) + Wide(0) + Wide(0) == Repeat<octet>(0, 96)
  {
    ZeroBytes(32);
  }

  lemma {:induction false} ZeroBytes(n: nat)
    ensures ToBytes(0, n) == Repeat<octet>(0, n)
  {
    if n == 0 {
    } else {
      ZeroBytes(n - 1);
    }
  }
}
