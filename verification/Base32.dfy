/**
 * The base-32 decoder of account ids (RFC 4648, section 6, as used by Stellar's SEP-0023): a loop over a
 * wrapping 32-bit accumulator, proved to regroup the 5-bit digit stream into bytes, bit for bit.
 */
module Base32 {
  import opened Wrappers

  type digit = bv5

  const ALPHABET := "ABCDEFGHIJKLMNOPQRSTUVWXYZ234567"

  /** `indexOf` over the alphabet, from position `k` on. */
  function IndexFrom(c: char, k: nat): (i: int)
    requires k <= |ALPHABET|
    ensures -1 <= i < |ALPHABET| && (0 <= i ==> ALPHABET[i] == c)
    ensures i == -1 ==> forall j :: k <= j < |ALPHABET| ==> ALPHABET[j] != c
    decreases |ALPHABET| - k
  {
    if k == |ALPHABET| then -1
    else if ALPHABET[k] == c then k
    else IndexFrom(c, k + 1)
  }

  predicate InAlphabet(c: char) { IndexFrom(c, 0) != -1 }

  function DigitOf(c: char): digit
    requires InAlphabet(c)
  {
    IndexFrom(c, 0) as digit
  }

  function CharOf(d: digit): char { ALPHABET[d as int] }

  lemma AlphabetCodes(i: nat)
    requires i < 32
    ensures ALPHABET[i] as int == if i < 26 then 65 + i else 24 + i
  {
  }

  lemma CharRoundTrip(d: digit)
    ensures InAlphabet(CharOf(d)) && DigitOf(CharOf(d)) == d
  {
    var i := IndexFrom(CharOf(d), 0);
    AlphabetCodes(d as int);
    AlphabetCodes(i);
    IntAsDigit(i);
  }

  lemma DigitRoundTrip(c: char)
    requires InAlphabet(c)
    ensures CharOf(DigitOf(c)) == c
  {
    IntAsDigit(IndexFrom(c, 0));
  }

  lemma IntAsDigit(i: int)
    requires 0 <= i < 32
    ensures (i as digit) as int == i
  {
  }

  predicate AllInAlphabet(s: string) { forall c <- s :: InAlphabet(c) }

  function Digits(s: string): (ds: seq<digit>)
    requires AllInAlphabet(s)
    ensures |ds| == |s|
  {
    seq(|s|, i requires 0 <= i < |s| => DigitOf(s[i]))
  }

  // ---------------------------------------------------------------- regrouping, in closed form

  /** The last three digits before position `e`, as one number; digits before the start read as zero. */
  function Window(ds: seq<digit>, e: nat): bv32
    requires e <= |ds|
  {
    Pack(Before(ds, e, 3), Before(ds, e, 2), Before(ds, e, 1))
  }

  function Before(ds: seq<digit>, e: nat, back: nat): digit
    requires e <= |ds|
  {
    if 0 < back <= e then ds[e - back] else 0
  }

  function Pack(a: digit, b: digit, c: digit): bv32 {
    ((a as bv32) << 10) | ((b as bv32) << 5) | (c as bv32)
  }

  /** Unsigned right shift by what is left over once a byte is complete: at most four bits. */
  function ShiftRight(v: bv32, n: nat): bv32
    requires n <= 4
  {
    if n == 0 then v else if n == 1 then v >> 1 else if n == 2 then v >> 2 else if n == 3 then v >> 3 else v >> 4
  }

  function LowByte(v: bv32): byte { (v & 0xff) as byte }

  /** How many digits complete byte `k`, and how many of their bits belong to the next byte. */
  function DigitsFor(k: nat): nat { (8 * k + 12) / 5 }
  function Slack(k: nat): (n: nat)
    ensures n <= 4
  {
    5 * DigitsFor(k) - 8 * (k + 1)
  }

  function ByteAt(ds: seq<digit>, k: nat): byte
    requires 8 * (k + 1) <= 5 * |ds|
  {
    LowByte(ShiftRight(Window(ds, DigitsFor(k)), Slack(k)))
  }

  /** All complete bytes of the digit stream. */
  function Regroup(ds: seq<digit>): (bs: seq<byte>)
    ensures |bs| == 5 * |ds| / 8
  {
    seq(5 * |ds| / 8, k requires 0 <= k < 5 * |ds| / 8 => ByteAt(ds, k))
  }

  // ---------------------------------------------------------------- the loop

  datatype Decoded = Bytes(bytes: seq<byte>) | InvalidCharacter

  /** `(value << 5) | idx`, the bits pushed out at the top being lost. */
  function Push(v: bv32, d: digit): bv32 { OrWide(Shifted(v), d as bv32) }

  function Kept(v: bv32): bv32 { v & 0x7fff }

  lemma PushDigit(v: bv32, a: digit, b: digit, c: digit, d: digit)
    requires Kept(v) == Pack(a, b, c)
    ensures Kept(Push(v, d)) == Pack(b, c, d)
  {
    hide *;
    PushKept(v, d);
    PushPacked(a, b, c, d);
  }

  function Shifted(v: bv32): bv32 { v << 5 }

  function OrWide(v: bv32, w: bv32): bv32 { v | w }

  lemma KeptShifted(v: bv32)
    ensures Kept(Shifted(v)) == Kept(Shifted(Kept(v)))
  {
  }

  lemma KeptOr(v: bv32, w: bv32)
    ensures Kept(OrWide(v, w)) == OrWide(Kept(v), Kept(w))
  {
  }

  lemma PushKept(v: bv32, d: digit)
    ensures Kept(Push(v, d)) == Kept(Push(Kept(v), d))
  {
    hide Kept, Shifted, OrWide;
    KeptShifted(v);
    KeptOr(Shifted(v), d as bv32);
    KeptOr(Shifted(Kept(v)), d as bv32);
  }

  lemma PushPacked(a: digit, b: digit, c: digit, d: digit)
    ensures Kept(Push(Pack(a, b, c), d)) == Pack(b, c, d)
  {
  }

  predicate SameLow(v: bv32, w: bv32) { v & 0xff == w & 0xff }

  lemma SameLowByte(v: bv32, w: bv32)
    requires SameLow(v, w)
    ensures LowByte(v) == LowByte(w)
  {
  }

  lemma WindowSuffices(v: bv32, n: nat)
    requires n <= 4
    ensures SameLow(ShiftRight(v, n), ShiftRight(Kept(v), n))
  {
    if n == 0 {} else if n == 1 {} else if n == 2 {} else if n == 3 {} else {}
  }

  /** The bits above the 15-bit window never reach an emitted byte. */
  lemma TakeByte(v: bv32, n: nat)
    requires n <= 4
    ensures LowByte(ShiftRight(v, n)) == LowByte(ShiftRight(Kept(v), n))
  {
    hide *;
    WindowSuffices(v, n);
    SameLowByte(ShiftRight(v, n), ShiftRight(Kept(v), n));
  }

  /** One more digit completes at most one byte, the one its window holds, and changes none of the earlier ones. */
  lemma OneMoreDigit(ds: seq<digit>, d: digit)
    ensures var more := ds + [d];
            var bytes := Regroup(ds);
            var bits := 5 * |more| - 8 * |bytes|;
            && bits < 13
            && Regroup(more) == if bits < 8 then bytes
                                else bytes + [LowByte(ShiftRight(Window(more, |more|), bits - 8))]
  {
    hide Window, ShiftRight, LowByte;
    var more := ds + [d];
    var bytes := Regroup(ds);
    forall k | 0 <= k < |bytes| ensures Regroup(more)[k] == bytes[k] {
      SameWindow(ds, d, DigitsFor(k));
    }
    if 5 * |more| - 8 * |bytes| >= 8 {
      assert DigitsFor(|bytes|) == |more|;
      assert Regroup(more)[|bytes|] == ByteAt(more, |bytes|);
    }
  }

  lemma SameWindow(ds: seq<digit>, d: digit, e: nat)
    requires e <= |ds|
    ensures Window(ds + [d], e) == Window(ds, e)
  {
    var more := ds + [d];
    assert Before(more, e, 3) == Before(ds, e, 3);
    assert Before(more, e, 2) == Before(ds, e, 2);
    assert Before(more, e, 1) == Before(ds, e, 1);
  }

  lemma NextWindow(ds: seq<digit>, d: digit)
    ensures Window(ds + [d], |ds| + 1) == Pack(Before(ds, |ds|, 2), Before(ds, |ds|, 1), d)
  {
    var more, e := ds + [d], |ds| + 1;
    assert Before(more, e, 3) == Before(ds, |ds|, 2);
    assert Before(more, e, 2) == Before(ds, |ds|, 1);
    assert Before(more, e, 1) == d;
  }

  /** Wrapping loses nothing: the loop returns the regrouped stream for every input, of every length. */
  method DecodeBase32(input: string) returns (r: Decoded)
    ensures r == if AllInAlphabet(input) then Bytes(Regroup(Digits(input))) else InvalidCharacter
  {
    hide Regroup, ShiftRight, LowByte, Pack, Window, Before, Push, Kept, IndexFrom;
    var bits: nat := 0;
    var value: bv32 := 0;
    var bytes: seq<byte> := [];
    NothingYet();
    for i := 0 to |input|
      invariant AllInAlphabet(input[..i])
      invariant bits == 5 * i - 8 * |bytes| && bits < 8
      invariant Kept(value) == Window(Digits(input[..i]), i)
      invariant bytes == Regroup(Digits(input[..i]))
    {
      var idx := IndexFrom(input[i], 0);
      if idx == -1 {
        assert !InAlphabet(input[i]);
        return InvalidCharacter;
      }
      ghost var ds, d := Digits(input[..i]), DigitOf(input[i]);
      MoreDigits(input, i);
      NextWindow(ds, d);
      OneMoreDigit(ds, d);
      PushDigit(value, Before(ds, i, 3), Before(ds, i, 2), Before(ds, i, 1), d) by { WindowIsPack(ds); }
      value := Push(value, idx as digit);
      bits := bits + 5;
      if bits >= 8 {
        TakeByte(value, bits - 8);
        bytes := bytes + [LowByte(ShiftRight(value, bits - 8))];
        bits := bits - 8;
      }
    }
    assert input[..|input|] == input;
    return Bytes(bytes);
  }

  lemma NothingYet()
    ensures Digits("") == [] && Window([], 0) == Kept(0) && Regroup([]) == []
  {
  }

  lemma WindowIsPack(ds: seq<digit>)
    ensures Window(ds, |ds|) == Pack(Before(ds, |ds|, 3), Before(ds, |ds|, 2), Before(ds, |ds|, 1))
  {
  }

  lemma MoreDigits(s: string, i: nat)
    requires i < |s| && AllInAlphabet(s[..i]) && InAlphabet(s[i])
    ensures AllInAlphabet(s[..i + 1])
    ensures Digits(s[..i + 1]) == Digits(s[..i]) + [DigitOf(s[i])]
  {
    assert s[..i + 1] == s[..i] + [s[i]];
  }

  // ---------------------------------------------------------------- bit for bit

  predicate BitOfByte(b: byte, p: nat)
    requires p < 8
  {
    if p == 0 then b & 0x80 != 0 else if p == 1 then b & 0x40 != 0 else if p == 2 then b & 0x20 != 0
    else if p == 3 then b & 0x10 != 0 else if p == 4 then b & 0x08 != 0 else if p == 5 then b & 0x04 != 0
    else if p == 6 then b & 0x02 != 0 else b & 0x01 != 0
  }

  predicate BitOfDigit(d: digit, p: nat)
    requires p < 5
  {
    if p == 0 then d & 0x10 != 0 else if p == 1 then d & 0x08 != 0 else if p == 2 then d & 0x04 != 0
    else if p == 3 then d & 0x02 != 0 else d & 0x01 != 0
  }

  /** Bit `p` of byte `k` is bit `8k + p` of the digit stream, most significant bits first. */
  lemma RegroupsBits(ds: seq<digit>, k: nat, p: nat)
    requires k < |Regroup(ds)| && p < 8
    ensures BitOfByte(Regroup(ds)[k], p) == BitOfDigit(ds[(8 * k + p) / 5], (8 * k + p) % 5)
  {
    var e, n := DigitsFor(k), Slack(k);
    WindowBits(Before(ds, e, 3), Before(ds, e, 2), Before(ds, e, 1), n, p);
    var t := 5 * 3 - n - 8 + p;
    assert 8 * k + p == 5 * (e - 3) + t;
    assert (8 * k + p) / 5 == e - 3 + t / 5 && (8 * k + p) % 5 == t % 5;
  }

  lemma WindowBits(a: digit, b: digit, c: digit, n: nat, p: nat)
    requires n <= 4 && p < 8
    ensures var t := 7 - n + p;
            BitOfByte(LowByte(ShiftRight(Pack(a, b, c), n)), p)
            == BitOfDigit(if t < 5 then a else if t < 10 then b else c, t % 5)
  {
    if n == 0 {} else if n == 1 {} else if n == 2 {} else if n == 3 {} else {}
  }

  // ---------------------------------------------------------------- encoding (RFC 4648, section 6)

  /** Five bits of the byte pair `a`, `b`, from bit `off` on. */
  function FiveBits(a: byte, b: byte, off: nat): digit
    requires off < 8
  {
    var v := ((a as bv16) << 8) | (b as bv16);
    LowDigit(if off == 0 then v >> 11 else if off == 1 then v >> 10 else if off == 2 then v >> 9
             else if off == 3 then v >> 8 else if off == 4 then v >> 7 else if off == 5 then v >> 6
             else if off == 6 then v >> 5 else v >> 4)
  }

  function LowDigit(v: bv16): digit { (v & 0x1f) as digit }

  function ByteOrZero(bs: seq<byte>, k: nat): byte { if k < |bs| then bs[k] else 0 }

  /** The base-32 digits of a byte string; a last digit that is cut short is filled with zero bits. */
  function Encode(bs: seq<byte>): (ds: seq<digit>)
    ensures |ds| == (8 * |bs| + 4) / 5
  {
    seq((8 * |bs| + 4) / 5, j requires 0 <= j =>
      FiveBits(ByteOrZero(bs, 5 * j / 8), ByteOrZero(bs, 5 * j / 8 + 1), 5 * j % 8))
  }

  lemma PairBits(a: byte, b: byte, off: nat, q: nat)
    requires off < 8 && q < 5
    ensures BitOfDigit(FiveBits(a, b, off), q) == BitOfByte(if off + q < 8 then a else b, (off + q) % 8)
  {
    if off == 0 {} else if off == 1 {} else if off == 2 {} else if off == 3 {}
    else if off == 4 {} else if off == 5 {} else if off == 6 {} else {}
  }

  /** Bit `q` of digit `j` is bit `5j + q` of the byte stream. */
  lemma EncodesBits(bs: seq<byte>, j: nat, q: nat)
    requires q < 5 && 5 * j + q < 8 * |bs|
    ensures BitOfDigit(Encode(bs)[j], q) == BitOfByte(bs[(5 * j + q) / 8], (5 * j + q) % 8)
  {
    hide FiveBits, BitOfDigit, BitOfByte;
    PairBits(ByteOrZero(bs, 5 * j / 8), ByteOrZero(bs, 5 * j / 8 + 1), 5 * j % 8, q);
  }

  lemma SameByte(a: byte, b: byte)
    requires forall p: nat :: p < 8 ==> BitOfByte(a, p) == BitOfByte(b, p)
    ensures a == b
  {
    assert BitOfByte(a, 0) == BitOfByte(b, 0) && BitOfByte(a, 1) == BitOfByte(b, 1);
    assert BitOfByte(a, 2) == BitOfByte(b, 2) && BitOfByte(a, 3) == BitOfByte(b, 3);
    assert BitOfByte(a, 4) == BitOfByte(b, 4) && BitOfByte(a, 5) == BitOfByte(b, 5);
    assert BitOfByte(a, 6) == BitOfByte(b, 6) && BitOfByte(a, 7) == BitOfByte(b, 7);
  }

  lemma SameDigit(a: digit, b: digit)
    requires forall q: nat :: q < 5 ==> BitOfDigit(a, q) == BitOfDigit(b, q)
    ensures a == b
  {
    assert BitOfDigit(a, 0) == BitOfDigit(b, 0) && BitOfDigit(a, 1) == BitOfDigit(b, 1);
    assert BitOfDigit(a, 2) == BitOfDigit(b, 2) && BitOfDigit(a, 3) == BitOfDigit(b, 3);
    assert BitOfDigit(a, 4) == BitOfDigit(b, 4);
  }

  /** Decoding undoes encoding, for byte strings of every length. */
  lemma DecodeEncode(bs: seq<byte>)
    ensures Regroup(Encode(bs)) == bs
  {
    hide ByteAt, Encode, BitOfByte, BitOfDigit;
    var ds := Encode(bs);
    forall k | 0 <= k < |bs| ensures Regroup(ds)[k] == bs[k] {
      forall p: nat | p < 8 ensures BitOfByte(Regroup(ds)[k], p) == BitOfByte(bs[k], p) {
        RegroupsBits(ds, k, p);
        EncodesBits(bs, (8 * k + p) / 5, (8 * k + p) % 5);
      }
      SameByte(Regroup(ds)[k], bs[k]);
    }
  }

  /** Encoding undoes decoding, on whole 40-bit groups. */
  lemma EncodeDecode(ds: seq<digit>)
    requires |ds| % 8 == 0
    ensures Encode(Regroup(ds)) == ds
  {
    hide ByteAt, BitOfByte, BitOfDigit, FiveBits;
    var bs := Regroup(ds);
    forall j | 0 <= j < |ds| ensures Encode(bs)[j] == ds[j] {
      forall q: nat | q < 5 ensures BitOfDigit(Encode(bs)[j], q) == BitOfDigit(ds[j], q) {
        EncodesBits(bs, j, q);
        RegroupsBits(ds, (5 * j + q) / 8, (5 * j + q) % 8);
      }
      SameDigit(Encode(bs)[j], ds[j]);
    }
  }
}
