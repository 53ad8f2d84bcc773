/**
 * What an error does to the checksum equation of an account id: its syndrome, which is linear, and which for a single
 * wrong character is a power of x times the error, wherever the checksum itself is not hit.
 */
module StrKeySyndrome {
  import opened Wrappers
  import opened Base32
  import opened Crc16
  import opened Crc16Division
  import opened StrKey

  /** Zero exactly when the stored checksum is that of the payload. */
  function Syndrome(bytes: seq<byte>): word
    requires |bytes| == 35
  {
    XorWord(Crc(bytes[..33]), Stored(bytes))
  }

  lemma SealedSyndrome(bytes: seq<byte>)
    requires |bytes| == 35
    ensures Sealed(bytes) <==> bytes[0] == ACCOUNT_ID_VERSION_BYTE && Syndrome(bytes) == 0
  {
    hide Crc, Join;
    XorZeroWord(Crc(bytes[..33]), Stored(bytes));
  }

  lemma XorZeroWord(a: word, b: word)
    ensures XorWord(a, b) == 0 <==> a == b
  {
    hide XorWord;
    XorGroup(a, b, b);
    XorCancel(b);
    XorCancel(a);
    XorCommutes(0, b);
  }

  lemma SyndromeLinear(a: seq<byte>, b: seq<byte>)
    requires |a| == 35 && |b| == 35
    ensures Syndrome(Xor(a, b)) == XorWord(Syndrome(a), Syndrome(b))
  {
    hide Crc, Join, XorByte, XorWord;
    assert Xor(a, b)[..33] == Xor(a[..33], b[..33]);
    CrcLinear(a[..33], b[..33]);
    JoinLinear(a[33], a[34], b[33], b[34]);
    XorFour(Crc(a[..33]), Crc(b[..33]), Stored(a), Stored(b));
  }

  lemma JoinLinear(a: byte, b: byte, c: byte, d: byte)
    ensures Join(XorByte(a, c), XorByte(b, d)) == XorWord(Join(a, b), Join(c, d))
  {
  }

  lemma XorFour(a: word, b: word, c: word, d: word)
    ensures XorWord(XorWord(a, b), XorWord(c, d)) == XorWord(XorWord(a, c), XorWord(b, d))
  {
    hide XorWord;
    XorGroup(XorWord(a, b), c, d);
    XorSwap(a, b, c);
    XorGroup(XorWord(a, c), b, d);
  }

  // ---------------------------------------------------------------- errors, digit by digit

  function XorDigit(a: digit, b: digit): digit { a ^ b }

  function XorDigits(x: seq<digit>, y: seq<digit>): (z: seq<digit>)
    requires |x| == |y|
    ensures |z| == |x|
  {
    seq(|x|, i requires 0 <= i < |x| => XorDigit(x[i], y[i]))
  }

  lemma XorByteBit(a: byte, b: byte, p: nat)
    requires p < 8
    ensures BitOfByte(XorByte(a, b), p) == (BitOfByte(a, p) != BitOfByte(b, p))
  {
    if p == 0 {} else if p == 1 {} else if p == 2 {} else if p == 3 {}
    else if p == 4 {} else if p == 5 {} else if p == 6 {} else {}
  }

  lemma XorDigitBit(a: digit, b: digit, p: nat)
    requires p < 5
    ensures BitOfDigit(XorDigit(a, b), p) == (BitOfDigit(a, p) != BitOfDigit(b, p))
  {
    if p == 0 {} else if p == 1 {} else if p == 2 {} else if p == 3 {} else {}
  }

  lemma RegroupLinear(x: seq<digit>, y: seq<digit>)
    requires |x| == |y|
    ensures Regroup(XorDigits(x, y)) == Xor(Regroup(x), Regroup(y))
  {
    hide BitOfByte, BitOfDigit, XorByte, XorDigit, ByteAt;
    var z := XorDigits(x, y);
    var a, b := Regroup(x), Regroup(y);
    forall k | 0 <= k < |a| ensures Regroup(z)[k] == Xor(a, b)[k] {
      forall p: nat | p < 8 ensures BitOfByte(Regroup(z)[k], p) == BitOfByte(Xor(a, b)[k], p) {
        RegroupsBits(x, k, p);
        RegroupsBits(y, k, p);
        RegroupsBits(z, k, p);
        XorByteBit(a[k], b[k], p);
        XorDigitBit(x[(8 * k + p) / 5], y[(8 * k + p) / 5], (8 * k + p) % 5);
      }
      SameByte(Regroup(z)[k], Xor(a, b)[k]);
    }
  }

  /** The error with digit `e` at place `i` and nothing else. */
  function One(i: nat, e: digit): (ds: seq<digit>)
    requires i < 56
    ensures |ds| == 56
  {
    seq(56, k => if k == i then e else 0)
  }

  function SyndromeOf(ds: seq<digit>): word
    requires |ds| == 56
  {
    Syndrome(Regroup(ds))
  }

  lemma SyndromeOfLinear(x: seq<digit>, y: seq<digit>)
    requires |x| == |y| == 56
    ensures SyndromeOf(XorDigits(x, y)) == XorWord(SyndromeOf(x), SyndromeOf(y))
  {
    hide Syndrome, Regroup, XorWord;
    RegroupLinear(x, y);
    SyndromeLinear(Regroup(x), Regroup(y));
  }

  // ---------------------------------------------------------------- the register over a stream of digits

  function Stream(ds: seq<digit>): (bits: seq<bool>)
    ensures |bits| == 5 * |ds|
  {
    seq(5 * |ds|, q requires 0 <= q < 5 * |ds| => BitOfDigit(ds[q / 5], q % 5))
  }

  lemma {:induction false} MessageBit(bytes: seq<byte>, q: nat)
    requires q < 8 * |bytes|
    ensures MessageBits(bytes)[q] == BitOfByte(bytes[q / 8], q % 8)
    decreases |bytes|
  {
    var n := |bytes| - 1;
    if q < 8 * n {
      MessageBit(bytes[..n], q);
    } else {
      ByteBit(bytes[n], q - 8 * n);
    }
  }

  lemma ByteBit(b: byte, p: nat)
    requires p < 8
    ensures ByteBits(b)[p] == BitOfByte(b, p)
  {
  }

  /** The payload's bits are the first 264 of the digits. */
  lemma PayloadBits(ds: seq<digit>)
    requires |ds| == 56
    ensures MessageBits(Regroup(ds)[..33]) == Stream(ds)[..264]
  {
    hide BitOfByte, BitOfDigit, ByteAt, MessageBits;
    var payload := Regroup(ds)[..33];
    forall q | 0 <= q < 264 ensures MessageBits(payload)[q] == Stream(ds)[q] {
      MessageBit(payload, q);
      RegroupsBits(ds, q / 8, q % 8);
      assert 8 * (q / 8) + q % 8 == q;
    }
  }

  lemma {:induction false} RegisterHead(n: nat, tail: seq<bool>)
    ensures Register(Repeat(false, n) + tail) == Register(tail)
    decreases n + |tail|
  {
    hide Shift;
    var all := Repeat(false, n) + tail;
    if tail != [] {
      var m := |tail| - 1;
      assert all[..|all| - 1] == Repeat(false, n) + tail[..m];
      RegisterHead(n, tail[..m]);
    } else if n > 0 {
      assert all[..|all| - 1] == Repeat(false, n - 1) + tail;
      RegisterHead(n - 1, tail);
      ShiftInvertible(0);
    }
  }

  lemma {:induction false} RegisterTail(head: seq<bool>, n: nat)
    ensures Register(head + Repeat(false, n)) == Shifts(Register(head), n)
  {
    hide Shift;
    var all := head + Repeat(false, n);
    if n == 0 {
      assert all == head;
    } else {
      assert all[..|all| - 1] == head + Repeat(false, n - 1);
      RegisterTail(head, n - 1);
    }
  }

  function DigitBits(e: digit): (bits: seq<bool>)
    ensures |bits| == 5
  {
    [e & 0x10 != 0, e & 0x08 != 0, e & 0x04 != 0, e & 0x02 != 0, e & 0x01 != 0]
  }

  function Fed(e: digit): word {
    Shift(FoldBit(Shift(FoldBit(Shift(FoldBit(Shift(FoldBit(Shift(FoldBit(0, e & 0x10 != 0)), e & 0x08 != 0)),
      e & 0x04 != 0)), e & 0x02 != 0)), e & 0x01 != 0))
  }

  lemma RegisterOfDigit(e: digit)
    ensures Register(DigitBits(e)) == Fed(e)
  {
    hide Shift, FoldBit, Register;
    var b := DigitBits(e);
    EmptyRegister();
    assert b[..1] == [] + [b[0]] && b[..2] == b[..1] + [b[1]] && b[..3] == b[..2] + [b[2]];
    assert b[..4] == b[..3] + [b[3]] && b == b[..4] + [b[4]];
    RegisterAppend([], b[0]);
    RegisterAppend(b[..1], b[1]);
    RegisterAppend(b[..2], b[2]);
    RegisterAppend(b[..3], b[3]);
    RegisterAppend(b[..4], b[4]);
  }

  /** Feeding five bits is multiplying them, as a polynomial, by x^16. */
  lemma FedIsSixteenShifts(e: digit)
    ensures Fed(e) == EightShifts(EightShifts(e as word))
  {
  }

  lemma {:induction false} ShiftsAdd(c: word, m: nat, n: nat)
    ensures Shifts(Shifts(c, m), n) == Shifts(c, m + n)
  {
    hide Shift;
    if n > 0 {
      ShiftsAdd(c, m, n - 1);
    }
  }

  lemma EightByUnrolling(c: word)
    ensures EightShifts(c) == Shifts(c, 8)
  {
    hide Shift;
    assert Shifts(c, 8) == Shift(Shifts(c, 7)) == Shift(Shift(Shifts(c, 6))) == Shift(Shift(Shift(Shifts(c, 5))));
    assert Shifts(c, 5) == Shift(Shifts(c, 4)) == Shift(Shift(Shifts(c, 3))) == Shift(Shift(Shift(Shifts(c, 2))));
    assert Shifts(c, 2) == Shift(Shifts(c, 1)) == Shift(Shift(Shifts(c, 0)));
  }

  // ---------------------------------------------------------------- the syndrome of one wrong digit

  /** Four bits at the very end of the payload, times the generator's lower terms. */
  function LastFour(h: digit): word { ((h as word) << 12) | ((h as word) << 5) | (h as word) }

  lemma EnterLastFour(h: digit)
    requires h < 16
    ensures EnterUnrolled(0, h as byte) == LastFour(h)
  {
  }

  /**
   * Left of the checksum a wrong digit counts as its polynomial times a power of x. Digit 52 has four bits in the
   * payload and one in the checksum; the checksum's low byte comes first.
   */
  function DigitSyndrome(i: nat, e: digit): word
    requires i < 56
  {
    if i <= 51 then Shifts(e as word, 5 * (55 - i))
    else if i == 52 then XorWord(LastFour(e >> 1), ((e & 1) as word) << 7)
    else if i == 53 then (e as word) << 2
    else if i == 54 then ((e >> 3) as word) | (((e & 7) as word) << 13)
    else (e as word) << 8
  }

  lemma StreamOfOne(i: nat, e: digit)
    requires i <= 51
    ensures Stream(One(i, e))[..264] == Repeat(false, 5 * i) + DigitBits(e) + Repeat(false, 259 - 5 * i)
  {
    var ds := One(i, e);
    var right := Repeat(false, 5 * i) + DigitBits(e) + Repeat(false, 259 - 5 * i);
    forall q | 0 <= q < 264 ensures Stream(ds)[q] == right[q] {
      if q / 5 == i {
        BitOfDigitBits(e, q % 5);
        assert q == 5 * i + q % 5;
      } else {
        BitOfDigitBits(0, q % 5);
      }
    }
  }

  lemma BitOfDigitBits(e: digit, p: nat)
    requires p < 5
    ensures BitOfDigit(e, p) == DigitBits(e)[p]
    ensures e == 0 ==> !BitOfDigit(e, p)
  {
  }

  /** The last three bytes, read off the last six digits. */
  lemma LastBytes(ds: seq<digit>)
    requires |ds| == 56
    ensures Regroup(ds)[32] == LowByte(ShiftRight(Pack(ds[50], ds[51], ds[52]), 1))
    ensures Regroup(ds)[33] == LowByte(ShiftRight(Pack(ds[52], ds[53], ds[54]), 3))
    ensures Regroup(ds)[34] == LowByte(ShiftRight(Pack(ds[53], ds[54], ds[55]), 0))
  {
    hide LowByte, ShiftRight, Pack;
    assert DigitsFor(32) == 53 && Slack(32) == 1 && DigitsFor(33) == 55 && Slack(33) == 3;
    assert DigitsFor(34) == 56 && Slack(34) == 0;
  }

  lemma CrcOfOneDigit(i: nat, e: digit)
    requires i <= 51
    ensures Crc(Regroup(One(i, e))[..33]) == Shifts(e as word, 5 * (55 - i))
  {
    hide Crc, Register, Regroup, Stream, One, DigitBits, Fed, Shifts, EightShifts;
    PayloadBits(One(i, e));
    RegisterIsCrc(Regroup(One(i, e))[..33]);
    StreamOfOne(i, e);
    var n := 259 - 5 * i;
    RegisterTail(Repeat(false, 5 * i) + DigitBits(e), n);
    RegisterHead(5 * i, DigitBits(e));
    RegisterOfDigit(e);
    FedIsSixteenShifts(e);
    EightByUnrolling(e as word);
    EightByUnrolling(EightShifts(e as word));
    ShiftsAdd(e as word, 8, 8);
    ShiftsAdd(e as word, 16, n);
  }

  lemma StoredOfOneDigit(i: nat, e: digit)
    requires i <= 51
    ensures Stored(Regroup(One(i, e))) == 0
  {
    LastBytes(One(i, e));
    NothingPacked();
  }

  lemma NothingPacked()
    ensures LowByte(ShiftRight(Pack(0, 0, 0), 3)) == 0 && LowByte(ShiftRight(Pack(0, 0, 0), 0)) == 0
    ensures LowByte(ShiftRight(Pack(0, 0, 0), 1)) == 0 && Join(0, 0) == 0
  {
  }

  /** Digits behind place 51 leave the payload alone but for its last byte. */
  lemma PayloadOfLate(i: nat, e: digit)
    requires 52 <= i < 56
    ensures Regroup(One(i, e))[..32] == Repeat(0, 32)
  {
    hide BitOfByte, BitOfDigit, ByteAt;
    var ds := One(i, e);
    forall k | 0 <= k < 32 ensures Regroup(ds)[k] == 0 {
      forall p: nat | p < 8 ensures BitOfByte(Regroup(ds)[k], p) == BitOfByte(0, p) {
        RegroupsBits(ds, k, p);
        BitOfDigitBits(0, (8 * k + p) % 5);
        NoBits(p);
      }
      SameByte(Regroup(ds)[k], 0);
    }
  }

  lemma NoBits(p: nat)
    requires p < 8
    ensures !BitOfByte(0, p)
  {
  }

  lemma SyndromeOfLate(i: nat, e: digit)
    requires 52 <= i < 56
    ensures SyndromeOf(One(i, e))
            == var bytes := Regroup(One(i, e)); XorWord(EnterUnrolled(0, bytes[32]), Join(bytes[33], bytes[34]))
  {
    hide Regroup, Crc, EnterUnrolled, Join, XorWord, One;
    var bytes := Regroup(One(i, e));
    PayloadOfLate(i, e);
    assert bytes[..33] == Repeat(0, 32) + [bytes[32]];
    LeadingZeros(32, [bytes[32]]);
    CrcOfOne(bytes[32]);
  }

  lemma Late52(e: digit)
    ensures LowByte(ShiftRight(Pack(0, 0, e), 1)) == (e >> 1) as byte && e >> 1 < 16
    ensures Join(LowByte(ShiftRight(Pack(e, 0, 0), 3)), LowByte(ShiftRight(Pack(0, 0, 0), 0))) == ((e & 1) as word) << 7
  {
  }

  lemma Late53(e: digit)
    ensures Join(LowByte(ShiftRight(Pack(0, e, 0), 3)), LowByte(ShiftRight(Pack(e, 0, 0), 0))) == (e as word) << 2
  {
  }

  lemma Late54(e: digit)
    ensures Join(LowByte(ShiftRight(Pack(0, 0, e), 3)), LowByte(ShiftRight(Pack(0, e, 0), 0)))
            == ((e >> 3) as word) | (((e & 7) as word) << 13)
  {
  }

  lemma Late55(e: digit)
    ensures Join(LowByte(ShiftRight(Pack(0, 0, 0), 3)), LowByte(ShiftRight(Pack(0, 0, e), 0))) == (e as word) << 8
  {
  }

  lemma EnterNothing(c: word)
    ensures EnterUnrolled(0, 0) == 0 && XorWord(0, c) == c && XorWord(c, 0) == c
  {
  }

  lemma SyndromeOfOne(i: nat, e: digit)
    requires i < 56
    ensures SyndromeOf(One(i, e)) == DigitSyndrome(i, e)
  {
    hide Regroup, Crc, EnterUnrolled, LastFour, Join, XorWord, LowByte, ShiftRight, Pack, Shifts;
    EnterNothing(DigitSyndrome(i, e));
    if i <= 51 {
      CrcOfOneDigit(i, e);
      StoredOfOneDigit(i, e);
    } else {
      SyndromeOfLate(i, e);
      LastBytes(One(i, e));
      NothingPacked();
      Late52(e);
      EnterLastFour(e >> 1);
      Late53(e);
      Late54(e);
      Late55(e);
    }
  }
}
