/**
 * What the checksum is: the remainder of the message, times x^16, divided by x^16 + x^12 + x^5 + 1 over GF(2).
 * Polynomials are bit strings, most significant coefficient first.
 */
module Crc16Division {
  import opened Wrappers
  import opened Crc16

  function XorBits(a: seq<bool>, b: seq<bool>): (x: seq<bool>)
    requires |a| == |b|
    ensures |x| == |a|
  {
    seq(|a|, i requires 0 <= i < |a| => a[i] != b[i])
  }

  function BitOfWord(w: word, k: nat): bool
    requires k < 16
  {
    if k == 0 then w & 0x8000 != 0 else if k == 1 then w & 0x4000 != 0 else if k == 2 then w & 0x2000 != 0
    else if k == 3 then w & 0x1000 != 0 else if k == 4 then w & 0x0800 != 0 else if k == 5 then w & 0x0400 != 0
    else if k == 6 then w & 0x0200 != 0 else if k == 7 then w & 0x0100 != 0 else if k == 8 then w & 0x0080 != 0
    else if k == 9 then w & 0x0040 != 0 else if k == 10 then w & 0x0020 != 0 else if k == 11 then w & 0x0010 != 0
    else if k == 12 then w & 0x0008 != 0 else if k == 13 then w & 0x0004 != 0 else if k == 14 then w & 0x0002 != 0
    else w & 0x0001 != 0
  }

  function WordBits(w: word): (bits: seq<bool>)
    ensures |bits| == 16
  {
    seq(16, k requires 0 <= k < 16 => BitOfWord(w, k))
  }

  /** Seventeen coefficients: degrees 16, 12, 5 and 0. */
  function Generator(): (g: seq<bool>)
    ensures |g| == 17
  {
    seq(17, k requires 0 <= k < 17 => k == 0 || k == 4 || k == 11 || k == 16)
  }

  /** The product of `q` and the generator, by Horner's rule. */
  function TimesGenerator(q: seq<bool>): (p: seq<bool>)
    ensures |p| == |q| + 16
  {
    if q == [] then Repeat(false, 16)
    else
      var n := |q| - 1;
      XorBits(TimesGenerator(q[..n]) + [false], Repeat(false, n) + if q[n] then Generator() else Repeat(false, 17))
  }

  // ---------------------------------------------------------------- the register, one message bit at a time

  function FoldBit(r: word, b: bool): word { if b then XorWord(r, 0x8000) else r }

  function Register(bits: seq<bool>): word {
    if bits == [] then 0 else Shift(FoldBit(Register(bits[..|bits| - 1]), bits[|bits| - 1]))
  }

  function Quotient(bits: seq<bool>): (q: seq<bool>)
    ensures |q| == |bits|
  {
    if bits == [] then []
    else Quotient(bits[..|bits| - 1]) + [Top(FoldBit(Register(bits[..|bits| - 1]), bits[|bits| - 1]))]
  }

  /** One shift moves the register left and subtracts the generator when a one falls out. */
  lemma ShiftedBit(r: word, b: bool, k: nat)
    requires k < 16
    ensures var f := FoldBit(r, b);
            BitOfWord(Shift(f), k) == ((k < 15 && BitOfWord(r, k + 1)) != (Top(f) && Generator()[k + 1]))
  {
    if k == 0 {} else if k == 1 {} else if k == 2 {} else if k == 3 {} else if k == 4 {} else if k == 5 {}
    else if k == 6 {} else if k == 7 {} else if k == 8 {} else if k == 9 {} else if k == 10 {} else if k == 11 {}
    else if k == 12 {} else if k == 13 {} else if k == 14 {} else {}
  }

  lemma FallenBit(r: word, b: bool)
    ensures Top(FoldBit(r, b)) == (BitOfWord(r, 0) != b)
  {
  }

  /** Long division, bit by bit: quotient times generator plus the register is the message followed by sixteen zeros. */
  lemma {:induction false} LongDivision(bits: seq<bool>)
    ensures XorBits(TimesGenerator(Quotient(bits)), Repeat(false, |bits|) + WordBits(Register(bits)))
            == bits + Repeat(false, 16)
  {
    hide Shift, Top, FoldBit, BitOfWord, Generator;
    if bits == [] {
      assert forall k: nat :: k < 16 ==> BitOfWord(0, k) == false by { NoBitsSet(); }
    } else {
      var n := |bits| - 1;
      LongDivision(bits[..n]);
      DivideOneMore(bits);
    }
  }

  lemma NoBitsSet()
    ensures forall k: nat :: k < 16 ==> !BitOfWord(0, k)
  {
  }

  lemma DivideOneMore(bits: seq<bool>)
    requires bits != []
    requires var m := bits[..|bits| - 1];
             XorBits(TimesGenerator(Quotient(m)), Repeat(false, |m|) + WordBits(Register(m))) == m + Repeat(false, 16)
    ensures XorBits(TimesGenerator(Quotient(bits)), Repeat(false, |bits|) + WordBits(Register(bits)))
            == bits + Repeat(false, 16)
  {
    hide Shift, Top, FoldBit, BitOfWord, Generator;
    var n := |bits| - 1;
    var m, b := bits[..n], bits[n];
    var r, r' := Register(m), Register(bits);
    var q, q' := Quotient(m), Quotient(bits);
    var t := q'[n];
    assert q'[..n] == q;
    var before, after := TimesGenerator(q), TimesGenerator(q');
    var rest := Repeat(false, n + 1) + WordBits(r');
    var old_rest := Repeat(false, n) + WordBits(r);
    FallenBit(r, b);
    GeneratorLeads();
    forall i | 0 <= i < n + 17 ensures (after[i] != rest[i]) == (bits + Repeat(false, 16))[i] {
      assert i < n + 16 ==> XorBits(before, old_rest)[i] == (m + Repeat(false, 16))[i];
      if i > n {
        ShiftedBit(r, b, i - n - 1);
      }
    }
  }

  lemma GeneratorLeads()
    ensures Generator()[0]
  {
  }

  // ---------------------------------------------------------------- whole bytes

  function ByteBits(b: byte): (bits: seq<bool>)
    ensures |bits| == 8
  {
    [b & 0x80 != 0, b & 0x40 != 0, b & 0x20 != 0, b & 0x10 != 0,
     b & 0x08 != 0, b & 0x04 != 0, b & 0x02 != 0, b & 0x01 != 0]
  }

  function MessageBits(bytes: seq<byte>): (bits: seq<bool>)
    ensures |bits| == 8 * |bytes|
  {
    if bytes == [] then [] else MessageBits(bytes[..|bytes| - 1]) + ByteBits(bytes[|bytes| - 1])
  }

  function Doubled(b: byte): byte { b << 1 }
  function TopBit(b: byte): bool { b & 0x80 != 0 }

  /** Folding a whole byte and shifting is folding its first bit, shifting, and folding the rest. */
  lemma PeelBit(c: word, b: byte)
    ensures Shift(Fold(c, b)) == Fold(Shift(FoldBit(c, TopBit(b))), Doubled(b))
  {
    hide Shift, XorWord;
    FoldSplits(c, b);
    ShiftLinear(FoldBit(c, TopBit(b)), Fold(0, b & 0x7f));
    RestShifts(b);
    FoldIsXor(Shift(FoldBit(c, TopBit(b))), Doubled(b));
  }

  lemma FoldSplits(c: word, b: byte)
    ensures Fold(c, b) == XorWord(FoldBit(c, TopBit(b)), Fold(0, b & 0x7f))
  {
    if TopBit(b) {} else {}
  }

  lemma RestShifts(b: byte)
    ensures Shift(Fold(0, b & 0x7f)) == Fold(0, Doubled(b))
  {
  }

  lemma FoldIsXor(c: word, b: byte)
    ensures Fold(c, b) == XorWord(c, Fold(0, b))
  {
    hide High, XorWord;
    XorCancel(High(b));
    XorCommutes(High(b), 0);
  }

  lemma {:induction false} RegisterAppend(bits: seq<bool>, b: bool)
    ensures Register(bits + [b]) == Shift(FoldBit(Register(bits), b))
  {
    assert (bits + [b])[..|bits|] == bits;
  }

  /** Feeding the eight bits of a byte one by one is entering the byte. */
  lemma EnterIsEightBits(bits: seq<bool>, b: byte)
    ensures Register(bits + ByteBits(b)) == Enter(Register(bits), b)
  {
    hide Shift, Fold, FoldBit, TopBit, Doubled, Register;
    var d1 := Doubled(b); var d2 := Doubled(d1); var d3 := Doubled(d2); var d4 := Doubled(d3);
    var d5 := Doubled(d4); var d6 := Doubled(d5); var d7 := Doubled(d6);
    BitsByDoubling(b);
    var s1 := bits + [TopBit(b)]; var s2 := s1 + [TopBit(d1)]; var s3 := s2 + [TopBit(d2)]; var s4 := s3 + [TopBit(d3)];
    var s5 := s4 + [TopBit(d4)]; var s6 := s5 + [TopBit(d5)]; var s7 := s6 + [TopBit(d6)]; var s8 := s7 + [TopBit(d7)];
    assert s8 == bits + ByteBits(b);
    PeelOne(bits, b); PeelOne(s1, d1); PeelOne(s2, d2); PeelOne(s3, d3);
    PeelOne(s4, d4); PeelOne(s5, d5); PeelOne(s6, d6); PeelOne(s7, d7);
    FoldNothing(Register(s8), Doubled(d7));
    Unroll(Register(bits), b);
  }

  lemma PeelOne(bits: seq<bool>, b: byte)
    ensures Shift(Fold(Register(bits), b)) == Fold(Register(bits + [TopBit(b)]), Doubled(b))
  {
    hide Shift, Fold, FoldBit, TopBit, Doubled;
    PeelBit(Register(bits), b);
    RegisterAppend(bits, TopBit(b));
  }

  lemma BitsByDoubling(b: byte)
    ensures var d1 := Doubled(b); var d2 := Doubled(d1); var d3 := Doubled(d2); var d4 := Doubled(d3);
            var d5 := Doubled(d4); var d6 := Doubled(d5); var d7 := Doubled(d6);
            && ByteBits(b)
               == [TopBit(b), TopBit(d1), TopBit(d2), TopBit(d3), TopBit(d4), TopBit(d5), TopBit(d6), TopBit(d7)]
            && Doubled(d7) == 0
  {
  }

  lemma FoldNothing(c: word, b: byte)
    requires b == 0
    ensures Fold(c, b) == c
  {
  }

  lemma {:induction false} RegisterIsCrc(bytes: seq<byte>)
    ensures Register(MessageBits(bytes)) == Crc(bytes)
  {
    hide Enter, Register;
    if bytes == [] {
      EmptyRegister();
    } else {
      RegisterIsCrc(bytes[..|bytes| - 1]);
      EnterIsEightBits(MessageBits(bytes[..|bytes| - 1]), bytes[|bytes| - 1]);
    }
  }

  lemma EmptyRegister()
    ensures Register([]) == 0
  {
  }

  /**
   * The checksum of every byte string is the remainder of its division by the generator: some multiple of the
   * generator and the sixteen checksum bits together make up the message followed by sixteen zeros.
   */
  lemma CrcIsRemainder(bytes: seq<byte>)
    ensures exists q :: |q| == 8 * |bytes|
                        && XorBits(TimesGenerator(q), Repeat(false, 8 * |bytes|) + WordBits(Crc(bytes)))
                           == MessageBits(bytes) + Repeat(false, 16)
  {
    var bits := MessageBits(bytes);
    LongDivision(bits);
    RegisterIsCrc(bytes);
    assert |Quotient(bits)| == 8 * |bytes|;
  }
}
