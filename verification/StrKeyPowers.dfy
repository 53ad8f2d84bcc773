/**
 * The powers of x by which wrong characters count, and how the spaces of errors at different places lie apart: for
 * every distance of two places within the payload, and for every place against the four that hold checksum bits.
 */
module StrKeyPowers {
  import opened Wrappers
  import opened Base32
  import opened Crc16
  import opened StrKeySyndrome

  /** x to the power 5n, modulo the generator. */
  function Power(n: nat): word { Shifts(1, 5 * n) }

  function FiveShifts(c: word): word { Shift(Shift(Shift(Shift(Shift(c))))) }

  lemma NextPower(n: nat)
    ensures Power(n + 1) == FiveShifts(Power(n))
  {
    hide Shift;
    var m := 5 * n;
    assert Shifts(1, m + 5) == Shift(Shifts(1, m + 4)) == Shift(Shift(Shifts(1, m + 3)));
    assert Shifts(1, m + 3) == Shift(Shifts(1, m + 2)) == Shift(Shift(Shifts(1, m + 1)));
    assert Shifts(1, m + 1) == Shift(Shifts(1, m));
  }

  // ---------------------------------------------------------------- an error times a power

  function Term(bit: bool, t: word): word { if bit then t else 0 }

  function Sum(a: word, b: word, c: word, d: word, f: word): word {
    XorWord(a, XorWord(b, XorWord(c, XorWord(d, f))))
  }

  /** The polynomial of the digit `e` times `t`. */
  function Times(t: word, e: digit): word {
    var t1 := Shift(t); var t2 := Shift(t1); var t3 := Shift(t2);
    Sum(Term(e & 0x01 != 0, t), Term(e & 0x02 != 0, t1), Term(e & 0x04 != 0, t2), Term(e & 0x08 != 0, t3),
      Term(e & 0x10 != 0, Shift(t3)))
  }

  lemma SumShifts(a: word, b: word, c: word, d: word, f: word)
    ensures Shift(Sum(a, b, c, d, f)) == Sum(Shift(a), Shift(b), Shift(c), Shift(d), Shift(f))
  {
    hide Shift, XorWord;
    ShiftLinear(a, XorWord(b, XorWord(c, XorWord(d, f))));
    ShiftLinear(b, XorWord(c, XorWord(d, f)));
    ShiftLinear(c, XorWord(d, f));
    ShiftLinear(d, f);
  }

  lemma TermShifts(bit: bool, t: word)
    ensures Shift(Term(bit, t)) == Term(bit, Shift(t))
  {
    hide Shift;
    ShiftInvertible(0);
  }

  lemma TimesShifts(t: word, e: digit)
    ensures Shift(Times(t, e)) == Times(Shift(t), e)
  {
    hide Shift, Sum, Term;
    var t1 := Shift(t); var t2 := Shift(t1); var t3 := Shift(t2); var t4 := Shift(t3);
    SumShifts(Term(e & 0x01 != 0, t), Term(e & 0x02 != 0, t1), Term(e & 0x04 != 0, t2), Term(e & 0x08 != 0, t3),
      Term(e & 0x10 != 0, t4));
    TermShifts(e & 0x01 != 0, t);
    TermShifts(e & 0x02 != 0, t1);
    TermShifts(e & 0x04 != 0, t2);
    TermShifts(e & 0x08 != 0, t3);
    TermShifts(e & 0x10 != 0, t4);
  }

  lemma TimesOne(e: digit)
    ensures Times(1, e) == e as word
  {
  }

  lemma {:induction false} ShiftsAreTimes(e: digit, n: nat)
    ensures Shifts(e as word, n) == Times(Shifts(1, n), e)
  {
    hide Shift, Times;
    if n == 0 {
      TimesOne(e);
    } else {
      ShiftsAreTimes(e, n - 1);
      TimesShifts(Shifts(1, n - 1), e);
    }
  }

  // ---------------------------------------------------------------- spaces that meet in zero only

  /**
   * No multiple of `t` by a nonzero digit is a digit, or an error at one of the four places with checksum bits: it has
   * a bit set where they have none, or does not repeat the last four payload bits as the generator does.
   */
  ghost predicate ApartLow(t: word) { forall e: digit :: e != 0 ==> Times(t, e) & 0xffe0 != 0 }
  ghost predicate Apart52(t: word) { forall e: digit :: e != 0 ==> !Repeated(Times(t, e)) }
  ghost predicate Apart53(t: word) { forall e: digit :: e != 0 ==> Times(t, e) & 0xff83 != 0 }
  ghost predicate Apart54(t: word) { forall e: digit :: e != 0 ==> Times(t, e) & 0x1ffc != 0 }
  ghost predicate Apart55(t: word) { forall e: digit :: e != 0 ==> Times(t, e) & 0xe0ff != 0 }

  predicate Repeated(w: word) { w & 0x0e10 == 0 && w >> 12 == w & 0x000f && (w >> 5) & 0x000b == w & 0x000b }

  /** The words that errors at the place `j` give. */
  predicate Shaped(j: nat, w: word) {
    if j == 52 then Repeated(w)
    else if j == 53 then w & 0xff83 == 0
    else if j == 54 then w & 0x1ffc == 0
    else w & 0xe0ff == 0
  }

  lemma LateErrors(j: nat, f: digit)
    requires 52 <= j < 56
    ensures Shaped(j, DigitSyndrome(j, f))
  {
    if j == 52 {} else if j == 53 {} else if j == 54 {} else {}
  }

  lemma Powers8()
    ensures Power(1) == 0x0020 && Power(2) == 0x0400 && Power(3) == 0x8000 && Power(4) == 0x1231
    ensures Power(5) == 0x6662 && Power(6) == 0x0dcc && Power(7) == 0xa9a1 && Power(8) == 0x76b4
  {
    hide Shifts;
    assert Power(0) == 1 by { FirstPower(); }
    NextPower(0); NextPower(1); NextPower(2); NextPower(3);
    NextPower(4); NextPower(5); NextPower(6); NextPower(7);
  }

  lemma Powers16()
    ensures Power(9) == 0x374e && Power(10) == 0x8906 && Power(11) == 0x22d0 && Power(12) == 0x1a84
    ensures Power(13) == 0x60e3 && Power(14) == 0xddec && Power(15) == 0x1eda && Power(16) == 0xeb23
  {
    hide Shifts;
    Powers8();
    NextPower(8); NextPower(9); NextPower(10); NextPower(11);
    NextPower(12); NextPower(13); NextPower(14); NextPower(15);
  }

  lemma Powers24()
    ensures Power(17) == 0xa7fc && Power(18) == 0xad35 && Power(19) == 0xe434 && Power(20) == 0x553d
    ensures Power(21) == 0x06ea && Power(22) == 0xdd40 && Power(23) == 0x0b5a && Power(24) == 0x7b61
  {
    hide Shifts;
    Powers16();
    NextPower(16); NextPower(17); NextPower(18); NextPower(19);
    NextPower(20); NextPower(21); NextPower(22); NextPower(23);
  }

  lemma Powers32()
    ensures Power(25) == 0x9dcf && Power(26) == 0x9bb2 && Power(27) == 0x5412 && Power(28) == 0x230a
    ensures Power(29) == 0x21c4 && Power(30) == 0x7804 && Power(31) == 0xf16f && Power(32) == 0xde1f
  {
    hide Shifts;
    Powers24();
    NextPower(24); NextPower(25); NextPower(26); NextPower(27);
    NextPower(28); NextPower(29); NextPower(30); NextPower(31);
  }

  lemma Powers40()
    ensures Power(33) == 0x60ba && Power(34) == 0xd6cc && Power(35) == 0x6afb && Power(36) == 0x8ecd
    ensures Power(37) == 0xdbb0 && Power(38) == 0xd55a && Power(39) == 0x183b && Power(40) == 0x3703
  {
    hide Shifts;
    Powers32();
    NextPower(32); NextPower(33); NextPower(34); NextPower(35);
    NextPower(36); NextPower(37); NextPower(38); NextPower(39);
  }

  lemma Powers48()
    ensures Power(41) == 0x80a6 && Power(42) == 0x06f1 && Power(43) == 0xde20 && Power(44) == 0x675a
    ensures Power(45) == 0x2acc && Power(46) == 0x0925 && Power(47) == 0x3481 && Power(48) == 0xf0e6
  {
    hide Shifts;
    Powers40();
    NextPower(40); NextPower(41); NextPower(42); NextPower(43);
    NextPower(44); NextPower(45); NextPower(46); NextPower(47);
  }

  lemma Powers55()
    ensures Power(49) == 0xef3f && Power(50) == 0x247c && Power(51) == 0xcf04 && Power(52) == 0x6398
    ensures Power(53) == 0xb28c && Power(54) == 0x2377 && Power(55) == 0x2e64
  {
    hide Shifts;
    Powers48();
    NextPower(48); NextPower(49); NextPower(50); NextPower(51);
    NextPower(52); NextPower(53); NextPower(54);
  }

  lemma FirstPower()
    ensures Power(0) == 1
  {
  }

  /**
   * How places lie apart whose errors differ by the factor x^(5n): within the payload always, and against the places
   * with checksum bits but for one distance each from three of them.
   */
  ghost predicate PlacesApart(n: nat) {
    && (n <= 51 ==> ApartLow(Power(n)))
    && (n >= 4 ==>
          && (n != 31 ==> Apart52(Power(n))) && (n != 34 ==> Apart53(Power(n)))
          && Apart54(Power(n)) && (n != 35 ==> Apart55(Power(n))))
  }

  lemma LowNear(n: nat)
    requires 1 <= n <= 19
    ensures ApartLow(Power(n))
  {
    hide Power;
    Powers8(); Powers16(); Powers24();
    if n == 1 {} else if n == 2 {} else if n == 3 {} else if n == 4 {} else if n == 5 {} else if n == 6 {} else
    if n == 7 {} else if n == 8 {} else if n == 9 {} else if n == 10 {} else if n == 11 {} else
    if n == 12 {} else if n == 13 {} else if n == 14 {} else if n == 15 {} else if n == 16 {} else
    if n == 17 {} else if n == 18 {} else {}
  }

  lemma LowBetween(n: nat)
    requires 20 <= n <= 37
    ensures ApartLow(Power(n))
  {
    hide Power;
    Powers24(); Powers32(); Powers40();
    if n == 20 {} else if n == 21 {} else if n == 22 {} else if n == 23 {} else if n == 24 {} else
    if n == 25 {} else if n == 26 {} else if n == 27 {} else if n == 28 {} else if n == 29 {} else
    if n == 30 {} else if n == 31 {} else if n == 32 {} else if n == 33 {} else if n == 34 {} else
    if n == 35 {} else if n == 36 {} else {}
  }

  lemma LowFar(n: nat)
    requires 38 <= n <= 51
    ensures ApartLow(Power(n))
  {
    hide Power;
    Powers40(); Powers48(); Powers55();
    if n == 38 {} else if n == 39 {} else if n == 40 {} else if n == 41 {} else if n == 42 {} else
    if n == 43 {} else if n == 44 {} else if n == 45 {} else if n == 46 {} else if n == 47 {} else
    if n == 48 {} else if n == 49 {} else if n == 50 {} else {}
  }

  lemma Late52Near(n: nat)
    requires 4 <= n <= 19
    ensures Apart52(Power(n))
  {
    hide Power;
    Powers8(); Powers16(); Powers24();
    if n == 4 {} else if n == 5 {} else if n == 6 {} else if n == 7 {} else if n == 8 {} else if n == 9 {} else
    if n == 10 {} else if n == 11 {} else if n == 12 {} else if n == 13 {} else if n == 14 {} else
    if n == 15 {} else if n == 16 {} else if n == 17 {} else if n == 18 {} else {}
  }

  lemma Late52Between(n: nat)
    requires 20 <= n <= 37 && n != 31
    ensures Apart52(Power(n))
  {
    hide Power;
    Powers24(); Powers32(); Powers40();
    if n == 20 {} else if n == 21 {} else if n == 22 {} else if n == 23 {} else if n == 24 {} else
    if n == 25 {} else if n == 26 {} else if n == 27 {} else if n == 28 {} else if n == 29 {} else
    if n == 30 {} else if n == 31 {} else if n == 32 {} else if n == 33 {} else if n == 34 {} else
    if n == 35 {} else if n == 36 {} else {}
  }

  lemma Late52Far(n: nat)
    requires 38 <= n <= 55
    ensures Apart52(Power(n))
  {
    hide Power;
    Powers40(); Powers48(); Powers55();
    if n == 38 {} else if n == 39 {} else if n == 40 {} else if n == 41 {} else if n == 42 {} else
    if n == 43 {} else if n == 44 {} else if n == 45 {} else if n == 46 {} else if n == 47 {} else
    if n == 48 {} else if n == 49 {} else if n == 50 {} else if n == 51 {} else if n == 52 {} else
    if n == 53 {} else if n == 54 {} else {}
  }

  lemma Late53Near(n: nat)
    requires 4 <= n <= 19
    ensures Apart53(Power(n))
  {
    hide Power;
    Powers8(); Powers16(); Powers24();
    if n == 4 {} else if n == 5 {} else if n == 6 {} else if n == 7 {} else if n == 8 {} else if n == 9 {} else
    if n == 10 {} else if n == 11 {} else if n == 12 {} else if n == 13 {} else if n == 14 {} else
    if n == 15 {} else if n == 16 {} else if n == 17 {} else if n == 18 {} else {}
  }

  lemma Late53Between(n: nat)
    requires 20 <= n <= 37 && n != 34
    ensures Apart53(Power(n))
  {
    hide Power;
    Powers24(); Powers32(); Powers40();
    if n == 20 {} else if n == 21 {} else if n == 22 {} else if n == 23 {} else if n == 24 {} else
    if n == 25 {} else if n == 26 {} else if n == 27 {} else if n == 28 {} else if n == 29 {} else
    if n == 30 {} else if n == 31 {} else if n == 32 {} else if n == 33 {} else if n == 34 {} else
    if n == 35 {} else if n == 36 {} else {}
  }

  lemma Late53Far(n: nat)
    requires 38 <= n <= 55
    ensures Apart53(Power(n))
  {
    hide Power;
    Powers40(); Powers48(); Powers55();
    if n == 38 {} else if n == 39 {} else if n == 40 {} else if n == 41 {} else if n == 42 {} else
    if n == 43 {} else if n == 44 {} else if n == 45 {} else if n == 46 {} else if n == 47 {} else
    if n == 48 {} else if n == 49 {} else if n == 50 {} else if n == 51 {} else if n == 52 {} else
    if n == 53 {} else if n == 54 {} else {}
  }

  lemma Late54Near(n: nat)
    requires 4 <= n <= 19
    ensures Apart54(Power(n))
  {
    hide Power;
    Powers8(); Powers16(); Powers24();
    if n == 4 {} else if n == 5 {} else if n == 6 {} else if n == 7 {} else if n == 8 {} else if n == 9 {} else
    if n == 10 {} else if n == 11 {} else if n == 12 {} else if n == 13 {} else if n == 14 {} else
    if n == 15 {} else if n == 16 {} else if n == 17 {} else if n == 18 {} else {}
  }

  lemma Late54Between(n: nat)
    requires 20 <= n <= 37
    ensures Apart54(Power(n))
  {
    hide Power;
    Powers24(); Powers32(); Powers40();
    if n == 20 {} else if n == 21 {} else if n == 22 {} else if n == 23 {} else if n == 24 {} else
    if n == 25 {} else if n == 26 {} else if n == 27 {} else if n == 28 {} else if n == 29 {} else
    if n == 30 {} else if n == 31 {} else if n == 32 {} else if n == 33 {} else if n == 34 {} else
    if n == 35 {} else if n == 36 {} else {}
  }

  lemma Late54Far(n: nat)
    requires 38 <= n <= 55
    ensures Apart54(Power(n))
  {
    hide Power;
    Powers40(); Powers48(); Powers55();
    if n == 38 {} else if n == 39 {} else if n == 40 {} else if n == 41 {} else if n == 42 {} else
    if n == 43 {} else if n == 44 {} else if n == 45 {} else if n == 46 {} else if n == 47 {} else
    if n == 48 {} else if n == 49 {} else if n == 50 {} else if n == 51 {} else if n == 52 {} else
    if n == 53 {} else if n == 54 {} else {}
  }

  lemma Late55Near(n: nat)
    requires 4 <= n <= 19
    ensures Apart55(Power(n))
  {
    hide Power;
    Powers8(); Powers16(); Powers24();
    if n == 4 {} else if n == 5 {} else if n == 6 {} else if n == 7 {} else if n == 8 {} else if n == 9 {} else
    if n == 10 {} else if n == 11 {} else if n == 12 {} else if n == 13 {} else if n == 14 {} else
    if n == 15 {} else if n == 16 {} else if n == 17 {} else if n == 18 {} else {}
  }

  lemma Late55Between(n: nat)
    requires 20 <= n <= 37 && n != 35
    ensures Apart55(Power(n))
  {
    hide Power;
    Powers24(); Powers32(); Powers40();
    if n == 20 {} else if n == 21 {} else if n == 22 {} else if n == 23 {} else if n == 24 {} else
    if n == 25 {} else if n == 26 {} else if n == 27 {} else if n == 28 {} else if n == 29 {} else
    if n == 30 {} else if n == 31 {} else if n == 32 {} else if n == 33 {} else if n == 34 {} else
    if n == 35 {} else if n == 36 {} else {}
  }

  lemma Late55Far(n: nat)
    requires 38 <= n <= 55
    ensures Apart55(Power(n))
  {
    hide Power;
    Powers40(); Powers48(); Powers55();
    if n == 38 {} else if n == 39 {} else if n == 40 {} else if n == 41 {} else if n == 42 {} else
    if n == 43 {} else if n == 44 {} else if n == 45 {} else if n == 46 {} else if n == 47 {} else
    if n == 48 {} else if n == 49 {} else if n == 50 {} else if n == 51 {} else if n == 52 {} else
    if n == 53 {} else if n == 54 {} else {}
  }

  lemma AllPlacesApart(n: nat)
    requires 1 <= n <= 55
    ensures PlacesApart(n)
  {
    hide ApartLow, Apart52, Apart53, Apart54, Apart55;
    if n <= 19 {
      LowNear(n);
      if n >= 4 {
        Late52Near(n);
        Late53Near(n);
        Late54Near(n);
        Late55Near(n);
      }
    } else if n <= 37 {
      LowBetween(n);
      if n != 31 { Late52Between(n); }
      if n != 34 { Late53Between(n); }
      Late54Between(n);
      if n != 35 { Late55Between(n); }
    } else {
      if n <= 51 { LowFar(n); }
      Late52Far(n);
      Late53Far(n);
      Late54Far(n);
      Late55Far(n);
    }
  }

  lemma LateApart(n: nat, e: digit, j: nat)
    requires 4 <= n <= 55 && 52 <= j < 56 && (n, j) !in {(31, 52), (34, 53), (35, 55)} && e != 0
    ensures !Shaped(j, Times(Power(n), e))
  {
    hide Times, Power, Repeated;
    AllPlacesApart(n);
    if j == 52 {} else if j == 53 {} else if j == 54 {} else {}
  }
}
