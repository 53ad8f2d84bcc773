/**
 * What the checksum of an account id detects, exactly: a change of any two characters except at three pairs of places,
 * and a change of any three neighbouring ones except at two places.
 */
module StrKeyErrors {
  import opened Wrappers
  import opened Base32
  import opened Crc16
  import opened StrKey
  import opened StrKeySyndrome
  import opened StrKeyPowers

  /** `s` and `t` differ at most at the places `i` and `j`. */
  predicate SameExcept(s: string, t: string, i: nat, j: nat) {
    |s| == |t| && forall k :: 0 <= k < |s| && k != i && k != j ==> s[k] == t[k]
  }

  /** `s` and `t` differ at most in the characters `lo..hi`. */
  predicate SameOutside(s: string, t: string, lo: nat, hi: nat) {
    |s| == |t| && forall k :: 0 <= k < |s| && !(lo <= k < hi) ==> s[k] == t[k]
  }

  // ---------------------------------------------------------------- from characters to syndromes

  lemma ValidAlphabet(s: string)
    requires Valid(s)
    ensures AllInAlphabet(s)
  {
  }

  lemma ValidSyndrome(s: string)
    requires |s| == 56 && AllInAlphabet(s)
    ensures Valid(s) <==> Regroup(Digits(s))[0] == ACCOUNT_ID_VERSION_BYTE && SyndromeOf(Digits(s)) == 0
  {
    hide Regroup, Syndrome, Sealed, ResultOf, AllInAlphabet, Digits;
    ValidIsSealed(s);
    SealedSyndrome(Regroup(Digits(s)));
  }

  /** An error between two account ids has syndrome zero. */
  lemma UndetectedError(s: string, t: string)
    requires |s| == |t| == 56 && Valid(s) && Valid(t)
    ensures AllInAlphabet(s) && AllInAlphabet(t)
    ensures SyndromeOf(XorDigits(Digits(s), Digits(t))) == 0
  {
    hide SyndromeOf, AllInAlphabet, Digits, Valid, XorWord, Regroup;
    ValidAlphabet(s);
    ValidAlphabet(t);
    ValidSyndrome(s);
    ValidSyndrome(t);
    SyndromeOfLinear(Digits(s), Digits(t));
    XorCancel(0);
  }

  function WithError(s: string, error: seq<digit>): (t: string)
    requires AllInAlphabet(s) && |s| == |error|
    ensures |t| == |s|
  {
    CharsOf(XorDigits(Digits(s), error))
  }

  /** And every error of syndrome zero behind the version byte makes another account id. */
  lemma ErrorPasses(s: string, error: seq<digit>)
    requires |s| == |error| == 56 && Valid(s) && SyndromeOf(error) == 0 && error[0] == error[1] == 0
    ensures AllInAlphabet(s) && Valid(WithError(s, error))
  {
    hide SyndromeOf, AllInAlphabet, Digits, Valid, XorWord, Regroup, CharsOf;
    ValidAlphabet(s);
    ValidSyndrome(s);
    var t := WithError(s, error);
    CharsRoundTrip(XorDigits(Digits(s), error));
    SyndromeOfLinear(Digits(s), error);
    XorCancel(0);
    RegroupLinear(Digits(s), error);
    FirstByte(error);
    XorZeroByte(Regroup(Digits(s))[0]);
    ValidSyndrome(t);
  }

  lemma FirstByte(ds: seq<digit>)
    requires |ds| == 56 && ds[0] == ds[1] == 0
    ensures Regroup(ds)[0] == 0
  {
    assert DigitsFor(0) == 2 && Slack(0) == 2;
    assert LowByte(ShiftRight(Pack(0, 0, 0), 2)) == 0;
  }

  lemma XorZeroByte(a: byte)
    ensures XorByte(a, 0) == a
  {
  }

  lemma XorDigitFacts(a: digit, b: digit)
    ensures XorDigit(a, 0) == a && XorDigit(0, a) == a && (XorDigit(a, b) == 0 <==> a == b)
    ensures XorDigit(a, b) == a <==> b == 0
  {
  }

  /** The digits change exactly where the error is not zero. */
  lemma WithErrorChanges(s: string, error: seq<digit>)
    requires AllInAlphabet(s) && |s| == |error|
    ensures forall k :: 0 <= k < |s| ==> (WithError(s, error)[k] == s[k] <==> error[k] == 0)
  {
    hide InAlphabet, CharOf, DigitOf, XorDigit;
    forall k | 0 <= k < |s| ensures WithError(s, error)[k] == s[k] <==> error[k] == 0 {
      var d := DigitOf(s[k]);
      DigitRoundTrip(s[k]);
      CharRoundTrip(XorDigit(d, error[k]));
      CharRoundTrip(d);
      XorDigitFacts(d, error[k]);
    }
  }

  /** Two ids over the alphabet differ by an error that is zero exactly where they agree. */
  lemma ErrorBetween(s: string, t: string)
    requires |s| == |t| && AllInAlphabet(s) && AllInAlphabet(t)
    ensures forall k :: 0 <= k < |s| ==> (XorDigits(Digits(s), Digits(t))[k] == 0 <==> s[k] == t[k])
  {
    hide InAlphabet, CharOf, DigitOf, XorDigit;
    forall k | 0 <= k < |s| ensures XorDigits(Digits(s), Digits(t))[k] == 0 <==> s[k] == t[k] {
      DigitRoundTrip(s[k]);
      DigitRoundTrip(t[k]);
      XorDigitFacts(DigitOf(s[k]), DigitOf(t[k]));
    }
  }

  // ---------------------------------------------------------------- two characters, anywhere

  function Two(i: nat, e: digit, j: nat, f: digit): (ds: seq<digit>)
    requires i < j < 56
    ensures |ds| == 56
  {
    seq(56, k => if k == i then e else if k == j then f else 0)
  }

  lemma SyndromeOfTwo(i: nat, e: digit, j: nat, f: digit)
    requires i < j < 56
    ensures SyndromeOf(Two(i, e, j, f)) == XorWord(DigitSyndrome(i, e), DigitSyndrome(j, f))
  {
    hide SyndromeOf, DigitSyndrome, XorDigit;
    XorDigitFacts(e, 0);
    XorDigitFacts(f, 0);
    XorDigitFacts(0, 0);
    assert Two(i, e, j, f) == XorDigits(One(i, e), One(j, f));
    SyndromeOfLinear(One(i, e), One(j, f));
    SyndromeOfOne(i, e);
    SyndromeOfOne(j, f);
  }

  /** The three pairs of places where two errors can cancel. */
  predicate Exceptional(i: nat, j: nat) {
    (i == 20 && j == 55) || (i == 21 && j == 53) || (i == 24 && j == 52)
  }

  lemma ShiftsInjective(a: word, b: word, n: nat)
    requires Shifts(a, n) == Shifts(b, n)
    ensures a == b
  {
    hide Shifts, XorWord;
    ShiftsLinear(a, b, n);
    XorZeroWord(Shifts(a, n), Shifts(b, n));
    ShiftsInvertible(XorWord(a, b), n);
    XorZeroWord(a, b);
  }

  lemma TwoInPayload(i: nat, e: digit, j: nat, f: digit)
    requires i < j <= 51 && DigitSyndrome(i, e) == DigitSyndrome(j, f)
    ensures e == 0 && f == 0
  {
    hide Shifts, Times;
    ShiftsAdd(e as word, 5 * (j - i), 5 * (55 - j));
    ShiftsInjective(Shifts(e as word, 5 * (j - i)), f as word, 5 * (55 - j));
    ShiftsAreTimes(e, 5 * (j - i));
    AllPlacesApart(j - i);
    DigitIsLow(f);
    ShiftsInvertible(0, 5 * (j - i));
  }

  lemma DigitIsLow(f: digit)
    ensures f as word & 0xffe0 == 0 && (f as word == 0 <==> f == 0)
  {
  }

  lemma TwoWithLate(i: nat, e: digit, j: nat, f: digit)
    requires i <= 51 && 52 <= j < 56 && !Exceptional(i, j) && DigitSyndrome(i, e) == DigitSyndrome(j, f)
    ensures e == 0 && f == 0
  {
    LateErrors(j, f);
    LateNonzero(j, f);
    PayloadSyndrome(i, e);
    hide Shifts, Times, Power, DigitSyndrome, Shaped;
    if e == 0 {
      ShiftsInvertible(0, 5 * (55 - i));
    } else {
      LateApart(55 - i, e, j);
    }
  }

  lemma PayloadSyndrome(i: nat, e: digit)
    requires i <= 51
    ensures DigitSyndrome(i, e) == Shifts(e as word, 5 * (55 - i)) == Times(Power(55 - i), e)
  {
    ShiftsAreTimes(e, 5 * (55 - i));
  }

  lemma LateNonzero(j: nat, f: digit)
    requires 52 <= j < 56
    ensures DigitSyndrome(j, f) == 0 <==> f == 0
  {
  }

  lemma TwoLate(i: nat, e: digit, j: nat, f: digit)
    requires 52 <= i < j < 56 && DigitSyndrome(i, e) == DigitSyndrome(j, f)
    ensures e == 0 && f == 0
  {
  }

  lemma TwoErrors(i: nat, e: digit, j: nat, f: digit)
    requires i < j < 56 && !Exceptional(i, j) && SyndromeOf(Two(i, e, j, f)) == 0
    ensures e == 0 && f == 0
  {
    hide SyndromeOf, DigitSyndrome, Two, XorWord;
    SyndromeOfTwo(i, e, j, f);
    XorZeroWord(DigitSyndrome(i, e), DigitSyndrome(j, f));
    if j <= 51 {
      TwoInPayload(i, e, j, f);
    } else if i <= 51 {
      TwoWithLate(i, e, j, f);
    } else {
      TwoLate(i, e, j, f);
    }
  }

  /** Changing any two characters of an account id, or one, never gives another one, but for three pairs of places. */
  lemma TwoCharactersDetected(s: string, t: string, i: nat, j: nat)
    requires |s| == 56 && Valid(s) && SameExcept(s, t, i, j) && s != t && i < j < 56 && !Exceptional(i, j)
    ensures !Valid(t)
  {
    hide SyndromeOf, AllInAlphabet, Digits, Valid, XorDigit;
    if Valid(t) {
      UndetectedError(s, t);
      ErrorBetween(s, t);
      var error := XorDigits(Digits(s), Digits(t));
      assert error == Two(i, error[i], j, error[j]);
      TwoErrors(i, error[i], j, error[j]);
      assert false;
    }
  }

  /** Whatever happens to two neighbouring characters of an account id, the result is not another account id. */
  lemma NeighbouringCorruptionDetected(s: string, t: string, i: nat)
    requires |s| == 56 && Valid(s) && SameOutside(s, t, i, i + 2) && s != t
    ensures !Valid(t)
  {
    hide Valid;
    var j := if i <= 54 then i else 54;
    TwoCharactersDetected(s, t, j, j + 1);
  }

  function CancellingPair(i: nat): (p: (digit, digit)) {
    if i == 20 then (28, 19) else if i == 21 then (14, 19) else (1, 31)
  }

  lemma PairsCancel(i: nat, j: nat)
    requires Exceptional(i, j)
    ensures var (e, f) := CancellingPair(i); DigitSyndrome(i, e) == DigitSyndrome(j, f)
  {
    hide Power, Shifts, Times, DigitSyndrome;
    PayloadSyndrome(i, CancellingPair(i).0);
    Powers32();
    Powers40();
    PairProducts();
  }

  lemma PairProducts()
    ensures Times(0x6afb, 28) == DigitSyndrome(55, 19)
    ensures Times(0xd6cc, 14) == DigitSyndrome(53, 19)
    ensures Times(0xf16f, 1) == DigitSyndrome(52, 31)
  {
  }

  /** At those three pairs of places, and at no others, every account id has a twin that differs from it only there. */
  lemma TwoCharactersExactly(s: string, i: nat, j: nat)
    requires |s| == 56 && Valid(s) && i < j < 56
    ensures (exists t :: t != s && Valid(t) && SameExcept(s, t, i, j)) <==> Exceptional(i, j)
  {
    hide SyndromeOf, AllInAlphabet, Digits, Valid, DigitSyndrome, CharsOf, XorWord;
    if Exceptional(i, j) {
      var (e, f) := CancellingPair(i);
      PairsCancel(i, j);
      SyndromeOfTwo(i, e, j, f);
      XorCancel(DigitSyndrome(i, e));
      var error := Two(i, e, j, f);
      ErrorPasses(s, error);
      WithErrorChanges(s, error);
      assert WithError(s, error)[i] != s[i];
      assert SameExcept(s, WithError(s, error), i, j);
    } else if t :| t != s && Valid(t) && SameExcept(s, t, i, j) {
      TwoCharactersDetected(s, t, i, j);
      assert false;
    }
  }

  // ---------------------------------------------------------------- three neighbouring characters

  function Three(i: nat, e: digit, f: digit, g: digit): (ds: seq<digit>)
    requires i <= 53
    ensures |ds| == 56
  {
    seq(56, k => if k == i then e else if k == i + 1 then f else if k == i + 2 then g else 0)
  }

  lemma SyndromeOfThree(i: nat, e: digit, f: digit, g: digit)
    requires i <= 53
    ensures SyndromeOf(Three(i, e, f, g))
            == XorWord(XorWord(DigitSyndrome(i, e), DigitSyndrome(i + 1, f)), DigitSyndrome(i + 2, g))
  {
    hide SyndromeOf, DigitSyndrome, XorDigit;
    XorDigitFacts(e, 0);
    XorDigitFacts(f, 0);
    XorDigitFacts(g, 0);
    XorDigitFacts(0, 0);
    var two := Two(i, e, i + 1, f);
    assert Three(i, e, f, g) == XorDigits(two, One(i + 2, g));
    SyndromeOfTwo(i, e, i + 1, f);
    SyndromeOfLinear(two, One(i + 2, g));
    SyndromeOfOne(i + 2, g);
  }

  function Fifteen(e: digit, f: digit, g: digit): word {
    XorWord(XorWord((e as word) << 10, (f as word) << 5), g as word)
  }

  lemma FifteenNonzero(e: digit, f: digit, g: digit)
    requires Fifteen(e, f, g) == 0
    ensures e == 0 && f == 0 && g == 0
  {
  }

  lemma LowShifts(e: digit)
    ensures Shifts(e as word, 5) == (e as word) << 5 && Shifts(e as word, 10) == (e as word) << 10
  {
    hide Shifts;
    FiveMore(e as word, 0);
    FiveMore(e as word, 5);
    NoShift(e as word);
  }

  lemma NoShift(c: word)
    ensures Shifts(c, 0) == c
  {
  }

  lemma FiveMore(c: word, n: nat)
    ensures Shifts(c, n + 5) == FiveShifts(Shifts(c, n))
  {
    hide Shift;
    assert Shifts(c, n + 5) == Shift(Shifts(c, n + 4)) == Shift(Shift(Shifts(c, n + 3)));
    assert Shifts(c, n + 3) == Shift(Shifts(c, n + 2)) == Shift(Shift(Shifts(c, n + 1)));
    assert Shifts(c, n + 1) == Shift(Shifts(c, n));
  }

  /** Within the payload fifteen neighbouring bits are a polynomial below the generator's degree, times a power of x. */
  lemma ThreeInPayload(i: nat, e: digit, f: digit, g: digit)
    requires i <= 49
    requires XorWord(XorWord(DigitSyndrome(i, e), DigitSyndrome(i + 1, f)), DigitSyndrome(i + 2, g)) == 0
    ensures e == 0 && f == 0 && g == 0
  {
    hide Shifts, XorWord;
    var n := 5 * (53 - i);
    LowShifts(e);
    LowShifts(f);
    ShiftsAdd(e as word, 10, n);
    ShiftsAdd(f as word, 5, n);
    var high := XorWord((e as word) << 10, (f as word) << 5);
    ShiftsLinear((e as word) << 10, (f as word) << 5, n);
    ShiftsLinear(high, g as word, n);
    ShiftsInvertible(Fifteen(e, f, g), n);
    FifteenNonzero(e, f, g);
  }

  lemma ThreeAtSeam(e: digit, f: digit, g: digit)
    requires XorWord(XorWord(DigitSyndrome(51, e), DigitSyndrome(52, f)), DigitSyndrome(53, g)) == 0
    ensures e == 0 && f == 0 && g == 0
  {
    PayloadSyndrome(51, e);
    hide Power, Shifts;
    Powers8();
  }

  lemma ThreeInChecksum(e: digit, f: digit, g: digit)
    requires XorWord(XorWord(DigitSyndrome(53, e), DigitSyndrome(54, f)), DigitSyndrome(55, g)) == 0
    ensures e == 0 && f == 0 && g == 0
  {
  }

  /** Changing any three neighbouring characters is detected, but for the places 50 and 52. */
  lemma ThreeCharactersDetected(s: string, t: string, i: nat)
    requires |s| == 56 && Valid(s) && SameOutside(s, t, i, i + 3) && s != t && i <= 53 && i != 50 && i != 52
    ensures !Valid(t)
  {
    hide SyndromeOf, AllInAlphabet, Digits, Valid, XorDigit, DigitSyndrome, XorWord;
    if Valid(t) {
      UndetectedError(s, t);
      ErrorBetween(s, t);
      var error := XorDigits(Digits(s), Digits(t));
      var e, f, g := error[i], error[i + 1], error[i + 2];
      assert error == Three(i, e, f, g);
      SyndromeOfThree(i, e, f, g);
      if i <= 49 {
        ThreeInPayload(i, e, f, g);
      } else if i == 51 {
        ThreeAtSeam(e, f, g);
      } else {
        ThreeInChecksum(e, f, g);
      }
      assert false;
    }
  }

  function CancellingTriple(i: nat): (p: (digit, digit, digit)) {
    if i == 50 then (8, 24, 21) else (4, 16, 17)
  }

  lemma TriplesCancel(i: nat)
    requires i == 50 || i == 52
    ensures var (e, f, g) := CancellingTriple(i);
            XorWord(XorWord(DigitSyndrome(i, e), DigitSyndrome(i + 1, f)), DigitSyndrome(i + 2, g)) == 0
  {
    var (e, f, g) := CancellingTriple(i);
    PayloadSyndrome(50, e);
    PayloadSyndrome(51, f);
    hide Power, Shifts;
    Powers8();
    if i == 50 {} else {}
  }

  /** At the places 50 and 52, and no others, every account id has a twin differing in three neighbouring characters. */
  lemma ThreeCharactersExactly(s: string, i: nat)
    requires |s| == 56 && Valid(s) && i <= 53
    ensures (exists t :: t != s && Valid(t) && SameOutside(s, t, i, i + 3)) <==> i == 50 || i == 52
  {
    hide SyndromeOf, AllInAlphabet, Digits, Valid, DigitSyndrome, CharsOf, XorWord;
    if i == 50 || i == 52 {
      var (e, f, g) := CancellingTriple(i);
      TriplesCancel(i);
      SyndromeOfThree(i, e, f, g);
      var error := Three(i, e, f, g);
      ErrorPasses(s, error);
      WithErrorChanges(s, error);
      assert WithError(s, error)[i] != s[i];
      assert SameOutside(s, WithError(s, error), i, i + 3);
    } else if t :| t != s && Valid(t) && SameOutside(s, t, i, i + 3) {
      ThreeCharactersDetected(s, t, i);
      assert false;
    }
  }
}
