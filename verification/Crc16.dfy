/**
 * The CRC16-XMODEM register of account ids: polynomial 0x1021, initial value zero, eight shifts per byte.
 * The register is linear and every shift is invertible, which is all its error detection rests on.
 */
module Crc16 {
  import opened Wrappers

  type word = bv16

  /** One turn of the inner loop. */
  function Shift(crc: word): word {
    if Top(crc) then XorWord(Double(crc), 0x1021) else Double(crc)
  }

  predicate Top(crc: word) { crc & 0x8000 != 0 }

  function Double(crc: word): word { crc << 1 }

  function Shifts(crc: word, n: nat): word {
    if n == 0 then crc else Shift(Shifts(crc, n - 1))
  }

  function XorWord(a: word, b: word): word { a ^ b }

  function High(b: byte): word { (b as word) << 8 }

  /** `crc ^= byte << 8` */
  function Fold(crc: word, b: byte): word { XorWord(crc, High(b)) }

  /** Entering one byte: fold it into the high half, then shift eight times. */
  function Enter(crc: word, b: byte): word { Shifts(Fold(crc, b), 8) }

  function Crc(bytes: seq<byte>): word {
    if bytes == [] then 0 else Enter(Crc(bytes[..|bytes| - 1]), bytes[|bytes| - 1])
  }

  method Crc16Xmodem(bytes: seq<byte>) returns (crc: word)
    ensures crc == Crc(bytes)
  {
    hide Shift;
    crc := 0;
    for i := 0 to |bytes|
      invariant crc == Crc(bytes[..i])
    {
      assert bytes[..i + 1][..i] == bytes[..i];
      crc := Fold(crc, bytes[i]);
      ghost var start := crc;
      for bit := 0 to 8
        invariant crc == Shifts(start, bit)
      {
        crc := Shift(crc);
      }
    }
    assert bytes[..|bytes|] == bytes;
  }

  // ---------------------------------------------------------------- algebra of the register

  function XorByte(a: byte, b: byte): byte { a ^ b }

  lemma XorTop(a: word, b: word)
    ensures Top(XorWord(a, b)) == (Top(a) != Top(b))
  {
  }

  lemma XorDouble(a: word, b: word)
    ensures Double(XorWord(a, b)) == XorWord(Double(a), Double(b))
  {
  }

  lemma XorGroup(a: word, b: word, g: word)
    ensures XorWord(XorWord(a, b), g) == XorWord(a, XorWord(b, g))
  {
  }

  lemma XorSwap(a: word, b: word, g: word)
    ensures XorWord(XorWord(a, b), g) == XorWord(XorWord(a, g), b)
  {
    hide XorWord;
    XorGroup(a, b, g);
    XorGroup(a, g, b);
    XorCommutes(b, g);
  }

  lemma XorCommutes(a: word, b: word)
    ensures XorWord(a, b) == XorWord(b, a)
  {
  }

  lemma XorCancel(g: word)
    ensures XorWord(g, g) == 0 && XorWord(g, 0) == g
  {
  }

  lemma XorBoth(a: word, b: word, g: word)
    ensures XorWord(XorWord(a, g), XorWord(b, g)) == XorWord(a, b)
  {
    hide XorWord;
    XorGroup(XorWord(a, g), b, g);
    XorSwap(a, b, g);
    XorGroup(XorWord(a, b), g, g);
    XorCancel(g);
    XorCancel(XorWord(a, b));
  }

  lemma ShiftLinear(a: word, b: word)
    ensures Shift(XorWord(a, b)) == XorWord(Shift(a), Shift(b))
  {
    hide Top, Double, XorWord;
    XorTop(a, b);
    XorDouble(a, b);
    XorGroup(Double(a), Double(b), 0x1021);
    XorSwap(Double(a), Double(b), 0x1021);
    XorBoth(Double(a), Double(b), 0x1021);
  }

  lemma ShiftInvertible(a: word)
    ensures Shift(a) == 0 <==> a == 0
  {
  }

  lemma {:induction false} ShiftsLinear(a: word, b: word, n: nat)
    ensures Shifts(XorWord(a, b), n) == XorWord(Shifts(a, n), Shifts(b, n))
  {
    hide Shift, XorWord;
    if n > 0 {
      ShiftsLinear(a, b, n - 1);
      ShiftLinear(Shifts(a, n - 1), Shifts(b, n - 1));
    }
  }

  lemma {:induction false} ShiftsInvertible(a: word, n: nat)
    ensures Shifts(a, n) == 0 <==> a == 0
  {
    hide Shift;
    if n > 0 {
      ShiftsInvertible(a, n - 1);
      ShiftInvertible(Shifts(a, n - 1));
    }
  }

  lemma FoldLinear(c: word, d: word, a: byte, b: byte)
    ensures Fold(XorWord(c, d), XorByte(a, b)) == XorWord(Fold(c, a), Fold(d, b))
  {
  }

  lemma EnterLinear(c: word, d: word, a: byte, b: byte)
    ensures Enter(XorWord(c, d), XorByte(a, b)) == XorWord(Enter(c, a), Enter(d, b))
  {
    hide Shifts, Fold, XorWord, XorByte;
    FoldLinear(c, d, a, b);
    ShiftsLinear(Fold(c, a), Fold(d, b), 8);
  }

  function Xor(a: seq<byte>, b: seq<byte>): (x: seq<byte>)
    requires |a| == |b|
    ensures |x| == |a|
  {
    seq(|a|, k requires 0 <= k < |a| => XorByte(a[k], b[k]))
  }

  lemma {:induction false} CrcLinear(a: seq<byte>, b: seq<byte>)
    requires |a| == |b|
    ensures Crc(Xor(a, b)) == XorWord(Crc(a), Crc(b))
  {
    hide Enter, XorByte, XorWord;
    var n := |a|;
    if n == 0 {
      XorCancel(0);
    } else {
      assert Xor(a, b)[..n - 1] == Xor(a[..n - 1], b[..n - 1]);
      CrcLinear(a[..n - 1], b[..n - 1]);
      EnterLinear(Crc(a[..n - 1]), Crc(b[..n - 1]), a[n - 1], b[n - 1]);
    }
  }

  lemma EnterZero(c: word)
    ensures Enter(c, 0) == 0 <==> c == 0
  {
    hide Shifts;
    assert Fold(c, 0) == c;
    ShiftsInvertible(c, 8);
  }

  /** Leading zero bytes leave the register alone. */
  lemma {:induction false} LeadingZeros(n: nat, tail: seq<byte>)
    ensures Crc(Repeat(0, n) + tail) == Crc(tail)
  {
    hide Enter;
    var all := Repeat(0, n) + tail;
    if tail != [] {
      assert all[..|all| - 1] == Repeat(0, n) + tail[..|tail| - 1];
      LeadingZeros(n, tail[..|tail| - 1]);
    } else if n > 0 {
      assert all[..|all| - 1] == Repeat(0, n - 1) + tail;
      LeadingZeros(n - 1, tail);
      EnterZero(0);
    }
  }

  /** Trailing zero bytes cannot hide a nonzero register. */
  lemma {:induction false} TrailingZeros(head: seq<byte>, n: nat)
    ensures Crc(head + Repeat(0, n)) == 0 <==> Crc(head) == 0
  {
    hide Enter;
    var all := head + Repeat(0, n);
    if n == 0 {
      assert all == head;
    } else {
      assert all[..|all| - 1] == head + Repeat(0, n - 1);
      TrailingZeros(head, n - 1);
      EnterZero(Crc(head + Repeat(0, n - 1)));
    }
  }

  // ---------------------------------------------------------------- one byte, unrolled

  function EightShifts(c: word): word { Shift(Shift(Shift(Shift(Shift(Shift(Shift(Shift(c)))))))) }

  function EnterUnrolled(c: word, b: byte): word { EightShifts(Fold(c, b)) }

  lemma Unroll(c: word, b: byte)
    ensures Enter(c, b) == EnterUnrolled(c, b)
  {
    hide Shift;
    var f := Fold(c, b);
    assert Shifts(f, 8) == Shift(Shifts(f, 7)) == Shift(Shift(Shifts(f, 6))) == Shift(Shift(Shift(Shifts(f, 5))));
    assert Shifts(f, 5) == Shift(Shifts(f, 4)) == Shift(Shift(Shifts(f, 3))) == Shift(Shift(Shift(Shifts(f, 2))));
    assert Shifts(f, 2) == Shift(Shifts(f, 1)) == Shift(Shift(Shifts(f, 0)));
  }

  lemma CrcOfOne(y: byte)
    ensures Crc([y]) == EnterUnrolled(0, y)
  {
    assert [y][..0] == [];
    Unroll(0, y);
  }
}
