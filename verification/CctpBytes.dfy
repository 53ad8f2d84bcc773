/**
 * The byte-level pieces of the CCTP codec: big-endian numbers, read by shift-or or by a loop, and hexadecimal.
 */
module CctpBytes {
  import opened Wrappers
  import opened FixedPoint

  datatype Result<T> = Ok(value: T) | Err(error: Error)

  datatype Error =
    | NotHex
    | MessageTooShort | BodyTooShort
    | HookTooShort | HookLengthExceedsData | NotAnAddress
    | NotAContract | WrongMintRecipient | WrongDestinationCaller
    | WrongDomain | ZeroAmount | EmptyAttestation | NegativeAmount

  // ---------------------------------------------------------------- big-endian numbers

  /** 256 to the n. */
  function Pow256(n: nat): (p: nat)
    ensures p > 0
  {
    if n == 0 then 1 else 256 * Pow256(n - 1)
  }

  function BigEndian(bs: seq<octet>): nat {
    if bs == [] then 0 else 256 * BigEndian(bs[..|bs| - 1]) + bs[|bs| - 1]
  }

  /** The n low-order bytes of `v`, most significant first; negative numbers in two's complement. */
  function ToBytes(v: int, n: nat): (bs: seq<octet>)
    ensures |bs| == n
    decreases n
  {
    if n == 0 then [] else ToBytes(v / 256, n - 1) + [v % 256]
  }

  lemma {:induction false} BigEndianBound(bs: seq<octet>)
    ensures BigEndian(bs) < Pow256(|bs|)
  {
    if bs == [] {
    } else {
      BigEndianBound(bs[..|bs| - 1]);
    }
  }

  /** Writing keeps a number modulo the width. */
  lemma {:induction false} ReadWritten(v: int, n: nat)
    ensures BigEndian(ToBytes(v, n)) == v % Pow256(n)
    decreases n
  {
    if n == 0 {
    } else {
      var bs := ToBytes(v, n);
      assert bs[..n - 1] == ToBytes(v / 256, n - 1);
      ReadWritten(v / 256, n - 1);
      ModSplit(v, Pow256(n - 1));
    }
  }

  lemma ModSplit(v: int, m: nat)
    requires m > 0
    ensures v % (256 * m) == 256 * (v / 256 % m) + v % 256
  {
    var q, r := v / 256, v % 256;
    var a, b := q / m, q % m;
    assert v == 256 * (m * a + b) + r;
    assert v == (256 * m) * a + (256 * b + r) by { Distribute(256, m * a, b); Associate(256, m, a); }
    assert 0 <= 256 * b + r < 256 * m;
    DivUnique(v, 256 * m, a, 256 * b + r);
  }

  lemma Distribute(k: int, x: int, y: int)
    ensures k * (x + y) == k * x + k * y
  {
  }

  lemma Associate(k: int, x: int, y: int)
    ensures k * (x * y) == (k * x) * y
  {
  }

  /** Reading and writing back: every byte string is the writing of what it reads as. */
  lemma {:induction false} WriteRead(bs: seq<octet>)
    ensures ToBytes(BigEndian(bs), |bs|) == bs
  {
    if bs == [] {
    } else {
      WriteRead(bs[..|bs| - 1]);
      assert BigEndian(bs) / 256 == BigEndian(bs[..|bs| - 1]);
    }
  }

  /** `bytes[i] ?? 0` */
  function At(bytes: seq<octet>, i: nat): octet { if i < |bytes| then bytes[i] else 0 }

  /** The `n` bytes from `offset` on, as reading past the end sees them. */
  function Field(bytes: seq<octet>, offset: nat, n: nat): (f: seq<octet>)
    ensures |f| == n
  {
    if n == 0 then [] else Field(bytes, offset, n - 1) + [At(bytes, offset + n - 1)]
  }

  lemma {:induction false} FieldInside(bytes: seq<octet>, offset: nat, n: nat)
    requires offset + n <= |bytes|
    ensures Field(bytes, offset, n) == bytes[offset..offset + n]
  {
    if n == 0 {
    } else {
      FieldInside(bytes, offset, n - 1);
    }
  }

  // JavaScript's 32-bit operators work on bit patterns, here the numbers below 2^32.

  function Pow2(k: nat): (p: nat)
    ensures p > 0
  {
    if k == 0 then 1 else 2 * Pow2(k - 1)
  }

  /** `x << k`: bits pushed out at the top are lost. */
  function ShiftLeft(x: nat, k: nat): nat { x * Pow2(k) % 0x1_0000_0000 }

  /** `a | b`, bit by bit. */
  function Or(a: nat, b: nat): nat {
    if a == 0 && b == 0 then 0 else 2 * Or(a / 2, b / 2) + if a % 2 == 1 || b % 2 == 1 then 1 else 0
  }

  /** The number a pattern stands for before `>>> 0`; after it, the pattern itself is the number. */
  function Signed(pattern: nat): int { if pattern < 0x8000_0000 then pattern else pattern - 0x1_0000_0000 }

  function ShiftOr(b0: octet, b1: octet, b2: octet, b3: octet): nat {
    Or(Or(Or(ShiftLeft(b0, 24), ShiftLeft(b1, 16)), ShiftLeft(b2, 8)), b3)
  }

  function U32(bytes: seq<octet>, offset: nat): nat {
    ShiftOr(At(bytes, offset), At(bytes, offset + 1), At(bytes, offset + 2), At(bytes, offset + 3))
  }

  lemma {:induction false} OrNothing(a: nat)
    ensures Or(a, 0) == a
  {
    if a == 0 {
    } else {
      OrNothing(a / 2);
    }
  }

  /** Where no bits overlap, `|` adds. */
  lemma {:induction false} OrAdds(a: nat, b: nat, k: nat)
    requires a % Pow2(k) == 0 && b < Pow2(k)
    ensures Or(a, b) == a + b
    decreases k
  {
    if k == 0 {
      OrNothing(a);
    } else {
      HalfMultiple(a, Pow2(k - 1));
      OrAdds(a / 2, b / 2, k - 1);
    }
  }

  lemma HalfMultiple(a: nat, p: nat)
    requires p > 0 && a % (2 * p) == 0
    ensures a % 2 == 0 && (a / 2) % p == 0
  {
    var q := a / (2 * p);
    assert a == 2 * p * q;
    assert a == 2 * (p * q);
    DivUnique(a / 2, p, q, 0);
  }

  lemma ShiftOrValue(b0: octet, b1: octet, b2: octet, b3: octet)
    ensures ShiftOr(b0, b1, b2, b3) == 0x100_0000 * b0 + 0x1_0000 * b1 + 0x100 * b2 + b3
  {
    hide Or;
    assert Pow2(24) == 0x100_0000 && Pow2(16) == 0x1_0000 && Pow2(8) == 0x100;
    OrAdds(0x100_0000 * b0, 0x1_0000 * b1, 24);
    OrAdds(0x100_0000 * b0 + 0x1_0000 * b1, 0x100 * b2, 16);
    OrAdds(0x100_0000 * b0 + 0x1_0000 * b1 + 0x100 * b2, b3, 8);
  }

  lemma BigEndianOfFour(b0: octet, b1: octet, b2: octet, b3: octet)
    ensures BigEndian([b0, b1, b2, b3]) == 0x100_0000 * b0 + 0x1_0000 * b1 + 0x100 * b2 + b3
  {
    assert [b0, b1, b2, b3][..3] == [b0, b1, b2];
    assert [b0, b1, b2][..2] == [b0, b1];
    assert [b0, b1][..1] == [b0];
    assert BigEndian([b0]) == b0;
    assert BigEndian([b0, b1]) == 256 * b0 + b1;
    assert BigEndian([b0, b1, b2]) == 256 * BigEndian([b0, b1]) + b2;
  }

  /** Shift-or followed by `>>> 0` is the big-endian value, over the whole 32-bit range. */
  lemma U32IsBigEndian(bytes: seq<octet>, offset: nat)
    ensures U32(bytes, offset) == BigEndian(Field(bytes, offset, 4)) < 0x1_0000_0000
  {
    hide BigEndian, ShiftOr, At;
    var b0, b1, b2, b3 := At(bytes, offset), At(bytes, offset + 1), At(bytes, offset + 2), At(bytes, offset + 3);
    assert Field(bytes, offset, 1) == Field(bytes, offset, 0) + [b0];
    assert Field(bytes, offset, 2) == Field(bytes, offset, 1) + [b1];
    assert Field(bytes, offset, 3) == Field(bytes, offset, 2) + [b2];
    assert Field(bytes, offset, 4) == Field(bytes, offset, 3) + [b3];
    assert Field(bytes, offset, 4) == [b0, b1, b2, b3];
    ShiftOrValue(b0, b1, b2, b3);
    BigEndianOfFour(b0, b1, b2, b3);
  }

  /** Without `>>> 0` the value would be wrong for exactly the fields whose first byte is 0x80 or more. */
  lemma SignedIsWrongExactly(b0: octet, b1: octet, b2: octet, b3: octet)
    ensures Signed(ShiftOr(b0, b1, b2, b3)) != BigEndian([b0, b1, b2, b3]) <==> b0 >= 0x80
  {
    hide BigEndian, ShiftOr;
    BigEndianOfFour(b0, b1, b2, b3);
    ShiftOrValue(b0, b1, b2, b3);
  }

  /** The loop over 32 bytes is the big-endian value, up to 2^256 - 1; bytes past the end count as zero. */
  method U256(bytes: seq<octet>, offset: nat) returns (value: nat)
    ensures value == BigEndian(Field(bytes, offset, 32)) && value < Pow256(32)
  {
    hide At, Pow256;
    value := 0;
    for i := 0 to 32
      invariant value == BigEndian(Field(bytes, offset, i))
    {
      ghost var next := Field(bytes, offset, i + 1);
      assert next[..i] == Field(bytes, offset, i);
      value := value * 256 + At(bytes, offset + i);
    }
    BigEndianBound(Field(bytes, offset, 32));
  }

  // ---------------------------------------------------------------- hexadecimal

  function HexChar(v: nat): char
    requires v < 16
  {
    "0123456789abcdef"[v]
  }

  predicate IsHexDigit(c: char) {
    '0' <= c <= '9' || 'a' <= c <= 'f' || 'A' <= c <= 'F'
  }

  function HexValue(c: char): (v: nat)
    requires IsHexDigit(c)
    ensures v < 16
  {
    if '0' <= c <= '9' then c as int - '0' as int
    else if 'a' <= c <= 'f' then c as int - 'a' as int + 10
    else c as int - 'A' as int + 10
  }

  predicate AllHex(s: string) { forall c <- s :: IsHexDigit(c) }

  /** `0x` is optional, in lower case only. */
  function Clean(hex: string): string {
    if |hex| >= 2 && hex[0] == '0' && hex[1] == 'x' then hex[2..] else hex
  }

  function PairValue(hi: char, lo: char): octet
    requires IsHexDigit(hi) && IsHexDigit(lo)
  {
    16 * HexValue(hi) + HexValue(lo)
  }

  function HexToBytes(hex: string): (r: Result<seq<octet>>)
  {
    var clean := Clean(hex);
    if |clean| % 2 != 0 || !AllHex(clean) then Err(NotHex)
    else Ok(seq(|clean| / 2, i requires 0 <= i < |clean| / 2 => PairValue(clean[2 * i], clean[2 * i + 1])))
  }

  function HexDigits(bs: seq<octet>): (s: string)
    ensures |s| == 2 * |bs|
  {
    seq(2 * |bs|, i requires 0 <= i < 2 * |bs| =>
      if i % 2 == 0 then HexChar(bs[i / 2] / 16) else HexChar(bs[i / 2] % 16))
  }

  function BytesToHex(bs: seq<octet>): string { "0x" + HexDigits(bs) }

  lemma HexDigit(v: nat)
    requires v < 16
    ensures IsHexDigit(HexChar(v)) && HexValue(HexChar(v)) == v
  {
  }

  lemma PairOfByte(b: octet)
    ensures IsHexDigit(HexChar(b / 16)) && IsHexDigit(HexChar(b % 16))
    ensures PairValue(HexChar(b / 16), HexChar(b % 16)) == b
  {
    HexDigit(b / 16);
    HexDigit(b % 16);
  }

  lemma HexPair(bs: seq<octet>, k: nat)
    requires k < |bs|
    ensures var hi, lo := HexDigits(bs)[2 * k], HexDigits(bs)[2 * k + 1];
            IsHexDigit(hi) && IsHexDigit(lo) && PairValue(hi, lo) == bs[k]
  {
    hide PairValue, IsHexDigit, HexChar;
    PairOfByte(bs[k]);
    assert (2 * k) / 2 == k && (2 * k) % 2 == 0 && (2 * k + 1) / 2 == k && (2 * k + 1) % 2 == 1;
  }

  lemma HexRoundTrip(bs: seq<octet>)
    ensures HexToBytes(BytesToHex(bs)) == Ok(bs)
  {
    hide PairValue, IsHexDigit, HexDigits;
    var s := HexDigits(bs);
    assert Clean(BytesToHex(bs)) == s;
    forall i | 0 <= i < |s| ensures IsHexDigit(s[i]) {
      HexPair(bs, i / 2);
      assert i == 2 * (i / 2) || i == 2 * (i / 2) + 1;
    }
    forall k | 0 <= k < |bs| ensures PairValue(s[2 * k], s[2 * k + 1]) == bs[k] {
      HexPair(bs, k);
    }
    assert AllHex(s);
    var r := HexToBytes(BytesToHex(bs));
    assert r.Ok? && |r.value| == |bs|;
    assert r.value == bs;
  }

  function Lower(c: char): char { if 'A' <= c <= 'F' then (c as int + 32) as char else c }

  /** What a text decodes to, written back, is the text with its prefix and in lower case. */
  lemma HexNormalForm(hex: string)
    requires HexToBytes(hex).Ok?
    ensures BytesToHex(HexToBytes(hex).value)
            == "0x" + seq(|Clean(hex)|, i requires 0 <= i < |Clean(hex)| => Lower(Clean(hex)[i]))
  {
    hide IsHexDigit, HexChar, PairValue, Lower;
    var clean, bs := Clean(hex), HexToBytes(hex).value;
    var s := HexDigits(bs);
    forall i | 0 <= i < |clean| ensures s[i] == Lower(clean[i]) {
      var k := i / 2;
      assert i == 2 * k || i == 2 * k + 1;
      assert bs[k] == PairValue(clean[2 * k], clean[2 * k + 1]);
      PairParts(clean[2 * k], clean[2 * k + 1]);
    }
  }

  lemma PairParts(hi: char, lo: char)
    requires IsHexDigit(hi) && IsHexDigit(lo)
    ensures HexChar(PairValue(hi, lo) / 16) == Lower(hi) && HexChar(PairValue(hi, lo) % 16) == Lower(lo)
  {
    hide HexValue, HexChar, Lower;
    DivUnique(PairValue(hi, lo), 16, HexValue(hi), HexValue(lo));
    LowerDigit(hi);
    LowerDigit(lo);
  }

  lemma LowerDigit(c: char)
    requires IsHexDigit(c)
    ensures HexChar(HexValue(c)) == Lower(c)
  {
  }
}
