/** Published values: the alphabet, the first characters of every account id, and standard test vectors. */
module StrKeyAnswers {
  import opened Wrappers
  import opened Base32
  import opened Crc16
  import opened StrKey

  /** The alphabet of RFC 4648, section 6: letters count from 0, the digits 2 to 7 from 26; nothing else is in it. */
  lemma AlphabetExactly(c: char)
    ensures InAlphabet(c) <==> 'A' <= c <= 'Z' || '2' <= c <= '7'
    ensures 'A' <= c <= 'Z' ==> DigitOf(c) as int == c as int - 'A' as int
    ensures '2' <= c <= '7' ==> DigitOf(c) as int == 26 + c as int - '2' as int
  {
    var i := IndexFrom(c, 0);
    if i != -1 {
      AlphabetCodes(i);
      IntAsDigit(i);
    } else {
      if 'A' <= c <= 'Z' { AlphabetCodes(c as int - 65); }
      if '2' <= c <= '7' { AlphabetCodes(c as int - 24); }
    }
  }

  /** Every account id starts with G and one of A to D: these, and no others, spell the version byte 48. */
  lemma StartsWithG(s: string)
    requires |s| == 56 && AllInAlphabet(s)
    ensures Valid(s) ==> s[0] == 'G' && s[1] in {'A', 'B', 'C', 'D'}
    ensures ResultOf(s) == Failed(BadVersion) <==> !(s[0] == 'G' && s[1] in {'A', 'B', 'C', 'D'})
  {
    AlphabetExactly(s[0]);
    AlphabetExactly(s[1]);
    var a, b := Digits(s)[0], Digits(s)[1];
    FirstByte(Digits(s));
    VersionDigits(a, b);
    DigitRoundTrip(s[0]);
    DigitRoundTrip(s[1]);
    hide Crc, Regroup, AllInAlphabet;
  }

  lemma FirstByte(ds: seq<digit>)
    requires |ds| == 56
    ensures |Regroup(ds)| == 35 && Regroup(ds)[0] == LowByte(Pack(0, ds[0], ds[1]) >> 2)
  {
  }

  lemma VersionDigits(a: digit, b: digit)
    ensures LowByte(Pack(0, a, b) >> 2) == ACCOUNT_ID_VERSION_BYTE <==> a == 6 && b < 4
  {
  }

  /** The check value of CRC-16/XMODEM, that of the text `123456789`. */
  lemma CheckValue()
    ensures Crc([0x31, 0x32, 0x33, 0x34, 0x35, 0x36, 0x37, 0x38, 0x39]) == 0x31c3
  {
    var text: seq<byte> := [0x31, 0x32, 0x33, 0x34, 0x35, 0x36, 0x37, 0x38, 0x39];
    FirstThree();
    LastSix();
    hide Enter;
    assert text[..9] == text && Crc(text[..0]) == 0;
    OneMore(text, 0);
    OneMore(text, 1);
    OneMore(text, 2);
    OneMore(text, 3);
    OneMore(text, 4);
    OneMore(text, 5);
    OneMore(text, 6);
    OneMore(text, 7);
    OneMore(text, 8);
  }

  lemma OneMore(bytes: seq<byte>, n: nat)
    requires n < |bytes|
    ensures Crc(bytes[..n + 1]) == Enter(Crc(bytes[..n]), bytes[n])
  {
    assert bytes[..n + 1][..n] == bytes[..n];
  }

  lemma FirstThree()
    ensures Enter(0, 0x31) == 0x2672 && Enter(0x2672, 0x32) == 0x20b5 && Enter(0x20b5, 0x33) == 0x9752
  {
  }

  lemma LastSix()
    ensures Enter(0x9752, 0x34) == 0xd789 && Enter(0xd789, 0x35) == 0x546c && Enter(0x546c, 0x36) == 0x20e4
    ensures Enter(0x20e4, 0x37) == 0x86d6 && Enter(0x86d6, 0x38) == 0x9015 && Enter(0x9015, 0x39) == 0x31c3
  {
  }
}
