/**
 * Account ids: version byte 48, 32 key bytes, little-endian CRC16, all in base 32. What decodes is exactly what
 * SEP-0023 encodes, and no corruption confined to two neighbouring characters passes the checksum.
 */
module StrKey {
  import opened Wrappers
  import opened Base32
  import opened Crc16

  const ACCOUNT_ID_VERSION_BYTE: byte := 6 << 3

  datatype DecodeError = BadCharacter | BadLength | BadVersion | BadChecksum
  datatype Result = Key(key: seq<byte>) | Failed(error: DecodeError)

  /** The checksum as it is stored: low byte first. */
  function Stored(decoded: seq<byte>): word
    requires |decoded| == 35
  {
    Join(decoded[33], decoded[34])
  }

  function Join(lo: byte, hi: byte): word { (lo as word) | ((hi as word) << 8) }

  predicate Sealed(decoded: seq<byte>) {
    |decoded| == 35 && decoded[0] == ACCOUNT_ID_VERSION_BYTE && Stored(decoded) == Crc(decoded[..33])
  }

  function ResultOf(accountId: string): Result {
    if !AllInAlphabet(accountId) then Failed(BadCharacter) else
    var decoded := Regroup(Digits(accountId));
    if |decoded| != 35 then Failed(BadLength)
    else if decoded[0] != ACCOUNT_ID_VERSION_BYTE then Failed(BadVersion)
    else if Stored(decoded) != Crc(decoded[..33]) then Failed(BadChecksum)
    else Key(decoded[1..33])
  }

  predicate Valid(accountId: string) { ResultOf(accountId).Key? }

  method DecodeStellarPublicKey(accountId: string) returns (r: Result)
    ensures r == ResultOf(accountId)
  {
    hide Regroup, Crc, AllInAlphabet, Join;
    var input := DecodeBase32(accountId);
    if input.InvalidCharacter? {
      return Failed(BadCharacter);
    }
    var decoded := input.bytes;
    if |decoded| != 35 {
      return Failed(BadLength);
    }
    if decoded[0] != ACCOUNT_ID_VERSION_BYTE {
      return Failed(BadVersion);
    }
    var payload := decoded[..33];
    var expected := Crc16Xmodem(payload);
    var actual := Join(decoded[33], decoded[34]);
    if actual != expected {
      return Failed(BadChecksum);
    }
    return Key(decoded[1..33]);
  }

  /** Every error of the decoder reads as "not valid". */
  method IsValidStellarPublicKey(accountId: string) returns (valid: bool)
    ensures valid == Valid(accountId)
  {
    var r := DecodeStellarPublicKey(accountId);
    return r.Key?;
  }

  // ---------------------------------------------------------------- what decodes is what encodes

  /** Version byte and key: the bytes the checksum covers. */
  function Payload(key: seq<byte>): seq<byte> { [ACCOUNT_ID_VERSION_BYTE] + key }

  function LowHalf(w: word): byte { (w & 0xff) as byte }
  function HighHalf(w: word): byte { (w >> 8) as byte }

  function Seal(key: seq<byte>): seq<byte> {
    var crc := Crc(Payload(key));
    Payload(key) + [LowHalf(crc), HighHalf(crc)]
  }

  function CharsOf(ds: seq<digit>): (s: string)
    ensures |s| == |ds|
  {
    seq(|ds|, i requires 0 <= i < |ds| => CharOf(ds[i]))
  }

  /** The SEP-0023 account id of a 32-byte key. */
  function AccountId(key: seq<byte>): string { CharsOf(Encode(Seal(key))) }

  lemma Halves(w: word)
    ensures Join(LowHalf(w), HighHalf(w)) == w
  {
  }

  lemma HalvesOf(lo: byte, hi: byte)
    ensures LowHalf(Join(lo, hi)) == lo && HighHalf(Join(lo, hi)) == hi
  {
  }

  lemma SealedExactly(decoded: seq<byte>)
    requires |decoded| == 35
    ensures Sealed(decoded) <==> decoded == Seal(decoded[1..33])
  {
    hide Crc, LowHalf, HighHalf, Join;
    var crc := Crc(decoded[..33]);
    var key := decoded[1..33];
    if decoded[0] == ACCOUNT_ID_VERSION_BYTE {
      assert Payload(key) == decoded[..33];
      assert decoded == Payload(key) + [decoded[33], decoded[34]];
      Halves(crc);
      HalvesOf(decoded[33], decoded[34]);
      assert Seal(key)[33] == LowHalf(crc) && Seal(key)[34] == HighHalf(crc);
    } else {
      assert Seal(key)[0] == ACCOUNT_ID_VERSION_BYTE;
    }
  }

  lemma CharsRoundTrip(ds: seq<digit>)
    ensures AllInAlphabet(CharsOf(ds)) && Digits(CharsOf(ds)) == ds
  {
    hide InAlphabet, CharOf, DigitOf;
    var s := CharsOf(ds);
    forall i | 0 <= i < |s| ensures InAlphabet(s[i]) && DigitOf(s[i]) == ds[i] {
      CharRoundTrip(ds[i]);
    }
  }

  lemma DigitsRoundTrip(s: string)
    requires AllInAlphabet(s)
    ensures CharsOf(Digits(s)) == s
  {
    hide InAlphabet, CharOf, DigitOf;
    forall i | 0 <= i < |s| ensures CharOf(DigitOf(s[i])) == s[i] {
      DigitRoundTrip(s[i]);
    }
  }

  /** 56 characters of the alphabet and 35 bytes are the same thing. */
  lemma FiftySixCharacters(s: string, bs: seq<byte>)
    requires |s| == 56 && |bs| == 35
    ensures AllInAlphabet(s) && Regroup(Digits(s)) == bs <==> s == CharsOf(Encode(bs))
  {
    hide Regroup, Encode, AllInAlphabet, CharsOf;
    if AllInAlphabet(s) {
      EncodeDecode(Digits(s));
      DigitsRoundTrip(s);
    }
    CharsRoundTrip(Encode(bs));
    DecodeEncode(bs);
  }

  lemma LengthOfDecoded(s: string)
    requires AllInAlphabet(s)
    ensures |Regroup(Digits(s))| == 35 <==> |s| == 56 || |s| == 57
  {
  }

  /** A 57th character only adds five bits that never fill a byte. */
  lemma LastCharacterIgnored(s: string)
    requires |s| == 57 && AllInAlphabet(s)
    ensures AllInAlphabet(s[..56]) && Regroup(Digits(s)) == Regroup(Digits(s[..56]))
  {
    hide Regroup, LowByte, ShiftRight, Window;
    MoreDigits(s, 56);
    assert s[..57] == s;
    OneMoreDigit(Digits(s[..56]), DigitOf(s[56]));
  }

  lemma ValidIsSealed(s: string)
    requires AllInAlphabet(s)
    ensures Valid(s) <==> Sealed(Regroup(Digits(s)))
    ensures Valid(s) ==> ResultOf(s).key == Regroup(Digits(s))[1..33]
  {
    hide Regroup, Crc;
  }

  /** On 56 characters the decoder accepts exactly the encodings, and returns the key that was encoded. */
  lemma DecodesExactlyEncodings(s: string, key: seq<byte>)
    requires |s| == 56 && |key| == 32
    ensures ResultOf(s) == Key(key) <==> s == AccountId(key)
  {
    hide Regroup, Crc, Encode, CharsOf, AllInAlphabet, Sealed, ResultOf;
    FiftySixCharacters(s, Seal(key));
    assert Seal(key)[1..33] == key;
    SealedExactly(Seal(key));
    if AllInAlphabet(s) {
      ValidIsSealed(s);
      var bs := Regroup(Digits(s));
      LengthOfDecoded(s);
      SealedExactly(bs);
    } else {
      assert ResultOf(s) == Failed(BadCharacter) by { InvalidAlphabet(s); }
    }
  }

  lemma InvalidAlphabet(s: string)
    requires !AllInAlphabet(s)
    ensures ResultOf(s) == Failed(BadCharacter)
  {
  }

  /** Strings of other lengths: 57 characters decode as their first 56 do, and nothing else has a key. */
  lemma OtherLengths(s: string)
    ensures Valid(s) ==> |s| == 56 || |s| == 57
    ensures |s| == 57 ==> (Valid(s) <==> AllInAlphabet(s) && Valid(s[..56]))
    ensures |s| == 57 && Valid(s) ==> ResultOf(s) == ResultOf(s[..56])
  {
    hide Regroup, Crc, Digits, AllInAlphabet, ResultOf, Join;
    if AllInAlphabet(s) {
      ValidIsSealed(s);
      LengthOfDecoded(s);
      if |s| == 57 {
        LastCharacterIgnored(s);
        ValidIsSealed(s[..56]);
      }
    } else {
      InvalidAlphabet(s);
    }
  }
}
