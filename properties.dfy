/** What the encoders and decoders promise together: well-formed digits,
    round trips in both directions, padding and leading zero digits, the
    agreement of the int64 and arbitrary-precision pipelines, and the
    behaviour on the standard alphabet. */
module Base62Properties {
  import opened Radix
  import opened Base62

  /** In an alphabet of distinct characters, the character of digit d is found at d. */
  lemma IndexOfDigit(a: string, d: int)
    requires ValidAlphabet(a) && 0 <= d < Base
    ensures IndexOf(a, a[d]) == d
  {
  }

  /** Reading a spelled digit sequence back gives the digits. */
  lemma {:induction false} IndicesOfSpell(a: string, ds: seq<int>)
    requires ValidAlphabet(a) && IsDigits(ds)
    ensures Indices(a, Spell(a, ds)) == ds
  {
    var s := Spell(a, ds);
    forall i | 0 <= i < |ds|
      ensures Indices(a, s)[i] == ds[i]
    {
      IndexOfDigit(a, ds[i]);
    }
  }

  /** A string over the alphabet is the spelling of its own indices. */
  lemma SpellOfIndices(a: string, s: string)
    requires ValidAlphabet(a) && FirstInvalid(a, s) == Nil
    ensures IsDigits(Indices(a, s)) && Spell(a, Indices(a, s)) == s
  {
  }

  /** Without padding, a non-positive n encodes to the empty string (0 included);
      with padding p > 0 it encodes to p '0' characters. */
  lemma EncodeNonPositive(a: string, padding: int, n: int)
    requires |a| >= Base && n <= 0
    ensures padding <= 0 ==> Encoded(a, padding, n) == ""
    ensures padding > 0 ==> Encoded(a, padding, n) == seq(padding, _ => '0')
  {
  }

  /** For n > 0 and no padding, the encoding spells exactly the base-62 digits
      of n, most significant first, and never starts with the zero digit. */
  lemma EncodeDigits(a: string, n: int)
    requires ValidAlphabet(a) && n > 0
    ensures var s := Encoded(a, 0, n);
      FirstInvalid(a, s) == Nil && Indices(a, s) == Digits(n) &&
      s != [] && s[0] != a[0]
  {
    var ds := Digits(n);
    UnpaddedSpell(a, n);
    IndicesOfSpell(a, ds);
    assert ds[0] != 0;
  }

  /** Decoding an unpadded encoding gives back n, for every n >= 0. */
  lemma RoundTrip(a: string, n: int)
    requires ValidAlphabet(a) && n >= 0
    ensures FirstInvalid(a, Encoded(a, 0, n)) == Nil
    ensures DecodedValue(a, Encoded(a, 0, n)) == n
  {
    if n > 0 {
      EncodeDigits(a, n);
      DigitsValue(n);
    }
  }

  /** The indices of a padded string: one zero digit per '0' of padding,
      when '0' is the alphabet's zero digit. */
  lemma IndicesOfPad(a: string, s: string, minlen: int)
    requires |a| > 0 && a[0] == '0'
    ensures var k := |Pad(s, minlen)| - |s|;
      Indices(a, Pad(s, minlen)) == Zeros(k) + Indices(a, s)
  {
    var r := Pad(s, minlen);
    var k := |r| - |s|;
    forall i | 0 <= i < |r|
      ensures Indices(a, r)[i] == (Zeros(k) + Indices(a, s))[i]
    {
      if i >= k {
        assert r[i] == r[k..][i - k];
      }
    }
  }

  /** With an alphabet whose zero digit is '0' (the standard one), padding
      does not disturb the round trip. */
  lemma PaddedRoundTrip(a: string, padding: int, n: int)
    requires ValidAlphabet(a) && a[0] == '0' && n >= 0
    ensures FirstInvalid(a, Encoded(a, padding, n)) == Nil
    ensures DecodedValue(a, Encoded(a, padding, n)) == n
  {
    RoundTrip(a, n);
    if padding > 0 {
      var u := Encoded(a, 0, n);
      IndicesOfPad(a, u, padding);
      ValueLeadingZeros(|Pad(u, padding)| - |u|, Indices(a, u));
    }
  }

  /** The other direction: a string over the alphabet with no leading zero
      digit is the encoding of its own decoded value. */
  lemma CanonicalRoundTrip(a: string, s: string)
    requires ValidAlphabet(a) && FirstInvalid(a, s) == Nil
    requires s == [] || s[0] != a[0]
    ensures DecodedValue(a, s) >= 0
    ensures Encoded(a, 0, DecodedValue(a, s)) == s
  {
    var ds := Indices(a, s);
    SpellOfIndices(a, s);
    if s != [] {
      assert ds[0] != 0;
    }
    ValueDigits(ds);
    ValueBounds(ds);
    if s != [] {
      ValueLeading(ds);
      UnpaddedSpell(a, Value(ds));
    }
  }

  /** Leading zero-digit characters change neither the value nor whether
      decoding succeeds. */
  lemma LeadingZeroCharacters(a: string, k: nat, s: string)
    requires |a| > 0
    ensures var t := seq(k, _ => a[0]) + s;
      (FirstInvalid(a, t) == Nil <==> FirstInvalid(a, s) == Nil) &&
      DecodedValue(a, t) == DecodedValue(a, s)
  {
    var t := seq(k, _ => a[0]) + s;
    assert Indices(a, t) == Zeros(k) + Indices(a, s) by {
      forall i | 0 <= i < |t|
        ensures Indices(a, t)[i] == (Zeros(k) + Indices(a, s))[i]
      {
        if i >= k {
          assert t[i] == s[i - k];
        }
      }
    }
    ValueLeadingZeros(k, Indices(a, s));
    if FirstInvalid(a, s) == Nil {
      assert forall i :: 0 <= i < |t| ==> t[i] in a by {
        forall i | 0 <= i < |t|
          ensures t[i] in a
        {
          if i >= k {
            assert t[i] == s[i - k];
          }
        }
      }
    } else {
      var e := FirstInvalid(a, s);
      assert t[k + e.pos] == s[e.pos];
    }
  }

  /** The empty string decodes to 0 without error. */
  lemma DecodeEmpty(a: string)
    ensures FirstInvalid(a, "") == Nil && DecodedValue(a, "") == 0
  {
  }

  /** The character code of the standard alphabet's digit d. */
  function StdCode(d: int): int
  {
    if d < 10 then '0' as int + d
    else if d < 36 then 'A' as int + (d - 10)
    else 'a' as int + (d - 36)
  }

  /** The standard alphabet spells its digits with the codes StdCode gives. */
  lemma StdCodes()
    ensures |EncodeStd| == Base
    ensures forall d :: 0 <= d < Base ==> EncodeStd[d] as int == StdCode(d)
  {
    var digits, upper, lower := "0123456789", "ABCDEFGHIJKLMNOPQRSTUVWXYZ", "abcdefghijklmnopqrstuvwxyz";
    assert EncodeStd == digits + upper + lower;
    forall d | 0 <= d < 10
      ensures digits[d] as int == StdCode(d)
    {
    }
    forall d | 0 <= d < 26
      ensures upper[d] as int == StdCode(d + 10)
    {
    }
    forall d | 0 <= d < 26
      ensures lower[d] as int == StdCode(d + 36)
    {
    }
  }

  /** The standard alphabet has 62 distinct characters: its codes ascend. */
  lemma StdAlphabetValid()
    ensures ValidAlphabet(EncodeStd)
  {
    StdCodes();
  }

  /** Encoding and then decoding with both int64 methods returns n: without
      padding for any alphabet, and under padding when the zero digit is '0'. */
  method RoundTripInt64(e: Encoding, n: int64) returns (s: string, m: int64, err: Error)
    requires ValidAlphabet(e.encode) && n >= 0
    requires e.padding > 0 ==> e.encode[0] == '0'
    ensures err == Nil && m == n
  {
    s := e.EncodeInt64(n);
    if e.padding > 0 {
      PaddedRoundTrip(e.encode, e.padding, n as int);
    } else {
      RoundTrip(e.encode, n as int);
    }
    m, err := e.DecodeToInt64(s);
  }

  /** Encoding and then decoding with both arbitrary-precision methods
      returns n: without padding for any alphabet, and under padding when the
      zero digit is '0'. */
  method RoundTripBigInt(e: Encoding, n: int) returns (s: string, m: BigCell?, err: Error)
    requires ValidAlphabet(e.encode) && n >= 0
    requires e.padding > 0 ==> e.encode[0] == '0'
    ensures err == Nil && m != null && m.v == n
  {
    var cell := new BigCell(n);
    s := e.EncodeBigInt(cell);
    if e.padding > 0 {
      PaddedRoundTrip(e.encode, e.padding, n);
    } else {
      RoundTrip(e.encode, n);
    }
    m, err := e.DecodeToBigInt(s);
  }

  /** The two encoders give the same string for the same value. */
  method SameEncoding(e: Encoding, n: int64) returns (s64: string, sBig: string)
    requires |e.encode| >= Base
    ensures s64 == sBig
  {
    s64 := e.EncodeInt64(n);
    var cell := new BigCell(n as int);
    sBig := e.EncodeBigInt(cell);
  }

  /** The two decoders agree on the error and, when there is none, on the value. */
  method SameDecoding(e: Encoding, s: string) returns (v64: int64, err64: Error, vBig: BigCell?, errBig: Error)
    requires FirstInvalid(e.encode, s) == Nil ==> DecodedValue(e.encode, s) <= MaxInt64
    ensures err64 == errBig
    ensures err64 == Nil ==> vBig != null && v64 as int == vBig.v
    ensures err64 != Nil ==> v64 == 0 && vBig == null
  {
    v64, err64 := e.DecodeToInt64(s);
    vBig, errBig := e.DecodeToBigInt(s);
  }

  /** Zero encodes to "", not "0"; with padding 3 it becomes "000". */
  lemma StdEncodeZero()
    ensures Encoded(EncodeStd, 0, 0) == ""
    ensures Encoded(EncodeStd, 3, 0) == "000"
  {
  }

  /** 61 encodes to "z", the last character of the standard alphabet. */
  lemma StdEncode61()
    ensures Encoded(EncodeStd, 0, 61) == "z"
  {
    assert Digits(61) == [61];
    assert EncodeStd[61] == 'z';
  }

  /** 62 encodes to "10", and to "010" with padding 3. */
  lemma StdEncode62()
    ensures Encoded(EncodeStd, 0, 62) == "10"
    ensures Encoded(EncodeStd, 3, 62) == "010"
  {
    assert Digits(62) == [1, 0];
    assert EncodeStd[1] == '1' && EncodeStd[0] == '0';
  }

  /** The base-62 digits of 12345 = 3 * 62^2 + 13 * 62 + 7. */
  lemma Digits12345()
    ensures Digits(12345) == [3, 13, 7]
  {
    assert 12345 / Base == 199 && 12345 % Base == 7;
    assert 199 / Base == 3 && 199 % Base == 13;
    assert Digits(3) == [3];
    assert Digits(199) == Digits(3) + [13];
  }

  /** 12345 encodes to "3D7". */
  lemma StdEncode12345()
    ensures Encoded(EncodeStd, 0, 12345) == "3D7"
  {
    var a := EncodeStd;
    assert 12345 / Base == 199 && 12345 % Base == 7;
    assert 199 / Base == 3 && 199 % Base == 13;
    assert Unpadded(a, 3) == [a[3]];
    assert Unpadded(a, 199) == Unpadded(a, 3) + [a[13]];
    assert Unpadded(a, 12345) == Unpadded(a, 199) + [a[7]];
    assert a[3] == '3' && a[13] == 'D' && a[7] == '7';
  }

  /** "10" decodes to 62. */
  lemma StdDecode10()
    ensures FirstInvalid(EncodeStd, "10") == Nil && DecodedValue(EncodeStd, "10") == 62
  {
    assert EncodeStd[0] == '0' && EncodeStd[1..][0] == '1';
    assert IndexOf(EncodeStd, '1') == 1 && IndexOf(EncodeStd, '0') == 0;
    assert Indices(EncodeStd, "10") == [1] + [0];
    ValueAppend([1], 0);
    ValuePrepend(1, []);
  }

  /** "1A!2" fails at offset 2, on '!'. */
  lemma StdDecodeInvalid()
    ensures FirstInvalid(EncodeStd, "1A!2") == InvalidCharacter('!', 2)
  {
    StdCodes();
    assert EncodeStd[1] == '1' && EncodeStd[10] == 'A';
    assert '!' !in EncodeStd;
    FirstInvalidAt(EncodeStd, "1A!2", 2);
  }

  /** 62^k encodes to the digit one followed by k zero digits. */
  lemma EncodePow(a: string, k: nat)
    requires |a| >= Base
    ensures Encoded(a, 0, Pow(k)) == [a[1]] + seq(k, _ => a[0])
  {
    var ds := [1] + Zeros(k);
    ValuePrepend(1, Zeros(k));
    ValueLeadingZeros(k, []);
    assert Zeros(k) + [] == Zeros(k);
    ValueDigits(ds);
    UnpaddedSpell(a, Pow(k));
  }

  /** 62^k encodes to "1" followed by k "0" (for k = 20, a value far past int64). */
  lemma StdEncodePow(k: nat)
    ensures Encoded(EncodeStd, 0, Pow(k)) == "1" + seq(k, _ => '0')
  {
    EncodePow(EncodeStd, k);
    assert EncodeStd[0] == '0' && EncodeStd[1] == '1';
  }
}
