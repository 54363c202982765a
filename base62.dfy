/** Base62 encoding of non-negative integers over a configurable alphabet:
    the alphabet and padding configuration, the two encoders (int64 and
    arbitrary precision), the two decoders and left-padding. */
module Base62 {
  import opened Radix

  /** The standard alphabet: digits, then upper-case, then lower-case letters
      (one 62-character literal in the source, written here as its three runs). */
  const EncodeStd: string := "0123456789" + "ABCDEFGHIJKLMNOPQRSTUVWXYZ" + "abcdefghijklmnopqrstuvwxyz"

  const MaxInt64: int := 0x7FFF_FFFF_FFFF_FFFF

  /** Go's int64. */
  newtype int64 = x: int | -0x8000_0000_0000_0000 <= x <= 0x7FFF_FFFF_FFFF_FFFF

  /** The error a decoder returns: Go's nil, or an invalid-character error
      carrying the offending character and its offset in the input. */
  datatype Error = Nil | InvalidCharacter(c: char, pos: nat)

  /** An option for Encoding.Option. The package builds options only through
      Padding, which sets the minimum encoded length. */
  datatype EncodingOption = Padding(n: int)

  /** 62 distinct characters; the character at offset d denotes digit d. */
  ghost predicate ValidAlphabet(a: string)
  {
    |a| == Base && forall i, j :: 0 <= i < j < |a| ==> a[i] != a[j]
  }

  /** strings.IndexRune: the offset of the first occurrence of c in a, or -1. */
  function IndexOf(a: string, c: char): (r: int)
    ensures -1 <= r < |a|
    ensures r == -1 <==> c !in a
    ensures r >= 0 ==> a[r] == c && forall j :: 0 <= j < r ==> a[j] != c
  {
    if a == [] then -1
    else if a[0] == c then 0
    else
      var k := IndexOf(a[1..], c);
      if k == -1 then -1 else k + 1
  }

  /** The digit value each character of s has under alphabet a. */
  ghost function Indices(a: string, s: string): (ds: seq<int>)
    ensures |ds| == |s|
  {
    seq(|s|, i requires 0 <= i < |s| => IndexOf(a, s[i]))
  }

  /** The value the decoders compute for s: the sum over i of
      index(s[i]) * 62^(|s|-1-i). */
  ghost function DecodedValue(a: string, s: string): (v: int)
    ensures FirstInvalid(a, s) == Nil && |a| <= Base ==> 0 <= v < Pow(|s|)
  {
    var ds := Indices(a, s);
    if FirstInvalid(a, s) == Nil && |a| <= Base then
      ValueBounds(ds);
      Value(ds)
    else
      Value(ds)
  }

  /** The error the decoders report for s: the first character of s that is
      not in a, with its offset, or Nil when every character is in a. */
  ghost function FirstInvalid(a: string, s: string): (e: Error)
    ensures e == Nil <==> forall i :: 0 <= i < |s| ==> s[i] in a
    ensures e.InvalidCharacter? ==>
      e.pos < |s| && s[e.pos] == e.c && e.c !in a &&
      forall i :: 0 <= i < e.pos ==> s[i] in a
  {
    if s == [] then Nil
    else if s[0] !in a then InvalidCharacter(s[0], 0)
    else match FirstInvalid(a, s[1..])
      case Nil => Nil
      case InvalidCharacter(c, p) => InvalidCharacter(c, p + 1)
  }

  /** The characters of alphabet a that spell the digits ds. */
  ghost function Spell(a: string, ds: seq<int>): (s: string)
    requires |a| >= Base && IsDigits(ds)
    ensures |s| == |ds| && forall i :: 0 <= i < |ds| ==> s[i] == a[ds[i]]
  {
    seq(|ds|, i requires 0 <= i < |ds| => a[ds[i]])
  }

  /** What the encoders' digit loop builds from n: the character of n % 62
      after the characters of n / 62, down to the empty string once n is not
      positive. */
  ghost function Unpadded(a: string, n: int): (s: string)
    requires |a| >= Base
    ensures s == [] <==> n <= 0
    ensures forall i :: 0 <= i < |s| ==> s[i] in a
    decreases if n > 0 then n else 0
  {
    if n <= 0 then "" else Unpadded(a, n / Base) + [a[n % Base]]
  }

  /** pad: s left-padded with '0' up to minlen characters. */
  function Pad(s: string, minlen: int): (r: string)
    ensures |s| >= minlen ==> r == s
    ensures |r| == if |s| >= minlen then |s| else minlen
    ensures r[|r| - |s|..] == s
    ensures forall i :: 0 <= i < |r| - |s| ==> r[i] == '0'
  {
    if |s| >= minlen then s else seq(minlen - |s|, _ => '0') + s
  }

  /** The string both encoders return for n, given the alphabet and padding. */
  ghost function Encoded(a: string, padding: int, n: int): (r: string)
    requires |a| >= Base
    ensures |r| >= padding
    ensures forall i :: 0 <= i < |r| ==> r[i] in a || r[i] == '0'
  {
    var s := Unpadded(a, n);
    if padding > 0 then Pad(s, padding) else s
  }

  /** The encoders' loop spells the base-62 digits of n. */
  lemma {:induction false} UnpaddedSpell(a: string, n: int)
    requires |a| >= Base && n > 0
    ensures Unpadded(a, n) == Spell(a, Digits(n))
  {
    var ds := Digits(n / Base);
    assert Digits(n) == ds + [n % Base];
    if n / Base > 0 {
      UnpaddedSpell(a, n / Base);
    } else {
      assert ds == [];
    }
  }

  /** The encoders' loop invariant survives one step. */
  lemma UnpaddedLoopStep(a: string, m: nat, b: string, n0: int)
    requires |a| >= Base && m > 0
    requires Unpadded(a, m) + b == Unpadded(a, n0)
    ensures Unpadded(a, m / Base) + ([a[m % Base]] + b) == Unpadded(a, n0)
  {
    var u, c := Unpadded(a, m / Base), [a[m % Base]];
    assert Unpadded(a, m) == u + c;
    assert u + (c + b) == (u + c) + b;
  }

  /** The first character the lookup misses is the one FirstInvalid reports. */
  lemma FirstInvalidAt(a: string, s: string, i: nat)
    requires i < |s| && IndexOf(a, s[i]) == -1
    requires forall j :: 0 <= j < i ==> Indices(a, s)[j] >= 0
    ensures FirstInvalid(a, s) == InvalidCharacter(s[i], i)
  {
    forall j | 0 <= j < i
      ensures s[j] in a
    {
      assert Indices(a, s)[j] == IndexOf(a, s[j]);
    }
  }

  /** When the lookup finds every character, there is no error and the
      running total over all of s is its decoded value. */
  lemma DecodeComplete(a: string, s: string, acc: int)
    requires forall j :: 0 <= j < |s| ==> Indices(a, s)[j] >= 0
    requires acc == PartialValue(Indices(a, s), |s|)
    ensures FirstInvalid(a, s) == Nil && acc == DecodedValue(a, s)
  {
    forall j | 0 <= j < |s|
      ensures s[j] in a
    {
      assert Indices(a, s)[j] == IndexOf(a, s[j]);
    }
  }

  /** The decoders' running total after one more character that is in the alphabet. */
  lemma DecodeLoopStep(ds: seq<int>, i: nat, acc: int)
    requires i < |ds| && ds[i] >= 0
    requires acc == PartialValue(ds, i)
    ensures acc + ds[i] * Pow(|ds| - (i + 1)) == PartialValue(ds, i + 1)
    ensures acc >= 0 ==> PartialValue(ds, i + 1) >= 0
  {
  }

  /** An arbitrary-precision integer (*big.Int) the caller owns. */
  class BigCell {
    var v: int

    constructor (v: int)
      ensures this.v == v
    {
      this.v := v;
    }
  }

  /** An alphabet together with a minimum encoded length. */
  class Encoding {
    var encode: string
    var padding: int

    /** NewEncoding: the alphabet is taken as given, without any check. */
    constructor (encoder: string)
      ensures encode == encoder && padding == 0
    {
      encode := encoder;
      padding := 0;
    }

    /** Applying Padding(n) to the receiver sets its padding and nothing else. */
    method ApplyOption(opt: EncodingOption)
      modifies this
      ensures encode == old(encode)
      ensures padding == opt.n
    {
      padding := opt.n;
    }

    /** Applies opts in order to this receiver and returns the receiver:
        the last Padding wins, the alphabet is untouched. */
    method Option(opts: seq<EncodingOption>) returns (r: Encoding)
      modifies this
      ensures r == this
      ensures encode == old(encode)
      ensures padding == if opts == [] then old(padding) else opts[|opts| - 1].n
    {
      var i := 0;
      while i < |opts|
        invariant 0 <= i <= |opts|
        invariant encode == old(encode)
        invariant padding == if i == 0 then old(padding) else opts[i - 1].n
      {
        ApplyOption(opts[i]);
        i := i + 1;
      }
      r := this;
    }

    /** EncodeInt64: repeated division by 62, prepending the remainder's
        character, then padding when padding > 0. */
    method EncodeInt64(n: int64) returns (s: string)
      requires |encode| >= Base
      ensures s == Encoded(encode, padding, n as int)
    {
      var a := encode;
      var b: string := [];
      // n only shrinks towards 0, so the int64 divisions agree with those on int
      var m: int := n as int;
      while m > 0
        invariant m == n as int || 0 <= m < n as int
        invariant Unpadded(a, m) + b == Unpadded(a, n as int)
      {
        var rem := m % Base;
        UnpaddedLoopStep(a, m, b, n as int);
        m := m / Base;
        b := [a[rem]] + b;
      }
      s := b;
      if padding > 0 {
        s := Pad(s, padding);
      }
    }

    /** EncodeBigInt: as EncodeInt64, but DivMod overwrites the caller's
        integer, which ends at 0 when it was positive. */
    method EncodeBigInt(n: BigCell) returns (s: string)
      requires |encode| >= Base
      modifies n
      ensures s == Encoded(encode, padding, old(n.v))
      ensures n.v == if old(n.v) > 0 then 0 else old(n.v)
    {
      ghost var n0 := n.v;
      var a := encode;
      var b: string := [];
      while n.v > 0
        invariant n.v == n0 || 0 <= n.v < n0
        invariant Unpadded(a, n.v) + b == Unpadded(a, n0)
      {
        var rem := n.v % Base;
        UnpaddedLoopStep(a, n.v, b, n0);
        n.v := n.v / Base;
        b := [a[rem]] + b;
      }
      s := b;
      if padding > 0 {
        s := Pad(s, padding);
      }
    }

    /** DecodeToInt64: the value of s, or 0 and the first invalid character. */
    method DecodeToInt64(s: string) returns (n: int64, err: Error)
      requires FirstInvalid(encode, s) == Nil ==> DecodedValue(encode, s) <= MaxInt64
      ensures err == FirstInvalid(encode, s)
      ensures err == Nil ==> n as int == DecodedValue(encode, s)
      ensures err != Nil ==> n == 0
    {
      var a := encode;
      ghost var ds := Indices(a, s);
      var acc := 0;
      var i := 0;
      while i < |s|
        invariant 0 <= i <= |s|
        invariant forall j :: 0 <= j < i ==> ds[j] >= 0
        invariant acc == PartialValue(ds, i) && acc >= 0
      {
        var idx := IndexOf(a, s[i]);
        if idx == -1 {
          FirstInvalidAt(a, s, i);
          return 0, InvalidCharacter(s[i], i);
        }
        var power := |s| - (i + 1);
        var c := idx * Pow(power);
        assert ds[i] == idx;
        DecodeLoopStep(ds, i, acc);
        acc := acc + c;
        i := i + 1;
      }
      DecodeComplete(a, s, acc);
      n, err := acc as int64, Nil;
    }

    /** MustDecodeToInt64: DecodeToInt64 for input that decodes without error
        (the source panics otherwise). */
    method MustDecodeToInt64(s: string) returns (v: int64)
      requires FirstInvalid(encode, s) == Nil
      requires DecodedValue(encode, s) <= MaxInt64
      ensures v as int == DecodedValue(encode, s)
    {
      var err;
      v, err := DecodeToInt64(s);
    }

    /** DecodeToBigInt: a fresh integer holding the value of s, or nil and the
        first invalid character. */
    method DecodeToBigInt(s: string) returns (n: BigCell?, err: Error)
      ensures err == FirstInvalid(encode, s)
      ensures err == Nil ==> n != null && fresh(n) && n.v == DecodedValue(encode, s)
      ensures err != Nil ==> n == null
    {
      var a := encode;
      ghost var ds := Indices(a, s);
      n := new BigCell(0);
      var i := 0;
      while i < |s|
        invariant 0 <= i <= |s|
        invariant forall j :: 0 <= j < i ==> ds[j] >= 0
        invariant n.v == PartialValue(ds, i)
      {
        var pos := IndexOf(a, s[i]);
        if pos == -1 {
          FirstInvalidAt(a, s, i);
          return null, InvalidCharacter(s[i], i);
        }
        var idx := pos;
        var exp := |s| - (i + 1);
        var power := Pow(exp);
        var c := idx * power;
        assert ds[i] == idx;
        DecodeLoopStep(ds, i, n.v);
        n.v := n.v + c;
        i := i + 1;
      }
      DecodeComplete(a, s, n.v);
      err := Nil;
    }
  }
}
