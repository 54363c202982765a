/** Positional arithmetic in base 62: exact powers of the base, the digit
    sequence of a natural number (most significant digit first) and the value
    of a digit sequence as the sum of digit * 62^position. */
module Radix {

  const Base: nat := 62

  /** Base^e, exact (the decoders' positional weight). */
  function Pow(e: nat): (r: nat)
    ensures r >= 1
    ensures e > 0 ==> r >= Base
  {
    if e == 0 then 1 else Base * Pow(e - 1)
  }

  /** Every element is a digit value in [0, Base). */
  ghost predicate IsDigits(ds: seq<int>)
  {
    forall i :: 0 <= i < |ds| ==> 0 <= ds[i] < Base
  }

  /** Digits with no leading zero: the form the encoders produce. */
  ghost predicate Canonical(ds: seq<int>)
  {
    IsDigits(ds) && (ds == [] || ds[0] != 0)
  }

  /** The running total after the first k positions of ds:
      the sum of ds[i] * Base^(|ds|-1-i) for i < k. */
  ghost function PartialValue(ds: seq<int>, k: nat): (r: int)
    requires k <= |ds|
    ensures IsDigits(ds) ==> r >= 0
  {
    if k == 0 then 0 else PartialValue(ds, k - 1) + ds[k - 1] * Pow(|ds| - k)
  }

  /** The value of a digit sequence, most significant digit first. */
  ghost function Value(ds: seq<int>): (r: int)
    ensures IsDigits(ds) ==> r >= 0
  {
    PartialValue(ds, |ds|)
  }

  /** k zero digits. */
  ghost function Zeros(k: nat): (zs: seq<int>)
    ensures |zs| == k && forall i :: 0 <= i < k ==> zs[i] == 0
  {
    seq(k, _ => 0)
  }

  /** The base-62 digits of n, most significant first; empty for 0. */
  ghost function Digits(n: nat): (ds: seq<int>)
    ensures Canonical(ds)
    ensures ds == [] <==> n == 0
    decreases n
  {
    if n == 0 then [] else Digits(n / Base) + [n % Base]
  }

  /** Scaling a weight by the base scales the digit's contribution. */
  lemma ScaleWeight(x: int, w: int)
    ensures x * (Base * w) == Base * (x * w)
  {
  }

  /** Appending a digit to a prefix multiplies every earlier weight by the base. */
  lemma {:induction false} PartialValueAppend(ds: seq<int>, d: int, k: nat)
    requires k <= |ds|
    ensures PartialValue(ds + [d], k) == Base * PartialValue(ds, k)
  {
    if k > 0 {
      PartialValueAppend(ds, d, k - 1);
      var w := Pow(|ds| - k);
      assert Pow(|ds + [d]| - k) == Base * w;
      assert (ds + [d])[k - 1] == ds[k - 1];
      ScaleWeight(ds[k - 1], w);
      calc {
        PartialValue(ds + [d], k);
        PartialValue(ds + [d], k - 1) + ds[k - 1] * (Base * w);
        Base * PartialValue(ds, k - 1) + Base * (ds[k - 1] * w);
        Base * PartialValue(ds, k);
      }
    }
  }

  /** Horner's step: the value of ds followed by d is Base * value(ds) + d. */
  lemma ValueAppend(ds: seq<int>, d: int)
    ensures Value(ds + [d]) == Base * Value(ds) + d
  {
    PartialValueAppend(ds, d, |ds|);
  }

  /** Prepending a digit adds d * Base^(length of the rest). */
  lemma {:induction false} PartialValuePrepend(d: int, ds: seq<int>, k: nat)
    requires k <= |ds|
    ensures PartialValue([d] + ds, k + 1) == d * Pow(|ds|) + PartialValue(ds, k)
  {
    if k > 0 {
      PartialValuePrepend(d, ds, k - 1);
      assert ([d] + ds)[k] == ds[k - 1];
    }
  }

  /** The value of [d] + ds is d * Base^|ds| + the value of ds. */
  lemma ValuePrepend(d: int, ds: seq<int>)
    ensures Value([d] + ds) == d * Pow(|ds|) + Value(ds)
  {
    PartialValuePrepend(d, ds, |ds|);
  }

  /** Leading zero digits do not change the value. */
  lemma {:induction false} ValueLeadingZeros(k: nat, ds: seq<int>)
    ensures Value(Zeros(k) + ds) == Value(ds)
  {
    if k > 0 {
      ValueLeadingZeros(k - 1, ds);
      assert Zeros(k) == [0] + Zeros(k - 1);
      assert Zeros(k) + ds == [0] + (Zeros(k - 1) + ds);
      ValuePrepend(0, Zeros(k - 1) + ds);
    } else {
      assert Zeros(k) + ds == ds;
    }
  }

  /** A digit sequence of length m has a value in [0, Base^m). */
  lemma {:induction false} ValueBounds(ds: seq<int>)
    requires IsDigits(ds)
    ensures 0 <= Value(ds) < Pow(|ds|)
  {
    if ds != [] {
      var init, d := ds[..|ds| - 1], ds[|ds| - 1];
      assert ds == init + [d];
      ValueBounds(init);
      ValueAppend(init, d);
    }
  }

  /** With a non-zero leading digit, the value is at least Base^(m-1). */
  lemma ValueLeading(ds: seq<int>)
    requires Canonical(ds) && ds != []
    ensures Value(ds) >= Pow(|ds| - 1)
  {
    assert ds == [ds[0]] + ds[1..];
    ValuePrepend(ds[0], ds[1..]);
    ValueBounds(ds[1..]);
  }

  /** The digits of n evaluate back to n. */
  lemma {:induction false} DigitsValue(n: nat)
    ensures Value(Digits(n)) == n
  {
    if n > 0 {
      DigitsValue(n / Base);
      ValueAppend(Digits(n / Base), n % Base);
    }
  }

  /** A canonical digit sequence is the digit sequence of its own value. */
  lemma {:induction false} ValueDigits(ds: seq<int>)
    requires Canonical(ds)
    ensures Value(ds) >= 0 && Digits(Value(ds)) == ds
  {
    ValueBounds(ds);
    if ds != [] {
      var init, d := ds[..|ds| - 1], ds[|ds| - 1];
      assert ds == init + [d];
      ValueAppend(init, d);
      assert init != [] ==> init[0] == ds[0];
      ValueDigits(init);
      ValueLeading(ds);
      var v := Value(ds);
      assert v / Base == Value(init) && v % Base == d;
    }
  }
}
