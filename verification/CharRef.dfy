/** Numeric character references: `GetEntity` adds up the digits from the right, with
    a multiplier that wraps at 32 bits and a sum that wraps at 64. */
module CharRef {
  import opened XmlChars
  import opened XmlText
  import Utf8

  function Pow(base: nat, n: nat): nat {
    if n == 0 then 1 else base * Pow(base, n - 1)
  }

  /** `v` at the place above `k` digits. */
  function Weight(base: nat, k: nat, v: nat): nat {
    Pow(base, k) * v
  }

  predicate IsDigits(ds: string, base: nat) {
    forall i :: 0 <= i < |ds| ==> DigitValue(ds[i], base).Some?
  }

  function Last(ds: string, base: nat): nat
    requires ds != "" && IsDigits(ds, base)
  {
    DigitValue(ds[|ds| - 1], base).value
  }

  /** What a row of digits means. */
  function PlaceValue(ds: string, base: nat): nat
    requires IsDigits(ds, base)
  {
    if ds == "" then 0 else PlaceValue(ds[..|ds| - 1], base) * base + Last(ds, base)
  }

  /** No digit, at its place above `k` others, adds as much as 2^32. */
  predicate PlacesFit(ds: string, base: nat, k: nat)
    requires IsDigits(ds, base)
    decreases ds
  {
    ds == "" || (Weight(base, k, Last(ds, base)) < WORD32 && PlacesFit(ds[..|ds| - 1], base, k + 1))
  }

  /** What the loop adds up: every place wraps at 32 bits, the sum at 64. */
  function WrappedSum(ds: string, base: nat, k: nat, sum: nat): nat
    requires IsDigits(ds, base)
    decreases ds
  {
    if ds == "" then sum
    else WrappedSum(ds[..|ds| - 1], base, k + 1, (sum + (Weight(base, k, Last(ds, base))) % WORD32) % WORD64)
  }

  lemma WrapTimes(a: nat, d: nat)
    ensures ((a % WORD32) * d) % WORD32 == (a * d) % WORD32
  {
    var q, r := a / WORD32, a % WORD32;
    assert a * d == r * d + (q * d) * WORD32;
    WrapPlus(r * d, q * d);
  }

  lemma WrapPlus(x: nat, t: nat)
    ensures (x + t * WORD32) % WORD32 == x % WORD32
  {
  }

  lemma {:induction false} AccumulateIs(ds: string, stop: char, base: nat, k: nat, sum: nat)
    requires IsDigits(ds, base) && DigitValue(stop, base).None?
    ensures Accumulate([stop] + ds, stop, base, Pow(base, k) % WORD32, sum) == Some(WrappedSum(ds, base, k, sum))
    decreases |ds|
  {
    if ds != "" {
      var body, n, d := [stop] + ds, |ds|, Last(ds, base);
      assert body[n] == ds[n - 1] && body[..n] == [stop] + ds[..n - 1];
      WrapTimes(Pow(base, k), d);
      WrapTimes(Pow(base, k), base);
      assert Pow(base, k + 1) == Pow(base, k) * base;
      AccumulateIs(ds[..n - 1], stop, base, k + 1, (sum + (Pow(base, k) * d) % WORD32) % WORD64);
    }
  }

  lemma Spread(p: nat, v: nat, base: nat, d: nat)
    ensures p * (v * base + d) == (base * p) * v + p * d
  {
  }

  /** The last digit and its place, apart from the others. */
  lemma LastApart(ds: string, base: nat, k: nat)
    requires IsDigits(ds, base) && ds != ""
    ensures Weight(base, k, PlaceValue(ds, base)) ==
              Weight(base, k + 1, PlaceValue(ds[..|ds| - 1], base)) + Weight(base, k, Last(ds, base))
  {
    var v, d, p := PlaceValue(ds[..|ds| - 1], base), Last(ds, base), Pow(base, k);
    Spread(p, v, base, d);
  }

  /** A place that wraps, and one step of the sum. */
  lemma Wrapped(sum: nat, t: nat)
    ensures (sum + t % WORD32) % WORD64 <= sum + t
    ensures t >= WORD32 ==> (sum + t % WORD32) % WORD64 < sum + t
  {
  }

  /** The sum is never more than the digits mean, and less when a place does not fit. */
  lemma {:induction false} SumBelow(ds: string, base: nat, k: nat, sum: nat)
    requires IsDigits(ds, base)
    ensures WrappedSum(ds, base, k, sum) <= sum + Weight(base, k, PlaceValue(ds, base))
    ensures !PlacesFit(ds, base, k) ==> WrappedSum(ds, base, k, sum) < sum + Weight(base, k, PlaceValue(ds, base))
    decreases |ds|
  {
    if ds != "" {
      var t := Weight(base, k, Last(ds, base));
      SumBelow(ds[..|ds| - 1], base, k + 1, (sum + t % WORD32) % WORD64);
      LastApart(ds, base, k);
      Wrapped(sum, t);
      hide Weight, PlaceValue, Last, IsDigits;
    }
  }

  lemma {:induction false} PowGrows(base: nat, n: nat)
    requires base >= 2
    ensures Pow(base, n) >= Pow(2, n) >= 1
  {
    if n > 0 {
      PowGrows(base, n - 1);
    }
  }

  lemma {:induction false} PowMonotone(n: nat, m: nat)
    requires n <= m
    ensures Pow(2, n) <= Pow(2, m)
    decreases m
  {
    if n < m {
      PowMonotone(n, m - 1);
    }
  }

  lemma Pow32()
    ensures Pow(2, 32) == WORD32
  {
    assert Pow(2, 8) == 256;
    assert Pow(2, 16) == 65536;
    assert Pow(2, 24) == 16777216;
  }

  /** A place that fits is 0 once 32 others lie below it. */
  lemma HighPlaces(base: nat, k: nat, d: nat)
    requires base >= 2 && k >= 32 && Weight(base, k, d) < WORD32
    ensures d == 0 && Weight(base, k, d) == 0
  {
    PowGrows(base, k);
    PowMonotone(32, k);
    Pow32();
  }

  /** What `k` places that fit can add up to: at most 32 of them are not 0. */
  function Room(k: nat): nat {
    (if k < 32 then k else 32) * WORD32
  }

  lemma NoWrap(sum: nat, t: nat, k: nat)
    requires sum <= Room(k) && t < WORD32 && (k >= 32 ==> t == 0)
    ensures (sum + t % WORD32) % WORD64 == sum + t && sum + t <= Room(k + 1)
  {
  }

  /** With places that fit, nothing wraps. */
  lemma {:induction false} SumExact(ds: string, base: nat, k: nat, sum: nat)
    requires base >= 2 && IsDigits(ds, base) && PlacesFit(ds, base, k)
    requires sum <= Room(k)
    ensures WrappedSum(ds, base, k, sum) == sum + Weight(base, k, PlaceValue(ds, base))
    decreases |ds|
  {
    if ds != "" {
      var t := Weight(base, k, Last(ds, base));
      if k >= 32 {
        HighPlaces(base, k, Last(ds, base));
      }
      var init := ds[..|ds| - 1];
      assert WrappedSum(ds, base, k, sum) == WrappedSum(init, base, k + 1, (sum + t % WORD32) % WORD64);
      assert t < WORD32 && PlacesFit(init, base, k + 1);
      LastApart(ds, base, k);
      hide Weight, PlaceValue, Last, IsDigits, PlacesFit, WrappedSum, Room;
      NoWrap(sum, t, k);
      SumExact(init, base, k + 1, sum + t);
    } else {
      NoPlaces(base, k, sum);
    }
  }

  lemma NoPlaces(base: nat, k: nat, sum: nat)
    ensures WrappedSum("", base, k, sum) == sum + Weight(base, k, PlaceValue("", base))
  {
  }

  /** The right-to-left accumulation gives what the digits mean exactly when every place fits in 32 bits. */
  lemma AccumulateIff(ds: string, stop: char, base: nat)
    requires base >= 2 && IsDigits(ds, base) && DigitValue(stop, base).None?
    ensures Accumulate([stop] + ds, stop, base, 1, 0) == Some(PlaceValue(ds, base)) <==> PlacesFit(ds, base, 0)
  {
    AccumulateIs(ds, stop, base, 0, 0);
    assert Pow(base, 0) % WORD32 == 1 && Weight(base, 0, PlaceValue(ds, base)) == PlaceValue(ds, base);
    hide Weight, Accumulate, WrappedSum, PlacesFit, IsDigits, PlaceValue;
    SumBelow(ds, base, 0, 0);
    if PlacesFit(ds, base, 0) {
      SumExact(ds, base, 0, 0);
    }
  }

  /** Every place fits when the whole does, whatever the number of leading zeros. */
  lemma {:induction false} SmallFits(ds: string, base: nat, k: nat)
    requires IsDigits(ds, base) && Weight(base, k, PlaceValue(ds, base)) < WORD32
    ensures PlacesFit(ds, base, k)
    decreases |ds|
  {
    if ds != "" {
      LastApart(ds, base, k);
      hide Weight, PlaceValue, Last, IsDigits;
      SmallFits(ds[..|ds| - 1], base, k + 1);
    }
  }

  // ----- whole references

  /** A reference in base 16 or 10. */
  function Reference(ds: string, hex: bool): string {
    (if hex then "&#x" else "&#") + ds + ";"
  }

  function Base(hex: bool): nat {
    if hex then 16 else 10
  }

  /** A reference is read as what its digits mean exactly when every place fits in 32 bits. */
  lemma ReferenceIff(ds: string, hex: bool, tail: string)
    requires IsDigits(ds, Base(hex))
    ensures var r := Reference(ds, hex);
            IsNumeric(r + tail)
            && (ReadNumericRef(r + tail) == Some(NumericRef(PlaceValue(ds, Base(hex)), |r|)) <==> PlacesFit(ds, Base(hex), 0))
  {
    ReferenceParts(ds, hex, tail);
    IndexOfAfter(ds, Base(hex), tail);
    AccumulateIff(ds, if hex then 'x' else '#', Base(hex));
    hide Accumulate, Reference, PlaceValue, PlacesFit, IsDigits, IndexOf;
  }

  lemma ReferenceParts(ds: string, hex: bool, tail: string)
    requires IsDigits(ds, Base(hex))
    ensures var r, from := Reference(ds, hex) + tail, if hex then 3 else 2;
            && IsNumeric(r) && (r[2] == 'x' <==> hex) && |Reference(ds, hex)| == from + |ds| + 1
            && r[from..] == ds + (";" + tail) && r[from - 1..from + |ds|] == [if hex then 'x' else '#'] + ds
  {
    var r, from := Reference(ds, hex) + tail, if hex then 3 else 2;
    assert r == (if hex then "&#x" else "&#") + (ds + (";" + tail));
    assert !hex ==> r[2] == (ds + ";")[0];
  }

  lemma {:induction false} IndexOfAfter(ds: string, base: nat, tail: string)
    requires IsDigits(ds, base)
    ensures IndexOf(ds + (";" + tail), ';') == |ds|
  {
    var r := ds + (";" + tail);
    if ds == "" {
      assert r[0] == ';';
    } else {
      assert r[0] == ds[0] && r[1..] == ds[1..] + (";" + tail);
      IndexOfAfter(ds[1..], base, tail);
    }
  }

  /** Every spelling of a scalar value, in either base and with any number of leading zeros, is read as that value,
      and the bytes it is then converted to stand for it by RFC 3629. */
  lemma ScalarReferenceRead(c: Utf8.Code, ds: string, hex: bool, tail: string)
    requires Utf8.IsScalar(c) && IsDigits(ds, Base(hex)) && PlaceValue(ds, Base(hex)) == c as nat
    ensures var r := Reference(ds, hex);
            IsNumeric(r + tail) && ReadNumericRef(r + tail) == Some(NumericRef(c as nat, |r|))
    ensures Utf8.Decode(Utf8.Encode(c)) == Some(c)
  {
    assert c as nat < WORD32;
    SmallFits(ds, Base(hex), 0);
    ReferenceIff(ds, hex, tail);
    Utf8.DecodeUndoesEncodeIff(c);
  }
}
