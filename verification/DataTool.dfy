/** The placed picture as one number: seven fields in the decimal digits of a 64-bit
    integer, packed by `setData` and read back from the digit string. Rounding of
    `float` is not modelled: coordinates are reals. */
module PictureCodec {
  import opened XmlChars

  newtype int32 = x: int | -0x8000_0000 <= x < 0x8000_0000
  newtype int64 = x: int | -0x8000_0000_0000_0000 <= x < 0x8000_0000_0000_0000

  const MAX64: nat := 0x7FFF_FFFF_FFFF_FFFF

  datatype Picture = Picture(x: real, y: real, angle: real, scale: real, name: nat, layer: nat, studentId: nat)

  /** The ranges the digit positions have room for. */
  predicate InRange(p: Picture) {
    && 0.0 <= p.x < 1000.0 && 0.0 <= p.y < 1000.0 && 0.0 <= p.angle < 1000.0 && 0.0 <= p.scale < 10.0
    && p.name <= 9999 && p.layer <= 99 && p.studentId <= 99
  }

  /** The number of a picture, without bounds. */
  function Packed(p: Picture): int {
    Sum(p.x.Floor, p.y.Floor, p.angle.Floor, (p.scale * 10.0).Floor, p.name, p.layer, p.studentId)
  }

  function Sum(a: int, b: int, c: int, d: int, e: int, f: int, g: int): int {
    a + b * 1_000 + c * 1_000_000 + d * 1_000_000_000 + e * 100_000_000_000 + f * 1_000_000_000_000_000
    + g * 100_000_000_000_000_000
  }

  lemma PackedFits(p: Picture)
    requires InRange(p)
    ensures 0 <= Packed(p) && (p.studentId <= 91 ==> Packed(p) <= MAX64)
    ensures Packed(p) >= 100_000_000_000_000_000 <==> p.studentId >= 1
    ensures 0 <= p.x.Floor <= 999 && 0 <= p.y.Floor <= 999 && 0 <= p.angle.Floor <= 999 && 0 <= (p.scale * 10.0).Floor <= 99
    ensures p.name <= 9999 && p.layer <= 99
    ensures Packed(p) == Sum(p.x.Floor, p.y.Floor, p.angle.Floor, (p.scale * 10.0).Floor, p.name, p.layer, p.studentId)
  {
  }

  // ----- digit strings

  /** A number printed in decimal. */
  function Digits(n: nat): (s: string)
    ensures s != "" && forall i :: 0 <= i < |s| ==> IsDigit(s[i])
  {
    var d := [('0' as int + n % 10) as char];
    if n < 10 then d else Digits(n / 10) + d
  }

  /** A row of digits read as a number. */
  function Value(s: string): nat
    requires forall i :: 0 <= i < |s| ==> IsDigit(s[i])
  {
    if s == "" then 0
    else
      assert IsDigit(s[|s| - 1]);
      Value(s[..|s| - 1]) * 10 + (s[|s| - 1] as int - '0' as int)
  }

  function Pow10(n: nat): (p: nat)
    ensures p > 0
  {
    if n == 0 then 1 else 10 * Pow10(n - 1)
  }

  /** A number without its last `k` digits. */
  function Upper(n: nat, k: nat): nat {
    Quotient(n, Pow10(k))
  }

  function Quotient(n: nat, d: nat): nat
    requires d > 0
  {
    n / d
  }

  function Remainder(n: nat, d: nat): (r: nat)
    requires d > 0
    ensures r < d
  {
    n % d
  }

  /** `string(m_sdata, m_length - from, n)` read as a number; the constructor throws when the string is too short. */
  function Part(s: string, from: nat, n: nat): Option<nat>
    requires n <= from && forall i :: 0 <= i < |s| ==> IsDigit(s[i])
  {
    if |s| < from then None else Some(Value(s[|s| - from..|s| - from + n]))
  }

  /** The digits of `n` from the `from`-th to the `till`-th from the end, as arithmetic. */
  function Cut(n: nat, from: nat, till: nat): nat
    requires till <= from
  {
    Remainder(Upper(n, till), Pow10(from - till))
  }

  /** Printing gives as many digits as the size of the number asks for. */
  lemma {:induction false} DigitsLength(n: nat, k: nat)
    requires k > 0
    ensures |Digits(n)| > k <==> n >= Pow10(k)
    decreases k
  {
    if k > 1 && n >= 10 {
      DigitsLength(n / 10, k - 1);
    } else if n >= 10 {
      assert Pow10(1) == 10;
    } else {
      assert Pow10(k) == 10 * Pow10(k - 1);
    }
  }

  lemma {:induction false} ValueOfDigits(n: nat)
    ensures Value(Digits(n)) == n
  {
    if n >= 10 {
      ValueOfDigits(n / 10);
      assert Digits(n)[..|Digits(n)| - 1] == Digits(n / 10);
    }
  }

  /** Dropping the last digit. */
  lemma DigitsInit(n: nat)
    requires n >= 10
    ensures |Digits(n)| == |Digits(n / 10)| + 1 && Digits(n)[..|Digits(n)| - 1] == Digits(n / 10)
  {
  }

  /** Digits up to the `till`-th from the end are those of the number without its last `till` digits. */
  lemma {:induction false} DropLast(n: nat, till: nat)
    requires till < |Digits(n)|
    ensures Digits(n)[..|Digits(n)| - till] == Digits(Upper(n, till))
    decreases till
  {
    if till == 0 {
      assert Digits(n)[..|Digits(n)|] == Digits(n) && n / 1 == n;
    } else {
      DigitsInit(n);
      DropLast(n / 10, till - 1);
      DivPow(n, till);
      hide Digits, Pow10, Upper;
      InitOfInit(Digits(n), Digits(n / 10), till);
    }
  }

  lemma DivPow(n: nat, k: nat)
    requires k > 0
    ensures Upper(n / 10, k - 1) == Upper(n, k)
  {
    DivDiv(n, Pow10(k - 1));
  }

  lemma InitOfInit(s: string, u: string, k: nat)
    requires |s| == |u| + 1 && s[..|s| - 1] == u && 0 < k <= |s|
    ensures s[..|s| - k] == u[..|u| - (k - 1)]
  {
    assert s[..|s| - k] == s[..|s| - 1][..|s| - k];
  }

  lemma AtLeastOnce(d: nat, k: nat)
    requires k >= 1
    ensures d * k >= d
  {
  }

  lemma DivUnique(n: nat, d: nat, q: nat, r: nat)
    requires d > 0 && r < d && n == d * q + r
    ensures n / d == q && n % d == r
  {
    var q', r' := n / d, n % d;
    assert n == d * q' + r';
    assert d * (q - q') == d * q - d * q';
    assert d * (q' - q) == d * q' - d * q;
    if q > q' {
      AtLeastOnce(d, q - q');
    } else if q < q' {
      AtLeastOnce(d, q' - q);
    }
  }

  /** Dividing off one digit first. */
  lemma DivDiv(n: nat, p: nat)
    requires p > 0
    ensures n / 10 / p == n / (10 * p) && n % (10 * p) == n / 10 % p * 10 + n % 10
  {
    var m := n / 10;
    var q, r := m / p, m % p;
    assert m == p * q + r;
    assert n == 10 * m + n % 10;
    assert 10 * (p * q) == (10 * p) * q;
    DivUnique(n, 10 * p, q, 10 * r + n % 10);
  }

  lemma LastChar(m: nat)
    ensures var s := Digits(m); s[|s| - 1] as int - '0' as int == m % 10
  {
  }

  lemma RemainderStep(m: nat, n: nat)
    requires n > 0
    ensures Remainder(m, Pow10(n)) == Remainder(m / 10, Pow10(n - 1)) * 10 + m % 10
  {
    DivDiv(m, Pow10(n - 1));
  }

  /** The last `n` digits. */
  lemma {:induction false} LastDigits(m: nat, n: nat)
    requires n <= |Digits(m)|
    ensures Value(Digits(m)[|Digits(m)| - n..]) == Remainder(m, Pow10(n))
    decreases n
  {
    var s := Digits(m);
    if n == 0 {
      NoDigits(m);
      assert s[|s|..] == "";
    } else if m < 10 {
      OneDigit(m);
      hide Digits, Pow10, Remainder, Value;
      assert s[0..] == s;
    } else {
      DigitsInit(m);
      LastDigits(m / 10, n - 1);
      RemainderStep(m, n);
      LastChar(m);
      hide Digits, Pow10, Remainder;
      LastOf(s, Digits(m / 10), n);
    }
  }

  lemma NoDigits(m: nat)
    ensures Remainder(m, Pow10(0)) == 0
  {
  }

  lemma OneDigit(m: nat)
    requires m < 10
    ensures |Digits(m)| == 1 && Value(Digits(m)) == m && Remainder(m, Pow10(1)) == m
  {
    ValueOfDigits(m);
    assert Pow10(1) == 10 * Pow10(0);
  }

  lemma LastOf(s: string, u: string, n: nat)
    requires 0 < n <= |s| == |u| + 1 && s[..|s| - 1] == u && forall i :: 0 <= i < |s| ==> IsDigit(s[i])
    ensures forall i :: 0 <= i < |u| ==> IsDigit(u[i])
    ensures Value(s[|s| - n..]) == Value(u[|u| - (n - 1)..]) * 10 + (s[|s| - 1] as int - '0' as int)
  {
    var t := s[|s| - n..];
    assert t[..n - 1] == u[|u| - (n - 1)..] && t[n - 1] == s[|s| - 1];
    assert forall i :: 0 <= i < |u| ==> u[i] == s[i];
  }

  /** Reading digits out of the middle is dividing and taking the remainder. */
  lemma PartIsCut(m: nat, from: nat, n: nat)
    requires n <= from
    ensures Part(Digits(m), from, n) == if |Digits(m)| < from then None else Some(Cut(m, from, from - n))
  {
    var s := Digits(m);
    hide Digits, Pow10, Upper;
    if from <= |s| && n > 0 {
      var till := from - n;
      DropLast(m, till);
      var t := Digits(Upper(m, till));
      LastDigits(Upper(m, till), n);
      hide Value;
      assert |t| == |s| - till;
      assert s[|s| - from..|s| - from + n] == t[|t| - n..];
    } else if from <= |s| {
      assert s[|s| - from..|s| - from] == "";
      CutNothing(m, from);
    }
  }

  lemma CutNothing(m: nat, from: nat)
    ensures Cut(m, from, from) == 0
  {
    assert Pow10(0) == 1;
  }

  // ----- reading back

  /** `getPicture`: nothing when one of the digit positions is not there, which makes the source throw. */
  function Decode(v: nat): Option<Picture> {
    var s := Digits(v);
    var x, y, angle, scale := Part(s, 3, 3), Part(s, 6, 3), Part(s, 9, 3), Part(s, 11, 2);
    var name, layer := Part(s, 15, 4), Part(s, 17, 2);
    var id := if |s| != 18 then Part(s, 19, 2) else Part(s, 18, 1);
    if x.None? || y.None? || angle.None? || scale.None? || name.None? || layer.None? || id.None? then None
    else
      Some(Picture(x.value as real, y.value as real, angle.value as real, scale.value as real / 10.0,
                   name.value, layer.value, id.value))
  }

  /** What encoding keeps of a picture: whole coordinates and tenths of the scale. */
  function Rounded(p: Picture): Picture {
    p.(x := p.x.Floor as real, y := p.y.Floor as real, angle := p.angle.Floor as real,
       scale := (p.scale * 10.0).Floor as real / 10.0)
  }

  lemma Powers()
    ensures Pow10(0) == 1 && Pow10(1) == 10 && Pow10(2) == 100 && Pow10(3) == 1_000 && Pow10(4) == 10_000
    ensures Pow10(6) == 1_000_000 && Pow10(9) == 1_000_000_000 && Pow10(11) == 100_000_000_000
    ensures Pow10(15) == 1_000_000_000_000_000 && Pow10(17) == 100_000_000_000_000_000
    ensures Pow10(18) == 1_000_000_000_000_000_000
  {
    assert Pow10(5) == 100_000;
    assert Pow10(7) == 10_000_000;
    assert Pow10(8) == 100_000_000;
    assert Pow10(10) == 10_000_000_000;
    assert Pow10(12) == 1_000_000_000_000;
    assert Pow10(13) == 10_000_000_000_000;
    assert Pow10(14) == 100_000_000_000_000;
    assert Pow10(16) == 10_000_000_000_000_000;
  }

  /** The digits of `v` above `d`, up to `m` of them. */
  function Field(v: nat, d: nat, m: nat): (r: nat)
    requires d > 0 && m > 0
    ensures r < m
  {
    Remainder(Quotient(v, d), m)
  }

  /** The seven fields of a number of 18 or 19 digits. */
  lemma Cuts(v: nat)
    requires 100_000_000_000_000_000 <= v <= MAX64
    ensures var s := Digits(v);
            && |s| >= 18
            && Part(s, 3, 3) == Some(Field(v, 1, 1_000)) && Part(s, 6, 3) == Some(Field(v, 1_000, 1_000))
            && Part(s, 9, 3) == Some(Field(v, 1_000_000, 1_000)) && Part(s, 11, 2) == Some(Field(v, 1_000_000_000, 100))
            && Part(s, 15, 4) == Some(Field(v, 100_000_000_000, 10_000))
            && Part(s, 17, 2) == Some(Field(v, 1_000_000_000_000_000, 100))
            && (if |s| != 18 then Part(s, 19, 2) else Part(s, 18, 1)) == Some(Field(v, 100_000_000_000_000_000, 100))
  {
    Powers();
    DigitsLength(v, 17);
    DigitsLength(v, 18);
    hide Digits, Part, Pow10, Value, Field;
    PartAt(v, 3, 3, 1, 1_000);
    PartAt(v, 6, 3, 1_000, 1_000);
    PartAt(v, 9, 3, 1_000_000, 1_000);
    PartAt(v, 11, 2, 1_000_000_000, 100);
    PartAt(v, 15, 4, 100_000_000_000, 10_000);
    PartAt(v, 17, 2, 1_000_000_000_000_000, 100);
    TopField(v);
    if |Digits(v)| == 18 {
      PartAt(v, 18, 1, 100_000_000_000_000_000, 10);
    } else {
      PartAt(v, 19, 2, 100_000_000_000_000_000, 100);
    }
  }

  lemma PartAt(v: nat, from: nat, n: nat, d: nat, m: nat)
    requires n <= from <= |Digits(v)| && d == Pow10(from - n) && m == Pow10(n)
    ensures Part(Digits(v), from, n) == Some(Field(v, d, m))
  {
    PartIsCut(v, from, n);
    hide Digits, Part, Pow10, Value, Remainder, Quotient;
  }

  /** The student takes all that is left. */
  lemma TopField(v: nat)
    requires v <= MAX64
    ensures v < 1_000_000_000_000_000_000 ==> Field(v, 100_000_000_000_000_000, 10) == Field(v, 100_000_000_000_000_000, 100)
    ensures Field(v, 100_000_000_000_000_000, 100) == v / 100_000_000_000_000_000
  {
  }

  /** A number is the sum of its fields. */
  lemma SumOfFields(v: nat)
    requires v <= MAX64
    ensures v == Sum(Field(v, 1, 1_000), Field(v, 1_000, 1_000), Field(v, 1_000_000, 1_000), Field(v, 1_000_000_000, 100),
                     Field(v, 100_000_000_000, 10_000), Field(v, 1_000_000_000_000_000, 100),
                     Field(v, 100_000_000_000_000_000, 100))
  {
    FieldApart(v, 1, 1_000);
    FieldApart(v, 1_000, 1_000);
    FieldApart(v, 1_000_000, 1_000);
    FieldApart(v, 1_000_000_000, 100);
    FieldApart(v, 100_000_000_000, 10_000);
    FieldApart(v, 1_000_000_000_000_000, 100);
    TopField(v);
    assert Quotient(v, 1) == v;
    assert Quotient(v, 100_000_000_000_000_000) == v / 100_000_000_000_000_000;
    hide Field, Quotient;
  }

  lemma FieldApart(v: nat, d: nat, m: nat)
    requires d > 0 && m > 0
    ensures Quotient(v, d) * d == Field(v, d, m) * d + Quotient(v, d * m) * (d * m)
  {
    var q := Quotient(v, d);
    var h, l := Quotient(q, m), Remainder(q, m);
    assert q == m * h + l;
    QuotientTwice(v, d, m);
    hide Quotient, Remainder;
    Expand(d, m, h, l);
  }

  lemma QuotientTwice(v: nat, d: nat, m: nat)
    requires d > 0 && m > 0
    ensures d * m > 0 && Quotient(Quotient(v, d), m) == Quotient(v, d * m)
  {
    var q, r := Quotient(v, d), Remainder(v, d);
    var h, l := Quotient(q, m), Remainder(q, m);
    Divided(v, d);
    Divided(q, m);
    AtMost(d, l, m, r);
    hide Quotient, Remainder;
    Combined(v, d, m, q, r, h, l);
    DivideUnique(v, d * m, h, d * l + r);
  }

  lemma Divided(n: nat, d: nat)
    requires d > 0
    ensures n == d * Quotient(n, d) + Remainder(n, d)
  {
  }

  lemma DivideUnique(n: nat, d: nat, q: nat, r: nat)
    requires r < d && n == d * q + r
    ensures Quotient(n, d) == q
  {
    DivUnique(n, d, q, r);
  }

  lemma Combined(v: nat, d: nat, m: nat, q: nat, r: nat, h: nat, l: nat)
    requires v == d * q + r && q == m * h + l
    ensures v == (d * m) * h + (d * l + r)
  {
    Expand(d, m, h, l);
  }

  lemma Expand(d: nat, m: nat, h: nat, l: nat)
    ensures d * (m * h + l) == (d * m) * h + d * l
    ensures d * l == l * d && (d * m) * h == h * (d * m) && d * (m * h + l) == (m * h + l) * d
  {
  }

  lemma AtMost(d: nat, l: nat, m: nat, r: nat)
    requires l < m && r < d
    ensures d * l + r < d * m
  {
    assert d * m == d * l + d * (m - l);
    AtLeastOnce(d, m - l);
  }

  /** Every number of 18 or 19 digits that a `long long` holds is decoded, and encoding what it says gives it back. */
  lemma EncodeUndoesDecode(v: nat)
    requires 100_000_000_000_000_000 <= v <= MAX64
    ensures var q := Decode(v);
            q.Some? && InRange(q.value) && q.value.studentId >= 1 && Rounded(q.value) == q.value && Packed(q.value) == v
  {
    hide Digits, Part, Packed, InRange, Rounded, Field, Sum;
    Cuts(v);
    SumOfFields(v);
    TopField(v);
    assert v / 100_000_000_000_000_000 >= 1;
    MadeOf(Field(v, 1, 1_000), Field(v, 1_000, 1_000), Field(v, 1_000_000, 1_000), Field(v, 1_000_000_000, 100),
           Field(v, 100_000_000_000, 10_000), Field(v, 1_000_000_000_000_000, 100), Field(v, 100_000_000_000_000_000, 100));
  }

  lemma MadeOf(a: nat, b: nat, c: nat, d: nat, e: nat, f: nat, g: nat)
    requires a < 1_000 && b < 1_000 && c < 1_000 && d < 100 && e < 10_000 && f < 100 && 1 <= g < 100
    ensures var q := Picture(a as real, b as real, c as real, d as real / 10.0, e, f, g);
            && InRange(q) && q.studentId >= 1 && Rounded(q) == q
            && Packed(q) == Sum(a, b, c, d, e, f, g)
  {
    assert (d as real / 10.0) * 10.0 == d as real;
  }

  /** Two pictures with the same number agree in all that encoding keeps. */
  lemma PackedInjective(p: Picture, q: Picture)
    requires InRange(p) && InRange(q) && Packed(p) == Packed(q)
    ensures Rounded(p) == Rounded(q)
  {
    SameParts(p, q);
    hide Packed, InRange;
  }

  lemma SameParts(p: Picture, q: Picture)
    requires InRange(p) && InRange(q) && Packed(p) == Packed(q)
    ensures p.x.Floor == q.x.Floor && p.y.Floor == q.y.Floor && p.angle.Floor == q.angle.Floor
    ensures (p.scale * 10.0).Floor == (q.scale * 10.0).Floor
    ensures p.name == q.name && p.layer == q.layer && p.studentId == q.studentId
  {
    PackedFits(p);
    PackedFits(q);
    hide InRange, Packed, Sum;
    SumInjective(p.x.Floor, p.y.Floor, p.angle.Floor, (p.scale * 10.0).Floor, p.name, p.layer, p.studentId,
                 q.x.Floor, q.y.Floor, q.angle.Floor, (q.scale * 10.0).Floor, q.name, q.layer, q.studentId);
  }

  lemma SumInjective(a: nat, b: nat, c: nat, d: nat, e: nat, f: nat, g: nat,
                     a': nat, b': nat, c': nat, d': nat, e': nat, f': nat, g': nat)
    requires a < 1_000 && b < 1_000 && c < 1_000 && d < 100 && e < 10_000 && f < 100
    requires a' < 1_000 && b' < 1_000 && c' < 1_000 && d' < 100 && e' < 10_000 && f' < 100
    requires Sum(a, b, c, d, e, f, g) == Sum(a', b', c', d', e', f', g')
    ensures a == a' && b == b' && c == c' && d == d' && e == e' && f == f' && g == g'
  {
    Nested(a, b, c, d, e, f, g);
    Nested(a', b', c', d', e', f', g');
    hide Sum, UpperSum;
    LowestDigit(a, a', b + 1_000 * UpperSum(c, d, e, f, g), b' + 1_000 * UpperSum(c', d', e', f', g'), 1_000);
    LowestDigit(b, b', UpperSum(c, d, e, f, g), UpperSum(c', d', e', f', g'), 1_000);
    UpperInjective(c, d, e, f, g, c', d', e', f', g');
  }

  /** The fields from the angle on. */
  function UpperSum(c: nat, d: nat, e: nat, f: nat, g: nat): nat {
    c + 1_000 * (d + 100 * (e + 10_000 * (f + 100 * g)))
  }

  lemma Nested(a: nat, b: nat, c: nat, d: nat, e: nat, f: nat, g: nat)
    ensures Sum(a, b, c, d, e, f, g) == a + 1_000 * (b + 1_000 * UpperSum(c, d, e, f, g))
  {
  }

  lemma UpperInjective(c: nat, d: nat, e: nat, f: nat, g: nat, c': nat, d': nat, e': nat, f': nat, g': nat)
    requires c < 1_000 && d < 100 && e < 10_000 && f < 100 && c' < 1_000 && d' < 100 && e' < 10_000 && f' < 100
    requires UpperSum(c, d, e, f, g) == UpperSum(c', d', e', f', g')
    ensures c == c' && d == d' && e == e' && f == f' && g == g'
  {
    var r3, s3 := f + 100 * g, f' + 100 * g';
    var r2, s2 := e + 10_000 * r3, e' + 10_000 * s3;
    var r1, s1 := d + 100 * r2, d' + 100 * s2;
    LowestDigit(c, c', r1, s1, 1_000);
    LowestDigit(d, d', r2, s2, 100);
    LowestDigit(e, e', r3, s3, 10_000);
    LowestDigit(f, f', g, g', 100);
  }

  lemma LowestDigit(a: nat, b: nat, r: nat, s: nat, base: nat)
    requires a < base && b < base && a + base * r == b + base * s
    ensures a == b && r == s
  {
    DivUnique(a + base * r, base, r, a);
    DivUnique(b + base * s, base, s, b);
  }

  /** A picture within the ranges, whose number a `long long` holds, comes back from its number exactly when it has
      a student; without one the number is too short to be read. */
  lemma DecodeUndoesEncodeIff(p: Picture)
    requires InRange(p) && Packed(p) <= MAX64
    ensures Packed(p) >= 0 && (Decode(Packed(p)) == Some(Rounded(p)) <==> p.studentId >= 1)
    ensures p.studentId == 0 ==> Decode(Packed(p)).None?
  {
    PackedFits(p);
    var v := Packed(p);
    if p.studentId >= 1 {
      EncodeUndoesDecode(v);
      PackedInjective(p, Decode(v).value);
    } else {
      Powers();
      DigitsLength(v, 17);
    }
  }

  /** Every picture with a student from 1 to 91 comes back. */
  lemma RangePreserved(p: Picture)
    requires InRange(p) && 1 <= p.studentId <= 91
    ensures 0 <= Packed(p) <= MAX64 && Decode(Packed(p)) == Some(Rounded(p))
  {
    PackedFits(p);
    DecodeUndoesEncodeIff(p);
  }

  // ----- where the fields stand

  /** The last `w` digits of a number, with zeros in front. */
  function Padded(v: nat, w: nat): (s: string)
    ensures |s| == w
  {
    if w == 0 then "" else Padded(v / 10, w - 1) + [('0' as int + v % 10) as char]
  }

  lemma {:induction false} DigitsJoin(h: nat, r: nat, w: nat)
    requires h > 0 && r < Pow10(w)
    ensures Digits(h * Pow10(w) + r) == Digits(h) + Padded(r, w)
    decreases w
  {
    if w == 0 {
      assert Digits(h) + "" == Digits(h);
    } else {
      var q := h * Pow10(w - 1) + r / 10;
      OneMore(h, r, w);
      DigitsJoin(h, r / 10, w - 1);
      var d := [('0' as int + r % 10) as char];
      hide Pow10;
      assert Digits(10 * q + r % 10) == Digits(q) + d;
      hide Digits;
      assert (Digits(h) + Padded(r / 10, w - 1)) + d == Digits(h) + (Padded(r / 10, w - 1) + d);
    }
  }

  lemma OneMore(h: nat, r: nat, w: nat)
    requires h > 0 && w > 0 && r < Pow10(w)
    ensures var q := h * Pow10(w - 1) + r / 10;
            q > 0 && h * Pow10(w) + r == 10 * q + r % 10 && r / 10 < Pow10(w - 1)
  {
    var p := Pow10(w - 1);
    hide Pow10;
    Positive(h, p);
    assert Pow10(w) == 10 * p by {
      PowStep(w);
    }
    assert h * (10 * p) == 10 * (h * p);
  }

  lemma Positive(h: nat, p: nat)
    requires h > 0 && p > 0
    ensures h * p > 0
  {
  }

  lemma PowStep(w: nat)
    requires w > 0
    ensures Pow10(w) == 10 * Pow10(w - 1)
  {
  }

  lemma JoinBase(h: nat, r: nat, w: nat, base: nat)
    requires h > 0 && r < base == Pow10(w)
    ensures Digits(r + base * h) == Digits(h) + Padded(r, w)
  {
    DigitsJoin(h, r, w);
  }

  /** The number of a placed picture reads, from the left: the student, the layer in two digits, the name in four, ten
      times the scale in two, and the angle, `y` and `x` in three each. */
  lemma PackedDigits(p: Picture)
    requires InRange(p) && p.studentId >= 1
    ensures Packed(p) >= 0
    ensures Digits(Packed(p)) ==
              Digits(p.studentId) + Padded(p.layer, 2) + Padded(p.name, 4) + Padded((p.scale * 10.0).Floor, 2)
              + Padded(p.angle.Floor, 3) + Padded(p.y.Floor, 3) + Padded(p.x.Floor, 3)
  {
    PackedFits(p);
    var a: nat, b: nat, c: nat, d: nat := p.x.Floor, p.y.Floor, p.angle.Floor, (p.scale * 10.0).Floor;
    var e, f, g := p.name, p.layer, p.studentId;
    hide InRange, Packed;
    FieldDigits(a, b, c, d, e, f, g);
  }

  lemma FieldDigits(a: nat, b: nat, c: nat, d: nat, e: nat, f: nat, g: nat)
    requires a < 1_000 && b < 1_000 && c < 1_000 && d < 100 && e < 10_000 && f < 100 && g >= 1
    ensures Digits(Sum(a, b, c, d, e, f, g)) ==
              Digits(g) + Padded(f, 2) + Padded(e, 4) + Padded(d, 2) + Padded(c, 3) + Padded(b, 3) + Padded(a, 3)
  {
    Nested(a, b, c, d, e, f, g);
    SmallPowers();
    var n5 := f + 100 * g;
    var n4 := e + 10_000 * n5;
    var n3 := d + 100 * n4;
    var n2 := c + 1_000 * n3;
    var n1 := b + 1_000 * n2;
    assert n2 == UpperSum(c, d, e, f, g);
    hide Sum, UpperSum, Digits, Padded, Pow10;
    JoinBase(g, f, 2, 100);
    JoinBase(n5, e, 4, 10_000);
    JoinBase(n4, d, 2, 100);
    JoinBase(n3, c, 3, 1_000);
    JoinBase(n2, b, 3, 1_000);
    JoinBase(n1, a, 3, 1_000);
  }

  lemma SmallPowers()
    ensures Pow10(2) == 100 && Pow10(3) == 1_000 && Pow10(4) == 10_000
  {
    assert Pow10(1) == 10;
    assert Pow10(2) == 100;
    assert Pow10(3) == 1_000;
  }

  // ----- the class

  class DataTool {
    const pic: Picture
    var data: int64
    const sdata: string

    constructor FromData(data: int64)
      requires data >= 0
      ensures this.data == data && sdata == Digits(data as int)
    {
      this.data := data;
      sdata := Digits(data as int);
      pic := Picture(0.0, 0.0, 0.0, 0.0, 0, 0, 0);
    }

    constructor FromPicture(pic: Picture)
      ensures this.pic == pic && data == 0
    {
      this.pic, data, sdata := pic, 0, "";
    }

    /** `setData` adds the seven fields to what the number already is. With the student from 0 to 91 no product
        leaves `int` or `long long`, and a number that starts at 0 stays within `long long`. */
    method SetData()
      requires InRange(pic) && 0 <= data && data as int + Packed(pic) <= MAX64
      modifies this
      ensures data as int == old(data) as int + Packed(pic)
    {
      PackedFits(pic);
      hide InRange, Packed;
      var x, y: int32 := pic.x.Floor as int32, pic.y.Floor as int32;
      var angle: int32, scale: int64 := pic.angle.Floor as int32, (pic.scale * 10.0).Floor as int64;
      data := data + x as int64;
      data := data + (y * 1_000) as int64;
      data := data + (angle * 1_000_000) as int64;
      data := data + scale * 1_000_000_000;
      data := data + pic.name as int64 * 100_000_000_000;
      data := data + pic.layer as int64 * 1_000_000_000_000_000;
      data := data + pic.studentId as int64 * 100_000_000_000_000_000;
    }

    /** `getData`: every call adds the picture once more. */
    method GetData() returns (d: int64)
      requires InRange(pic) && 0 <= data && data as int + Packed(pic) <= MAX64
      modifies this
      ensures d == data && d as int == old(data) as int + Packed(pic)
    {
      SetData();
      d := data;
    }

    /** One getter: `n` digits from the `from`-th from the end on. */
    method Get(from: nat, n: nat) returns (v: Option<nat>)
      requires n <= from && forall i :: 0 <= i < |sdata| ==> IsDigit(sdata[i])
      ensures v == Part(sdata, from, n)
    {
      var length := |sdata|;
      if length < from {
        return None;
      }
      ghost var part := sdata[length - from..length - from + n];
      var value: nat, i := 0, 0;
      while i < n
        invariant 0 <= i <= n && value == Value(part[..i])
      {
        assert part[..i + 1][..i] == part[..i] && part[i] == sdata[length - from + i];
        value := value * 10 + (sdata[length - from + i] as int - '0' as int);
        i := i + 1;
      }
      assert part[..n] == part;
      v := Some(value);
    }

    /** `getPicture`. */
    method GetPicture() returns (p: Option<Picture>)
      requires 0 <= data && sdata == Digits(data as int)
      ensures p == Decode(data as int)
    {
      hide Part;
      var angle := Get(9, 3);
      var layer := Get(17, 2);
      var name := Get(15, 4);
      var scale := Get(11, 2);
      var x := Get(3, 3);
      var y := Get(6, 3);
      var id;
      if |sdata| != 18 {
        id := Get(19, 2);
      } else {
        id := Get(18, 1);
      }
      if angle.None? || layer.None? || name.None? || scale.None? || x.None? || y.None? || id.None? {
        return None;
      }
      p := Some(Picture(x.value as real, y.value as real, angle.value as real, scale.value as real / 10.0,
                        name.value, layer.value, id.value));
    }
  }
}
