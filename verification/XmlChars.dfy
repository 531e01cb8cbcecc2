/** Characters and text pointers of the XML engine.

    A C string is modelled by the characters before its terminator, and a
    `const char*` into it by the text that is left to read: `Some("")` points
    at the terminator and `None` is the null pointer. One character is one byte
    (the legacy encoding), and the character classes are those of the C locale.
  */
module XmlChars {

  datatype Option<+T> = None | Some(value: T)

  /** A nullable pointer into the input, seen as the text after it. */
  type Ptr = Option<string>

  /** The source's test `p && *p`. */
  predicate Readable(p: Ptr) {
    p.Some? && p.value != ""
  }

  const NUL: char := '\0'

  /** The text in front of the first terminator, all that a `const char*` says. */
  function CString(s: string): (t: string)
    ensures t <= s && NUL !in t && (|t| < |s| ==> s[|t|] == NUL)
    ensures NUL !in s ==> t == s
  {
    if s == "" || s[0] == NUL then "" else [s[0]] + CString(s[1..])
  }

  predicate IsWhite(c: char) {
    c == ' ' || '\t' <= c <= '\r'
  }

  predicate AllWhite(s: string) {
    forall i :: 0 <= i < |s| ==> IsWhite(s[i])
  }

  predicate IsLetter(c: char) {
    'a' <= c <= 'z' || 'A' <= c <= 'Z'
  }

  predicate IsDigit(c: char) {
    '0' <= c <= '9'
  }

  /** Bytes from 127 up all count as letters. */
  predicate IsAlpha(c: char) {
    IsLetter(c) || c as int >= 127
  }

  predicate IsAlphaNum(c: char) {
    IsAlpha(c) || IsDigit(c)
  }

  predicate IsNameStart(c: char) {
    IsAlpha(c) || c == '_'
  }

  predicate IsNameChar(c: char) {
    IsAlphaNum(c) || c == '_' || c == '-' || c == '.' || c == ':'
  }

  predicate IsName(s: string) {
    s != "" && IsNameStart(s[0]) && forall i :: 0 <= i < |s| ==> IsNameChar(s[i])
  }

  const WHITE := " \t\n\U{0B}\U{0C}\r"
  const UPPER := "ABCDEFGHIJKLMNOPQRSTUVWXYZ"
  const LOWER := "abcdefghijklmnopqrstuvwxyz"
  const DIGITS := "0123456789"

  /** The classes of the C locale, character by character below 127. */
  lemma Classes(c: char)
    ensures IsWhite(c) <==> c in WHITE
    ensures c as int < 127 ==> (IsNameStart(c) <==> c in UPPER + LOWER + "_")
    ensures c as int < 127 ==> (IsNameChar(c) <==> c in UPPER + LOWER + DIGITS + "_-.:")
    ensures c as int >= 127 ==> IsNameStart(c) && IsNameChar(c)
  {
    Listed(c, 'A', UPPER);
    Listed(c, 'a', LOWER);
    Listed(c, '0', DIGITS);
    assert WHITE == [' ', '\t', '\n', '\U{0B}', '\U{0C}', '\r'];
  }

  /** Characters in a row. */
  lemma Listed(c: char, first: char, s: string)
    requires forall i :: 0 <= i < |s| ==> s[i] as int == first as int + i
    ensures c in s <==> first as int <= c as int < first as int + |s|
  {
    if first as int <= c as int < first as int + |s| {
      assert s[c as int - first as int] == c;
    }
  }

  function ToLower(c: char): char {
    if 'A' <= c <= 'Z' then (c as int + 32) as char else c
  }

  /** `StringEqual` with `ignoreCase`, for a tag already in lower case. */
  predicate StartsWithNoCase(r: string, tag: string) {
    |tag| <= |r| && forall i :: 0 <= i < |tag| ==> ToLower(r[i]) == ToLower(tag[i])
  }

  /** What is left of `r` after its leading white space. */
  function SkipWhite(r: string): (rest: string)
    ensures |rest| <= |r|
    ensures rest != "" ==> !IsWhite(rest[0])
  {
    if r != "" && IsWhite(r[0]) then SkipWhite(r[1..]) else r
  }

  function SkipWhiteSpace(p: Ptr): (q: Ptr)
    ensures q.Some? ==> p.Some? && |q.value| <= |p.value|
  {
    if Readable(p) then Some(SkipWhite(p.value)) else None
  }

  /** White space in front of readable text is passed over, and nothing else is. */
  lemma {:induction false} SkipWhiteOver(w: string, r: string)
    requires AllWhite(w)
    requires r != "" ==> !IsWhite(r[0])
    ensures SkipWhite(w + r) == r
  {
    if w == "" {
      assert w + r == r;
    } else {
      assert (w + r)[1..] == w[1..] + r;
      SkipWhiteOver(w[1..], r);
    }
  }

  /** `SkipWhite` drops exactly the longest white prefix. */
  lemma {:induction false} SkipWhiteSplits(r: string)
    ensures SkipWhite(r) == r[|r| - |SkipWhite(r)|..]
    ensures AllWhite(r[..|r| - |SkipWhite(r)|])
  {
    if r != "" && IsWhite(r[0]) {
      SkipWhiteSplits(r[1..]);
      var k := |r| - |SkipWhite(r)|;
      assert r[..k] == [r[0]] + r[1..][..k - 1];
    }
  }

  /** The longest prefix of name characters. */
  function NameSpan(r: string): (k: nat)
    ensures k <= |r|
    ensures forall i :: 0 <= i < k ==> IsNameChar(r[i])
    ensures k < |r| ==> !IsNameChar(r[k])
  {
    if r != "" && IsNameChar(r[0]) then 1 + NameSpan(r[1..]) else 0
  }

  datatype NameRead = NameRead(name: string, rest: Ptr)

  function ReadName(r: string): (n: NameRead)
    ensures n.rest.Some? ==> |n.rest.value| < |r| && n.name + n.rest.value == r && IsName(n.name)
    ensures n.rest.None? <==> r == "" || !IsNameStart(r[0])
  {
    if r != "" && IsNameStart(r[0]) then
      var k := NameSpan(r);
      assert r[..k] + r[k..] == r;
      NameRead(r[..k], Some(r[k..]))
    else
      NameRead("", None)
  }

  /** A name followed by anything that cannot continue it is read back whole. */
  lemma {:induction false} ReadNameOf(name: string, r: string)
    requires IsName(name)
    requires r != "" ==> !IsNameChar(r[0])
    ensures ReadName(name + r) == NameRead(name, Some(r))
  {
    var k := NameSpan(name + r);
    assert forall i :: 0 <= i < |name| ==> (name + r)[i] == name[i];
    assert r != "" ==> (name + r)[|name|] == r[0];
    assert (name + r)[..k] == name;
    assert (name + r)[k..] == r;
  }

  lemma ConcatAssoc(a: string, b: string, c: string)
    ensures a + b + c == a + (b + c)
  {
  }

  // ----- the loops of the source

  /** `SkipWhiteSpace` over `s` from index `p`. */
  method SkipWhiteFrom(s: string, p: nat) returns (q: nat)
    requires p <= |s|
    ensures p <= q <= |s|
    ensures s[q..] == SkipWhite(s[p..])
  {
    q := p;
    while q < |s| && IsWhite(s[q])
      invariant p <= q <= |s|
      invariant SkipWhite(s[q..]) == SkipWhite(s[p..])
    {
      q := q + 1;
    }
  }

  /** The scan of `ReadName` from the first character of a name. */
  method ScanName(s: string, p: nat) returns (q: nat)
    requires p < |s| && IsNameStart(s[p])
    ensures p < q <= |s|
    ensures ReadName(s[p..]) == NameRead(s[p..q], Some(s[q..]))
  {
    q := p;
    while q < |s| && IsNameChar(s[q])
      invariant p <= q <= |s|
      invariant forall i :: p <= i < q ==> IsNameChar(s[i])
    {
      q := q + 1;
    }
    assert forall i :: p <= i < q ==> s[p..][i - p] == s[i];
    assert q < |s| ==> s[p..][q - p] == s[q];
  }
}
