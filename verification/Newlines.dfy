/** Newline normalisation inside `LoadFile`: a read head and a write head over one buffer. */
module Newlines {

  import opened XmlChars

  const CR: char := '\r'
  const LF: char := '\n'

  /** What the loop writes for the text left to read. */
  function Normalised(s: string): (t: string)
    ensures |t| <= |s|
    decreases |s|
  {
    if s == "" || s[0] == NUL then ""
    else if s[0] == CR then [LF] + Normalised(if |s| > 1 && s[1] == LF then s[2..] else s[1..])
    else [s[0]] + Normalised(s[1..])
  }

  /** The loop: the write head stays at or behind the read head, and what it has passed is the normalised text. */
  method Normalise(buf: array<char>) returns (q: nat)
    requires buf.Length > 0 && buf[buf.Length - 1] == NUL
    modifies buf
    ensures q < buf.Length && buf[q] == NUL
    ensures buf[..q] == Normalised(old(buf[..]))
  {
    hide Normalised;
    ghost var was := buf[..];
    var p := 0;
    q := 0;
    assert was[0..] == was && "" + Normalised(was) == Normalised(was);
    while buf[p] != NUL
      invariant 0 <= q <= p < buf.Length && buf[buf.Length - 1] == NUL
      invariant forall i :: p <= i < buf.Length ==> buf[i] == was[i]
      invariant buf[..q] + Normalised(was[p..]) == Normalised(was)
      decreases buf.Length - p
    {
      Step(buf[..q], was[p..]);
      ghost var done, at := buf[..q], p;
      if buf[p] == CR {
        buf[q] := LF;
        p := p + 1;
        if buf[p] == LF {
          p := p + 1;
        }
      } else {
        buf[q] := buf[p];
        p := p + 1;
      }
      assert was[p..] == was[at..][p - at..];
      assert buf[..q + 1] == done + [buf[q]];
      q := q + 1;
    }
    Step(buf[..q], was[p..]);
    buf[q] := NUL;
  }

  /** One round of the loop, with `done` written so far. */
  lemma Step(done: string, r: string)
    requires r != ""
    ensures done + Normalised(r) ==
              if r[0] == NUL then done
              else if r[0] == CR then (done + [LF]) + Normalised(if |r| > 1 && r[1] == LF then r[2..] else r[1..])
              else (done + [r[0]]) + Normalised(r[1..])
  {
    var x := if r[0] == CR && |r| > 1 && r[1] == LF then r[2..] else r[1..];
    assert done + ([LF] + Normalised(x)) == (done + [LF]) + Normalised(x);
    assert done + ([r[0]] + Normalised(x)) == (done + [r[0]]) + Normalised(x);
  }

  // ----- what it means: section 2.11 of XML 1.0

  /** Every CR that an LF follows is dropped. */
  function DropPairs(s: string): string {
    if s == "" then ""
    else if |s| > 1 && s[0] == CR && s[1] == LF then DropPairs(s[1..])
    else [s[0]] + DropPairs(s[1..])
  }

  /** Every other CR becomes an LF. */
  function LoneToLf(s: string): (t: string)
    ensures |t| == |s| && forall i :: 0 <= i < |s| ==> t[i] == if s[i] == CR then LF else s[i]
  {
    if s == "" then "" else [if s[0] == CR then LF else s[0]] + LoneToLf(s[1..])
  }

  /** The loop gives the text with CR LF, and then every lone CR, turned into LF. */
  lemma {:induction false} NormalisedMeans(s: string)
    ensures Normalised(s) == LoneToLf(DropPairs(CString(s)))
    decreases |s|
  {
    if s != "" && s[0] != NUL {
      var c := CString(s);
      assert c[1..] == CString(s[1..]);
      NormalisedMeans(s[1..]);
      if s[0] == CR && |s| > 1 && s[1] == LF {
        NormalisedMeans(s[2..]);
        assert c[1] == LF && DropPairs(c) == DropPairs(c[1..]);
        assert Normalised(s) == Normalised(s[1..]);
      } else {
        assert |c| > 1 ==> c[1] == s[1];
        assert DropPairs(c) == [s[0]] + DropPairs(c[1..]);
        LoneToLfCons(s[0], DropPairs(c[1..]));
      }
    }
  }

  lemma LoneToLfCons(c: char, s: string)
    ensures LoneToLf([c] + s) == [if c == CR then LF else c] + LoneToLf(s)
  {
    assert ([c] + s)[1..] == s;
  }

  /** No CR and no terminator is left. */
  lemma {:induction false} NoneLeft(s: string)
    ensures CR !in Normalised(s) && NUL !in Normalised(s)
    decreases |s|
  {
    if s != "" && s[0] != NUL {
      NoneLeft(s[1..]);
      if |s| > 1 {
        NoneLeft(s[2..]);
      }
    }
  }

  /** A text is left as it is exactly when it has neither CR nor terminator. */
  lemma {:induction false} UnchangedIff(s: string)
    ensures Normalised(s) == s <==> CR !in s && NUL !in s
    decreases |s|
  {
    NoneLeft(s);
    if s != "" && s[0] != NUL && s[0] != CR {
      UnchangedIff(s[1..]);
      assert s == [s[0]] + s[1..];
    }
  }

  /** Normalising again changes nothing. */
  lemma {:induction false} Idempotent(s: string)
    ensures Normalised(Normalised(s)) == Normalised(s)
  {
    NoneLeft(s);
    UnchangedIff(Normalised(s));
  }
}
