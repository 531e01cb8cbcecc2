/** `TiXmlParsingData::Stamp`: the row and the column of the place a parse has come to,
    for text in the legacy encoding. */
module Stamp {

  /** The place read up to, its row and its column. */
  datatype Cursor = Cursor(at: nat, row: nat, col: nat)

  predicate IsBreak(c: char) {
    c == '\r' || c == '\n'
  }

  /** The two characters at `i` and after it are a CR LF or LF CR pair. */
  predicate IsPair(s: string, i: nat) {
    i + 1 < |s| && IsBreak(s[i]) && IsBreak(s[i + 1]) && s[i] != s[i + 1]
  }

  function NextTab(col: nat, tab: nat): nat
    requires tab > 0
  {
    (col / tab + 1) * tab
  }

  /** One round of the loop. */
  function Step(s: string, c: Cursor, tab: nat): (d: Cursor)
    requires tab > 0 && c.at < |s|
    ensures c.at < d.at <= |s|
  {
    if IsBreak(s[c.at]) then Cursor(if IsPair(s, c.at) then c.at + 2 else c.at + 1, c.row + 1, 0)
    else Cursor(c.at + 1, c.row, if s[c.at] == '\t' then NextTab(c.col, tab) else c.col + 1)
  }

  /** The loop, up to `now`. */
  function Walk(s: string, c: Cursor, now: nat, tab: nat): (d: Cursor)
    requires tab > 0 && now <= |s| && c.at <= |s|
    ensures c.at <= d.at <= |s| && now <= d.at
    decreases |s| - c.at
  {
    if c.at >= now then c else Walk(s, Step(s, c, tab), now, tab)
  }

  class TiXmlParsingData {
    var row: nat
    var col: nat
    var stamp: nat
    const tabsize: int

    constructor (tabsize: int, row: nat, col: nat)
      ensures this.tabsize == tabsize && this.row == row && this.col == col && stamp == 0
    {
      this.tabsize, this.row, this.col, stamp := tabsize, row, col, 0;
    }

    function Place(): Cursor
      reads this
    {
      Cursor(stamp, row, col)
    }

    /** Nothing happens without a tab size, and nothing is saved when `now` lies past the terminator. */
    method Stamp(s: string, now: nat)
      requires stamp <= |s|
      modifies this
      ensures Place() == if tabsize < 1 || now > |s| then old(Place()) else Walk(s, old(Place()), now, tabsize)
    {
      if tabsize < 1 {
        return;
      }
      var r: nat, c: nat, p: nat := row, col, stamp;
      while p < now
        invariant p <= |s|
        invariant now <= |s| ==> Walk(s, Cursor(p, r, c), now, tabsize) == Walk(s, old(Place()), now, tabsize)
        decreases |s| - p
      {
        if p == |s| {
          return;
        }
        if s[p] == '\r' {
          r, c := r + 1, 0;
          p := p + 1;
          if p < |s| && s[p] == '\n' {
            p := p + 1;
          }
        } else if s[p] == '\n' {
          r, c := r + 1, 0;
          p := p + 1;
          if p < |s| && s[p] == '\r' {
            p := p + 1;
          }
        } else if s[p] == '\t' {
          p := p + 1;
          c := NextTab(c, tabsize);
        } else {
          p := p + 1;
          c := c + 1;
        }
      }
      row, col, stamp := r, c, p;
    }
  }

  /** Stamping to one place and then to a later one is stamping straight to the later one, also when the first
      lies inside a pair. */
  lemma {:induction false} WalkComposes(s: string, c: Cursor, a: nat, b: nat, tab: nat)
    requires tab > 0 && a <= b <= |s| && c.at <= |s|
    ensures Walk(s, Walk(s, c, a, tab), b, tab) == Walk(s, c, b, tab)
    decreases |s| - c.at
  {
    if c.at < a {
      WalkComposes(s, Step(s, c, tab), a, b, tab);
    }
  }

  // ----- what it means

  function TabStop(q: nat, tab: nat): nat {
    q * tab
  }

  /** A tab goes to the first of the tab stops behind the column. */
  lemma NextTabIs(col: nat, tab: nat)
    requires tab > 0
    ensures col < NextTab(col, tab) <= col + tab && exists q: nat :: NextTab(col, tab) == TabStop(q, tab)
    ensures forall q: nat :: TabStop(q, tab) > col ==> NextTab(col, tab) <= TabStop(q, tab)
  {
    var q, r := col / tab, col % tab;
    Euclid(col, tab);
    assert NextTab(col, tab) == TabStop(q + 1, tab);
    forall p: nat | TabStop(p, tab) > col ensures NextTab(col, tab) <= TabStop(p, tab) {
      Above(q, r, p, tab);
    }
  }

  lemma Euclid(n: nat, d: nat)
    requires d > 0
    ensures n == n / d * d + n % d && n % d < d
  {
  }

  /** A multiple above `q * d + r` is one of a larger factor. */
  lemma Above(q: nat, r: nat, p: nat, d: nat)
    requires r < d && p * d > q * d + r
    ensures (q + 1) * d <= p * d
  {
    if p <= q {
      Monotone(p, q, d);
    } else {
      Monotone(q + 1, p, d);
    }
  }

  lemma Monotone(a: nat, b: nat, d: nat)
    requires a <= b
    ensures a * d <= b * d
  {
  }

  /** A pair is CR LF or LF CR, and a break is one of the two. */
  lemma PairIff(s: string, i: nat)
    ensures i < |s| ==> (IsBreak(s[i]) <==> s[i] in "\r\n")
    ensures IsPair(s, i) <==> i + 1 < |s| && s[i..i + 2] in ["\r\n", "\n\r"]
  {
    assert "\r\n" == ['\r', '\n'] && "\n\r" == ['\n', '\r'];
    assert i + 1 < |s| ==> s[i..i + 2] == [s[i], s[i + 1]];
  }

  /** The character at `i` begins a line break: it is not the second half of a pair that has begun just before. */
  predicate BeginsBreak(s: string, i: nat)
    requires i < |s|
  {
    IsBreak(s[i]) && !(i > 0 && IsPair(s, i - 1) && BeginsBreak(s, i - 1))
  }

  /** The line breaks that begin in front of `n`. */
  function Breaks(s: string, n: nat): nat
    requires n <= |s|
  {
    if n == 0 then 0 else Breaks(s, n - 1) + if BeginsBreak(s, n - 1) then 1 else 0
  }

  /** The column at `n`, tabs expanded, on a first line that starts at `col`. */
  function Column(s: string, n: nat, col: nat, tab: nat): nat
    requires tab > 0 && n <= |s|
  {
    if n == 0 then col
    else if IsBreak(s[n - 1]) then 0
    else if s[n - 1] == '\t' then NextTab(Column(s, n - 1, col, tab), tab)
    else Column(s, n - 1, col, tab) + 1
  }

  /** `n` splits a pair. */
  predicate Splits(s: string, n: nat)
    requires n <= |s|
  {
    n > 0 && IsPair(s, n - 1) && BeginsBreak(s, n - 1)
  }

  /** A cursor that tells the place it is at. */
  predicate Right(s: string, c: Cursor, row: nat, col: nat, tab: nat)
    requires tab > 0
  {
    c.at <= |s| && !Splits(s, c.at) && c.row == row + Breaks(s, c.at) && c.col == Column(s, c.at, col, tab)
  }

  lemma StepRight(s: string, c: Cursor, row: nat, col: nat, tab: nat)
    requires tab > 0 && Right(s, c, row, col, tab) && c.at < |s|
    ensures Right(s, Step(s, c, tab), row, col, tab)
    ensures IsPair(s, c.at) ==> Splits(s, c.at + 1)
  {
    hide NextTab;
    if IsPair(s, c.at) {
      assert BeginsBreak(s, c.at) && !BeginsBreak(s, c.at + 1);
      assert Breaks(s, c.at + 1) == Breaks(s, c.at) + 1;
      assert Breaks(s, c.at + 2) == Breaks(s, c.at + 1);
    }
  }

  /** From the start of the text, the cursor goes to `now`, or one further when `now` splits a pair, and holds the
      number of line breaks and the tab-expanded column there. */
  lemma {:induction false} WalkRight(s: string, c: Cursor, now: nat, row: nat, col: nat, tab: nat)
    requires tab > 0 && now <= |s| && Right(s, c, row, col, tab) && c.at <= now
    ensures var d := Walk(s, c, now, tab);
            Right(s, d, row, col, tab) && d.at == if Splits(s, now) then now + 1 else now
    decreases |s| - c.at
  {
    if c.at < now {
      var d := Step(s, c, tab);
      StepRight(s, c, row, col, tab);
      if d.at <= now {
        WalkRight(s, d, now, row, col, tab);
      } else {
        assert IsPair(s, c.at) && d.at == now + 1 == c.at + 2;
        assert Walk(s, d, now, tab) == d;
      }
    }
  }

  lemma StampMeans(s: string, now: nat, row: nat, col: nat, tab: nat)
    requires tab > 0 && now <= |s|
    ensures var at := if Splits(s, now) then now + 1 else now;
            at <= |s| && Walk(s, Cursor(0, row, col), now, tab) == Cursor(at, row + Breaks(s, at), Column(s, at, col, tab))
  {
    WalkRight(s, Cursor(0, row, col), now, row, col, tab);
  }
}
