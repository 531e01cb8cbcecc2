/** The protocol generator's file rewriting: text is put in once, beside a line that
    holds a flag, and not again when it is there already.

    A file is its text. Lines are shorter than the 1023 characters of the read buffer. */
module Generator {
  import opened XmlChars

  // ----- lines

  /** What reading line by line up to the end of the file gives: the last line may be empty. */
  function Lines(t: string): (ls: seq<string>)
    ensures |ls| >= 1 && Plain(ls)
    ensures '\n' !in t ==> ls == [t]
  {
    if t == "" then [""]
    else
      var ls := Lines(t[1..]);
      assert t == [t[0]] + t[1..];
      if t[0] == '\n' then [""] + ls else [[t[0]] + ls[0]] + ls[1..]
  }

  /** Items of one line each. */
  predicate Plain(items: seq<string>) {
    forall i :: 0 <= i < |items| ==> '\n' !in items[i]
  }

  /** What writing each item and an end of line gives; an item can hold several lines itself. */
  function Unlines(items: seq<string>): string {
    if items == [] then "" else items[0] + "\n" + Unlines(items[1..])
  }

  function AllLines(items: seq<string>): seq<string> {
    if items == [] then [] else Lines(items[0]) + AllLines(items[1..])
  }

  lemma LinesCons(c: char, t: string)
    ensures Lines([c] + t) == if c == '\n' then [""] + Lines(t) else [[c] + Lines(t)[0]] + Lines(t)[1..]
  {
    assert ([c] + t)[1..] == t;
  }

  lemma {:induction false} LinesJoin(a: string, b: string)
    ensures Lines(a + "\n" + b) == Lines(a) + Lines(b)
  {
    hide *;
    if a == "" {
      NoLines();
      LinesCons('\n', b);
      assert a + "\n" + b == ['\n'] + b;
    } else {
      var c, s := a[0], a[1..];
      LinesJoin(s, b);
      LinesCons(c, s);
      LinesCons(c, s + "\n" + b);
      assert [c] + s == a && a + "\n" + b == [c] + (s + "\n" + b);
      HeadJoin(c, Lines(s), Lines(b));
    }
  }

  lemma NoLines()
    ensures Lines("") == [""]
  {
  }

  lemma HeadJoin(c: char, x: seq<string>, y: seq<string>)
    requires x != []
    ensures [""] + (x + y) == ([""] + x) + y
    ensures [[c] + (x + y)[0]] + (x + y)[1..] == ([[c] + x[0]] + x[1..]) + y
  {
    assert (x + y)[1..] == x[1..] + y;
  }

  /** Reading back what has been written: the lines of the items, and an empty one. */
  lemma {:induction false} LinesOfUnlines(items: seq<string>)
    ensures Lines(Unlines(items)) == AllLines(items) + [""]
  {
    if items != [] {
      LinesJoin(items[0], Unlines(items[1..]));
      LinesOfUnlines(items[1..]);
    }
  }

  lemma {:induction false} AllLinesJoin(a: seq<string>, b: seq<string>)
    ensures AllLines(a + b) == AllLines(a) + AllLines(b)
  {
    if a == [] {
      assert a + b == b;
    } else {
      assert (a + b)[1..] == a[1..] + b;
      AllLinesJoin(a[1..], b);
    }
  }

  lemma {:induction false} PlainLines(items: seq<string>)
    requires Plain(items)
    ensures AllLines(items) == items
  {
    if items != [] {
      PlainLines(items[1..]);
    }
  }

  /** `line.find(s) != npos`. */
  predicate Has(line: string, s: string) {
    s <= line || (line != "" && Has(line[1..], s))
  }

  /** The first line that holds `s`, `|ls|` when none does. */
  function FirstWith(ls: seq<string>, s: string): (k: nat)
    ensures k <= |ls|
    ensures forall i :: 0 <= i < k ==> !Has(ls[i], s)
    ensures k < |ls| ==> Has(ls[k], s)
  {
    if ls == [] || Has(ls[0], s) then 0 else 1 + FirstWith(ls[1..], s)
  }

  /** `checkcontent`: some line holds `s`. */
  predicate Present(t: string, s: string) {
    FirstWith(Lines(t), s) < |Lines(t)|
  }

  lemma SomeLine(ls: seq<string>, i: nat, s: string)
    requires i < |ls| && Has(ls[i], s)
    ensures FirstWith(ls, s) < |ls|
  {
  }

  // ----- what a search finds

  predicate StandsAt(t: string, s: string, i: nat) {
    i + |s| <= |t| && t[i..i + |s|] == s
  }

  /** `s` stands somewhere in `t`. */
  predicate Occurs(t: string, s: string) {
    exists i :: 0 <= i <= |t| && StandsAt(t, s, i)
  }

  lemma {:induction false} HasIff(line: string, s: string)
    ensures Has(line, s) <==> Occurs(line, s)
  {
    StandsFirst(line, s);
    if line == "" {
      assert Occurs(line, s) <==> StandsAt(line, s, 0);
    } else {
      HasIff(line[1..], s);
      OccursNext(line, s);
      hide Occurs, StandsAt;
    }
  }

  lemma StandsFirst(t: string, s: string)
    ensures StandsAt(t, s, 0) <==> s <= t
  {
  }

  lemma OccursNext(t: string, s: string)
    requires t != ""
    ensures Occurs(t, s) <==> s <= t || Occurs(t[1..], s)
  {
    StandsFirst(t, s);
    if i :| 0 <= i <= |t| && StandsAt(t, s, i) {
      if i > 0 {
        StandsNext(t, s, i - 1);
        assert StandsAt(t[1..], s, i - 1);
      }
    }
    if i :| 0 <= i <= |t[1..]| && StandsAt(t[1..], s, i) {
      StandsNext(t, s, i);
      assert StandsAt(t, s, i + 1);
    }
  }

  lemma StandsNext(t: string, s: string, i: nat)
    requires i < |t|
    ensures StandsAt(t, s, i + 1) <==> StandsAt(t[1..], s, i)
  {
    assert i + 1 + |s| <= |t| ==> t[i + 1..i + 1 + |s|] == t[1..][i..i + |s|];
  }

  /** What a front of the text without a line break has in common with its first line. */
  lemma {:induction false} FrontOfLine(t: string, s: string)
    requires '\n' !in s
    ensures s <= t <==> s <= Lines(t)[0]
  {
    if s != "" && t != "" && t[0] == s[0] {
      FrontOfLine(t[1..], s[1..]);
      var ls := Lines(t[1..]);
      assert t == [t[0]] + t[1..] && s == [s[0]] + s[1..];
      assert Lines(t)[0] == [t[0]] + ls[0];
      hide Lines;
      FrontStep(t[0], t[1..], s[1..]);
      FrontStep(t[0], ls[0], s[1..]);
    }
  }

  lemma FrontStep(c: char, t: string, s: string)
    ensures [c] + s <= [c] + t <==> s <= t
  {
    assert ([c] + t)[1..] == t && ([c] + s)[1..] == s;
    if [c] + s <= [c] + t {
      assert forall i :: 0 <= i < |s| ==> s[i] == ([c] + s)[i + 1] && t[i] == ([c] + t)[i + 1];
    }
  }

  lemma PresentCons(t: string, s: string)
    requires t != ""
    ensures Present(t, s) <==> s <= Lines(t)[0] || Present(t[1..], s)
  {
    var ls := Lines(t[1..]);
    if t[0] == '\n' {
      assert Lines(t) == [""] + ls;
      assert (if Has("", s) then FirstWith([""] + ls, s) == 0 else FirstWith([""] + ls, s) == 1 + FirstWith(ls, s)) by {
        assert ([""] + ls)[1..] == ls;
      }
      EmptyEverywhere(ls, s);
    } else {
      var l := [t[0]] + ls[0];
      assert Lines(t) == [l] + ls[1..];
      assert ([l] + ls[1..])[1..] == ls[1..] && l[1..] == ls[0];
      hide Lines;
    }
  }

  lemma EmptyEverywhere(ls: seq<string>, s: string)
    requires ls != []
    ensures Has("", s) ==> s == "" && FirstWith(ls, s) == 0
  {
  }

  /** A text without a line break is present exactly when it stands somewhere in the file. */
  lemma {:induction false} PresentIff(t: string, s: string)
    requires '\n' !in s
    ensures Present(t, s) <==> Occurs(t, s)
  {
    PresentHas(t, s);
    HasIff(t, s);
  }

  lemma {:induction false} PresentHas(t: string, s: string)
    requires '\n' !in s
    ensures Present(t, s) <==> Has(t, s)
  {
    if t == "" {
      assert Lines(t) == [""];
    } else {
      PresentHas(t[1..], s);
      PresentCons(t, s);
      FrontOfLine(t, s);
      hide Present, Lines;
    }
  }

  /** No line holds a line break. */
  lemma NeverPresent(t: string, s: string)
    requires '\n' in s
    ensures !Present(t, s)
  {
    var ls := Lines(t);
    hide Lines;
    forall i | 0 <= i < |ls| ensures !Has(ls[i], s) {
      NotInPlain(ls[i], s);
    }
  }

  lemma {:induction false} NotInPlain(line: string, s: string)
    requires '\n' in s && '\n' !in line
    ensures !Has(line, s)
  {
    if s <= line {
      FrontIn(line, s, '\n');
    } else if line != "" {
      NotInPlain(line[1..], s);
    }
  }

  lemma FrontIn(line: string, s: string, c: char)
    requires s <= line && c in s
    ensures c in line
  {
    var k :| 0 <= k < |s| && s[k] == c;
    assert line[k] == c;
  }

  // ----- one rewriting

  /** A call of `replace`; with `again` it inserts at every flag line, with `after` behind it. */
  datatype Call = Call(file: string, flag: string, content: string, check: string, again: bool, after: bool)

  /** The items the loop writes; `on` tells whether it still inserts. */
  function Items(ls: seq<string>, c: Call, on: bool): seq<string> {
    if ls == [] then []
    else
      var hit := on && Has(ls[0], c.flag);
      var here := if !hit then [ls[0]] else if c.after then [ls[0], c.content] else [c.content, ls[0]];
      here + Items(ls[1..], c, on && (c.again || !hit))
  }

  function Rewritten(t: string, c: Call): string {
    if Present(t, c.check) then t else Unlines(Items(Lines(t), c, true))
  }

  lemma {:induction false} ItemsOff(ls: seq<string>, c: Call)
    ensures Items(ls, c, false) == ls
  {
    if ls != [] {
      ItemsOff(ls[1..], c);
    }
  }

  /** Where the content goes: in front of the first flag line or behind it. */
  function Place(ls: seq<string>, c: Call): (m: nat)
    ensures FirstWith(ls, c.flag) < |ls| ==> m <= |ls|
  {
    FirstWith(ls, c.flag) + if c.after then 1 else 0
  }

  function Spliced(ls: seq<string>, m: nat, mid: seq<string>): seq<string>
    requires m <= |ls|
  {
    ls[..m] + mid + ls[m..]
  }

  lemma SplicedCons(x: string, ls: seq<string>, m: nat, mid: seq<string>)
    requires m <= |ls|
    ensures [x] + Spliced(ls, m, mid) == Spliced([x] + ls, m + 1, mid)
  {
    assert ([x] + ls)[..m + 1] == [x] + ls[..m] && ([x] + ls)[m + 1..] == ls[m..];
  }

  /** Without `again` the content goes in once, at the first flag line. */
  lemma {:induction false} ItemsOnce(ls: seq<string>, c: Call)
    requires !c.again
    ensures Items(ls, c, true) ==
              if FirstWith(ls, c.flag) == |ls| then ls else Spliced(ls, Place(ls, c), [c.content])
  {
    if ls != [] {
      var rest := ls[1..];
      assert ls == [ls[0]] + rest;
      if Has(ls[0], c.flag) {
        ItemsHit(ls, c);
      } else {
        ItemsMiss(ls, c);
        ItemsOnce(rest, c);
        hide Items, Has, FirstWith, Spliced;
        if FirstWith(rest, c.flag) < |rest| {
          SplicedCons(ls[0], rest, Place(rest, c), [c.content]);
        }
      }
    }
  }

  lemma ItemsHit(ls: seq<string>, c: Call)
    requires ls != [] && Has(ls[0], c.flag) && !c.again
    ensures FirstWith(ls, c.flag) == 0 && Items(ls, c, true) == Spliced(ls, Place(ls, c), [c.content])
  {
    ItemsOff(ls[1..], c);
    var here := if c.after then [ls[0], c.content] else [c.content, ls[0]];
    assert Items(ls, c, true) == here + ls[1..];
    assert FirstWith(ls, c.flag) == 0 && Place(ls, c) == if c.after then 1 else 0;
    hide *;
    SplicedFront(ls, c.content);
  }

  lemma SplicedFront(ls: seq<string>, x: string)
    requires ls != []
    ensures Spliced(ls, 0, [x]) == [x, ls[0]] + ls[1..] && Spliced(ls, 1, [x]) == [ls[0], x] + ls[1..]
  {
    assert ls == [ls[0]] + ls[1..];
  }

  lemma ItemsMiss(ls: seq<string>, c: Call)
    requires ls != [] && !Has(ls[0], c.flag)
    ensures FirstWith(ls, c.flag) == 1 + FirstWith(ls[1..], c.flag)
    ensures Items(ls, c, true) == [ls[0]] + Items(ls[1..], c, true)
  {
  }

  /** What one insertion makes of the lines: all old ones in order, those of the content at the first flag line, and
      one empty line at the end. */
  lemma RewrittenLines(t: string, c: Call)
    requires !c.again && !Present(t, c.check)
    ensures var ls := Lines(t);
            Lines(Rewritten(t, c)) ==
              (if FirstWith(ls, c.flag) == |ls| then ls else Spliced(ls, Place(ls, c), Lines(c.content))) + [""]
  {
    var ls := Lines(t);
    ItemsOnce(ls, c);
    LinesOfUnlines(Items(ls, c, true));
    PlainLines(ls);
    hide Items, Lines, Unlines, AllLines, Plain, Spliced;
    if FirstWith(ls, c.flag) < |ls| {
      SplicedLines(ls, Place(ls, c), c.content);
    }
  }

  lemma SplicedLines(ls: seq<string>, m: nat, x: string)
    requires m <= |ls| && Plain(ls)
    ensures AllLines(Spliced(ls, m, [x])) == Spliced(ls, m, Lines(x))
  {
    var a, b := ls[..m], ls[m..];
    PlainParted(ls, m);
    hide Plain;
    PlainLines(a);
    PlainLines(b);
    AllLinesOne(x);
    hide AllLines, Lines;
    AllLinesJoin(a + [x], b);
    AllLinesJoin(a, [x]);
  }

  lemma PlainParted(ls: seq<string>, m: nat)
    requires m <= |ls| && Plain(ls)
    ensures Plain(ls[..m]) && Plain(ls[m..])
  {
  }

  lemma AllLinesOne(x: string)
    ensures AllLines([x]) == Lines(x)
  {
    assert AllLines([x]) == Lines(x) + [];
  }

  lemma PresentAt(t: string, s: string)
    ensures var ls, j := Lines(t), FirstWith(Lines(t), s);
            (Present(t, s) <==> j < |ls|) && (j < |ls| ==> Has(ls[j], s))
  {
  }

  /** The lines after one insertion, wherever it was made and if it was. */
  lemma RewrittenSplice(t: string, c: Call) returns (m: nat, x: seq<string>)
    requires !c.again && !Present(t, c.check)
    ensures m <= |Lines(t)| && Lines(Rewritten(t, c)) == Spliced(Lines(t), m, x) + [""]
  {
    hide Lines, Rewritten, Has, Plain;
    RewrittenLines(t, c);
    var ls := Lines(t);
    if FirstWith(ls, c.flag) < |ls| {
      m, x := Place(ls, c), Lines(c.content);
    } else {
      m, x := 0, [];
      assert Spliced(ls, 0, []) == ls;
    }
  }

  /** Nothing that is present becomes absent. */
  lemma StaysPresent(t: string, c: Call, s: string)
    requires !c.again && Present(t, s)
    ensures Present(Rewritten(t, c), s)
  {
    hide *;
    if Present(t, c.check) {
      LeftAlone(t, c);
    } else {
      var m, x := RewrittenSplice(t, c);
      var ls, n, j := Lines(t), Lines(Rewritten(t, c)), FirstWith(Lines(t), s);
      PresentAt(t, s);
      PresentAt(Rewritten(t, c), s);
      SplicedOld(ls, m, x, j);
      SomeLine(n, if j < m then j else j + |x|, s);
    }
  }

  lemma LeftAlone(t: string, c: Call)
    requires Present(t, c.check)
    ensures Rewritten(t, c) == t
  {
  }

  lemma SplicedOld(ls: seq<string>, m: nat, x: seq<string>, j: nat)
    requires m <= |ls| && j < |ls|
    ensures var n, i := Spliced(ls, m, x) + [""], if j < m then j else j + |x|; i < |n| && n[i] == ls[j]
  {
  }

  lemma SplicedAt(ls: seq<string>, m: nat, x: seq<string>, j: nat)
    requires m <= |ls| && j < |x|
    ensures var n := Spliced(ls, m, x) + [""]; m + j < |n| && n[m + j] == x[j]
  {
  }

  /** After the insertion at a flag line, whatever a line of the content holds is present. */
  lemma ContentPresent(t: string, c: Call, s: string)
    requires !c.again && !Present(t, c.check) && Present(t, c.flag) && Present(c.content, s)
    ensures Present(Rewritten(t, c), s)
  {
    hide Lines, Rewritten, Spliced, Has, Plain;
    RewrittenLines(t, c);
    var ls, n, j := Lines(t), Lines(Rewritten(t, c)), FirstWith(Lines(c.content), s);
    var m := Place(ls, c);
    assert m <= |ls| && n == Spliced(ls, m, Lines(c.content)) + [""] && Has(Lines(c.content)[j], s);
    assert FirstWith(n, s) < |n| by {
      hide *;
      SplicedAt(ls, m, Lines(c.content), j);
      SomeLine(n, m + j, s);
    }
  }

  /** What is present afterwards was there before or comes with the content. */
  lemma PresentAfter(t: string, c: Call, s: string)
    requires !c.again
    ensures Present(Rewritten(t, c), s) <==>
            Present(t, s) || (!Present(t, c.check) && Present(t, c.flag) && Present(c.content, s))
  {
    if Present(t, s) {
      StaysPresent(t, c, s);
    } else if !Present(t, c.check) {
      if Present(t, c.flag) && Present(c.content, s) {
        ContentPresent(t, c, s);
      } else if Present(Rewritten(t, c), s) {
        NothingElse(t, c, s);
      }
    }
  }

  lemma NothingElse(t: string, c: Call, s: string)
    requires !c.again && !Present(t, c.check) && !Present(t, s) && Present(Rewritten(t, c), s)
    ensures Present(t, c.flag) && Present(c.content, s)
  {
    RewrittenLines(t, c);
    NothingPresent(t);
    EmptyHas(s);
    var ls, n, j := Lines(t), Lines(Rewritten(t, c)), FirstWith(Lines(Rewritten(t, c)), s);
    hide Lines, Rewritten, Has, Plain;
    var here := FirstWith(ls, c.flag) < |ls|;
    var m, x := if here then Place(ls, c) else 0, if here then Lines(c.content) else [];
    assert n == Spliced(ls, m, x) + [""];
    WhereFrom(ls, m, x, j);
    assert n[j] !in ls && n[j] in x;
    var i :| 0 <= i < |x| && x[i] == n[j];
    SomeLine(x, i, s);
  }

  lemma WhereFrom(ls: seq<string>, m: nat, x: seq<string>, j: nat)
    requires m <= |ls| && j <= |ls| + |x|
    ensures var n := Spliced(ls, m, x) + [""]; n[j] in ls || n[j] in x || n[j] == ""
  {
    var n := Spliced(ls, m, x) + [""];
    assert n[j] == if j < m then ls[j] else if j < m + |x| then x[j - m] else if j < |ls| + |x| then ls[j - |x|] else "";
  }

  lemma EmptyHas(s: string)
    ensures Has("", s) <==> s == ""
  {
  }

  lemma {:induction false} UnlinesOfLines(t: string)
    ensures Unlines(Lines(t)) == t + "\n"
  {
    if t != "" {
      UnlinesOfLines(t[1..]);
      var ls := Lines(t[1..]);
      assert Unlines(ls) == ls[0] + "\n" + Unlines(ls[1..]);
      if t[0] == '\n' {
        assert Unlines([""] + ls) == "" + "\n" + Unlines(ls) by {
          assert ([""] + ls)[1..] == ls;
        }
        assert "\n" + (t[1..] + "\n") == t + "\n";
      } else {
        assert ([[t[0]] + ls[0]] + ls[1..])[1..] == ls[1..];
        assert [t[0]] + (ls[0] + "\n" + Unlines(ls[1..])) == ([t[0]] + ls[0]) + "\n" + Unlines(ls[1..]);
        assert [t[0]] + (t[1..] + "\n") == t + "\n";
      }
    }
  }

  lemma {:induction false} UnlinesLength(ls: seq<string>, c: Call, on: bool)
    ensures |Unlines(Items(ls, c, on))| >= |Unlines(ls)|
  {
    if ls != [] {
      var hit := on && Has(ls[0], c.flag);
      var rest := Items(ls[1..], c, on && (c.again || !hit));
      UnlinesLength(ls[1..], c, on && (c.again || !hit));
      assert ls == [ls[0]] + ls[1..];
      UnlinesSize(ls[0], ls[1..]);
      hide Unlines, Has;
      if !hit {
        UnlinesSize(ls[0], rest);
      } else if c.after {
        assert [ls[0], c.content] + rest == [ls[0]] + ([c.content] + rest);
        UnlinesSize(ls[0], [c.content] + rest);
        UnlinesSize(c.content, rest);
      } else {
        assert [c.content, ls[0]] + rest == [c.content] + ([ls[0]] + rest);
        UnlinesSize(c.content, [ls[0]] + rest);
        UnlinesSize(ls[0], rest);
      }
    }
  }

  lemma UnlinesSize(x: string, items: seq<string>)
    ensures |Unlines([x] + items)| == |x| + 1 + |Unlines(items)|
  {
    assert ([x] + items)[1..] == items;
  }

  /** A rewriting leaves the text alone or makes it longer. */
  lemma Grows(t: string, c: Call)
    ensures Rewritten(t, c) == t <==> Present(t, c.check)
    ensures |Rewritten(t, c)| >= |t| && (Rewritten(t, c) != t ==> |Rewritten(t, c)| > |t|)
  {
    UnlinesOfLines(t);
    UnlinesLength(Lines(t), c, true);
  }

  /** A missing flag: nothing goes in, and the file grows by one line at every run. */
  lemma FlagMissing(t: string, c: Call)
    requires !c.again && !Present(t, c.check) && !Present(t, c.flag)
    ensures Rewritten(t, c) == t + "\n"
  {
    ItemsOnce(Lines(t), c);
    UnlinesOfLines(t);
  }

  /** The second call changes nothing exactly when the check text was there before the first, or came in with the
      content beside a flag line. A content without its own check text goes in again at every run. */
  lemma AgainIff(t: string, c: Call)
    requires !c.again
    ensures Rewritten(Rewritten(t, c), c) == Rewritten(t, c) <==>
            Present(t, c.check) || (Present(t, c.flag) && Present(c.content, c.check))
  {
    Grows(Rewritten(t, c), c);
    PresentAfter(t, c, c.check);
  }

  // ----- a sequence of calls on one file

  function RewrittenAll(t: string, cs: seq<Call>): string
    decreases cs
  {
    if cs == [] then t else RewrittenAll(Rewritten(t, cs[0]), cs[1..])
  }

  predicate Once(cs: seq<Call>) {
    forall i :: 0 <= i < |cs| ==> !cs[i].again
  }

  lemma {:induction false} AllStayPresent(t: string, cs: seq<Call>, s: string)
    requires Once(cs) && Present(t, s)
    ensures Present(RewrittenAll(t, cs), s)
    decreases cs
  {
    if cs != [] {
      StaysPresent(t, cs[0], s);
      AllStayPresent(Rewritten(t, cs[0]), cs[1..], s);
    }
  }

  lemma {:induction false} AllGrow(t: string, cs: seq<Call>)
    ensures |RewrittenAll(t, cs)| >= |t|
    decreases cs
  {
    if cs != [] {
      Grows(t, cs[0]);
      AllGrow(Rewritten(t, cs[0]), cs[1..]);
    }
  }

  /** A sequence of calls changes nothing exactly when every text it checks for is there beforehand. */
  lemma {:induction false} UnchangedIff(t: string, cs: seq<Call>)
    ensures RewrittenAll(t, cs) == t <==> forall i :: 0 <= i < |cs| ==> Present(t, cs[i].check)
    decreases cs
  {
    if cs != [] {
      Grows(t, cs[0]);
      if Present(t, cs[0].check) {
        UnchangedIff(t, cs[1..]);
        assert forall i :: 1 <= i < |cs| ==> cs[i] == cs[1..][i - 1];
      } else {
        AllGrow(Rewritten(t, cs[0]), cs[1..]);
      }
    }
  }

  // ----- when a second run changes nothing

  /** `s` is there after the first `n` calls, told from the file as it was: it was there, or the content of a call
      that inserts holds it. */
  predicate Holds(t: string, cs: seq<Call>, n: nat, s: string)
    requires n <= |cs|
    decreases n, 1
  {
    Present(t, s) || exists j :: 0 <= j < n && Inserts(t, cs, j) && Present(cs[j].content, s)
  }

  /** The `j`-th call inserts: by then its flag is there and its check text is not. */
  predicate Inserts(t: string, cs: seq<Call>, j: nat)
    requires j < |cs|
    decreases j, 2
  {
    !Holds(t, cs, j, cs[j].check) && Holds(t, cs, j, cs[j].flag)
  }

  lemma {:induction false} HoldsIff(t: string, cs: seq<Call>, n: nat, s: string)
    requires Once(cs) && n <= |cs|
    ensures Present(RewrittenAll(t, cs[..n]), s) <==> Holds(t, cs, n, s)
    decreases n
  {
    hide Present, Rewritten;
    if n == 0 {
      assert cs[..0] == [];
    } else {
      hide Holds, RewrittenAll;
      var u, c := RewrittenAll(t, cs[..n - 1]), cs[n - 1];
      RewrittenSnoc(t, cs, n);
      HoldsIff(t, cs, n - 1, s);
      HoldsIff(t, cs, n - 1, c.check);
      HoldsIff(t, cs, n - 1, c.flag);
      PresentAfter(u, c, s);
      HoldsNext(t, cs, n, s);
    }
  }

  lemma HoldsNext(t: string, cs: seq<Call>, n: nat, s: string)
    requires 0 < n <= |cs|
    ensures Holds(t, cs, n, s) <==> Holds(t, cs, n - 1, s) || (Inserts(t, cs, n - 1) && Present(cs[n - 1].content, s))
  {
    hide Present, Inserts;
  }

  /** The second run of a sequence changes nothing exactly when, told from the file as it was, every check text is
      there after the first. */
  lemma SecondRunIff(t: string, cs: seq<Call>)
    requires Once(cs)
    ensures RewrittenAll(RewrittenAll(t, cs), cs) == RewrittenAll(t, cs) <==>
            forall i :: 0 <= i < |cs| ==> Holds(t, cs, |cs|, cs[i].check)
  {
    UnchangedIff(RewrittenAll(t, cs), cs);
    assert cs[..|cs|] == cs;
    forall i | 0 <= i < |cs| ensures Present(RewrittenAll(t, cs), cs[i].check) <==> Holds(t, cs, |cs|, cs[i].check) {
      HoldsIff(t, cs, |cs|, cs[i].check);
    }
  }

  /** The check text of a call is there from the start; or its content holds it within one line and its flag is there
      from the start or comes in with an earlier check text. */
  predicate Ready(t: string, cs: seq<Call>, i: nat)
    requires i < |cs|
  {
    || Present(t, cs[i].check)
    || (&& Present(cs[i].content, cs[i].check)
        && (Present(t, cs[i].flag) || exists j :: 0 <= j < i && Has(cs[j].check, cs[i].flag)))
  }

  lemma {:induction false} HasWithin(line: string, s: string, f: string)
    requires Has(line, s) && Has(s, f)
    ensures Has(line, f)
    decreases |line|
  {
    if s <= line {
      HasExtends(s, line, f);
    } else {
      HasWithin(line[1..], s, f);
    }
  }

  lemma {:induction false} HasExtends(s: string, line: string, f: string)
    requires s <= line && Has(s, f)
    ensures Has(line, f)
  {
    if !(f <= s) {
      HasExtends(s[1..], line[1..], f);
    }
  }

  lemma PresentWithin(t: string, s: string, f: string)
    requires Present(t, s) && Has(s, f)
    ensures Present(t, f)
  {
    var k := FirstWith(Lines(t), s);
    HasWithin(Lines(t)[k], s, f);
    SomeLine(Lines(t), k, f);
  }

  /** After the calls up to the `n`-th, their check texts are present, and so are the flags of the `n`-th. */
  lemma {:induction false} ChecksPresent(t: string, cs: seq<Call>, n: nat)
    requires Once(cs) && n <= |cs| && forall i :: 0 <= i < |cs| ==> Ready(t, cs, i)
    ensures forall i :: 0 <= i < n ==> Present(RewrittenAll(t, cs[..n]), cs[i].check)
    decreases n
  {
    hide Lines, Rewritten, Has, Present;
    if n > 0 {
      ChecksPresent(t, cs, n - 1);
      var u, c := RewrittenAll(t, cs[..n - 1]), cs[n - 1];
      RewrittenSnoc(t, cs, n);
      forall i | 0 <= i < n ensures Present(Rewritten(u, c), cs[i].check) {
        if i < n - 1 || Present(u, c.check) {
          StaysPresent(u, c, cs[i].check);
        } else {
          assert Ready(t, cs, n - 1);
          if Present(t, c.check) {
            AllStayPresent(t, cs[..n - 1], c.check);
          }
          FlagThere(t, cs, n - 1);
          ContentPresent(u, c, c.check);
        }
      }
    }
  }

  lemma FlagThere(t: string, cs: seq<Call>, n: nat)
    requires Once(cs) && n < |cs| && Ready(t, cs, n) && !Present(t, cs[n].check)
    requires forall i :: 0 <= i < n ==> Present(RewrittenAll(t, cs[..n]), cs[i].check)
    ensures Present(RewrittenAll(t, cs[..n]), cs[n].flag)
  {
    if Present(t, cs[n].flag) {
      AllStayPresent(t, cs[..n], cs[n].flag);
    } else {
      var j :| 0 <= j < n && Has(cs[j].check, cs[n].flag);
      PresentWithin(RewrittenAll(t, cs[..n]), cs[j].check, cs[n].flag);
    }
  }

  lemma {:induction false} RewrittenSnoc(t: string, cs: seq<Call>, n: nat)
    requires 0 < n <= |cs|
    ensures RewrittenAll(t, cs[..n]) == Rewritten(RewrittenAll(t, cs[..n - 1]), cs[n - 1])
    decreases n
  {
    var rest := cs[1..];
    assert cs[..n][1..] == rest[..n - 1];
    if n > 1 {
      RewrittenSnoc(Rewritten(t, cs[0]), rest, n - 1);
      assert cs[..n - 1][1..] == rest[..n - 2];
    }
  }

  /** So it is for a sequence whose calls are all ready. */
  lemma SecondRunUnchanged(t: string, cs: seq<Call>)
    requires Once(cs) && forall i :: 0 <= i < |cs| ==> Ready(t, cs, i)
    ensures RewrittenAll(RewrittenAll(t, cs), cs) == RewrittenAll(t, cs)
  {
    ChecksPresent(t, cs, |cs|);
    assert cs[..|cs|] == cs;
    UnchangedIff(RewrittenAll(t, cs), cs);
  }

  // ----- the loops of the source

  /** `getline`, and the test for the end of the file after it. */
  method GetLine(t: string, p: nat) returns (line: string, next: nat, eof: bool)
    requires p <= |t|
    ensures p <= next <= |t| && (!eof ==> p < next)
    ensures Lines(t[p..]) == [line] + if eof then [] else Lines(t[next..])
  {
    var q := p;
    while q < |t| && t[q] != '\n'
      invariant p <= q <= |t| && '\n' !in t[p..q]
    {
      assert t[p..q + 1] == t[p..q] + [t[q]];
      q := q + 1;
    }
    line, eof := t[p..q], q == |t|;
    next := if eof then q else q + 1;
    if eof {
      assert t[p..] == line;
    } else {
      assert t[p..] == line + "\n" + t[q + 1..];
      LinesJoin(line, t[q + 1..]);
    }
  }

  /** `checkcontent`. */
  method CheckContent(t: string, s: string) returns (found: bool)
    ensures found <==> Present(t, s)
  {
    var p, eof := 0, false;
    assert t[0..] == t;
    while !eof
      invariant p <= |t|
      invariant Present(t, s) <==> !eof && Present(t[p..], s)
      decreases |t| - p, !eof
    {
      var line;
      line, p, eof := GetLine(t, p);
      if Has(line, s) {
        return true;
      }
    }
    found := false;
  }

  /** The loop of `replace`. */
  method CopyWith(t: string, c: Call) returns (out: string)
    ensures out == Unlines(Items(Lines(t), c, true))
  {
    var p, eof, on := 0, false, true;
    out := "";
    assert t[0..] == t;
    while !eof
      invariant p <= |t|
      invariant out + Unlines(Items(if eof then [] else Lines(t[p..]), c, on)) == Unlines(Items(Lines(t), c, true))
      decreases |t| - p, !eof
    {
      ghost var ls, done := Lines(t[p..]), out;
      var line;
      line, p, eof := GetLine(t, p);
      assert ls[1..] == if eof then [] else Lines(t[p..]);
      ItemsStep(done, ls, c, on);
      if c.after {
        out := out + line + "\n";
        if on && Has(line, c.flag) {
          out := out + c.content + "\n";
          if !c.again {
            on := false;
          }
        }
      } else {
        if on && Has(line, c.flag) {
          out := out + c.content + "\n";
          if !c.again {
            on := false;
          }
        }
        out := out + line + "\n";
      }
    }
  }

  lemma ItemsStep(out: string, ls: seq<string>, c: Call, on: bool)
    requires ls != []
    ensures var hit := on && Has(ls[0], c.flag);
            var next := Unlines(Items(ls[1..], c, on && (c.again || !hit)));
            out + Unlines(Items(ls, c, on)) ==
              if !hit then (out + ls[0] + "\n") + next
              else if c.after then (out + ls[0] + "\n" + c.content + "\n") + next
              else (out + c.content + "\n" + ls[0] + "\n") + next
  {
    var hit := on && Has(ls[0], c.flag);
    var rest := Items(ls[1..], c, on && (c.again || !hit));
    hide Unlines, Has;
    if !hit {
      TakeItem(out, ls[0], rest);
    } else if c.after {
      assert [ls[0], c.content] + rest == [ls[0]] + ([c.content] + rest);
      TakeItem(out, ls[0], [c.content] + rest);
      TakeItem(out + ls[0] + "\n", c.content, rest);
    } else {
      assert [c.content, ls[0]] + rest == [c.content] + ([ls[0]] + rest);
      TakeItem(out, c.content, [ls[0]] + rest);
      TakeItem(out + c.content + "\n", ls[0], rest);
    }
  }

  lemma TakeItem(out: string, x: string, items: seq<string>)
    ensures out + Unlines([x] + items) == (out + x + "\n") + Unlines(items)
  {
    assert ([x] + items)[1..] == items;
    assert out + (x + "\n" + Unlines(items)) == (out + x + "\n") + Unlines(items);
  }

  /** The files the generator works on. */
  class Disk {
    var files: map<string, string>

    /** `replace`; the file must be there, or the source reads for ever. */
    method Replace(c: Call) returns (changed: bool)
      requires c.file in files
      modifies this
      ensures files == old(files)[c.file := Rewritten(old(files)[c.file], c)]
      ensures changed <==> !Present(old(files)[c.file], c.check)
    {
      var found := CheckContent(files[c.file], c.check);
      if found {
        assert files == files[c.file := files[c.file]];
        return false;
      }
      var out := CopyWith(files[c.file], c);
      files := files[c.file := out];
      changed := true;
    }

    /** A sequence of calls: each file sees those that name it. */
    method ReplaceAll(cs: seq<Call>)
      requires forall i :: 0 <= i < |cs| ==> cs[i].file in files
      modifies this
      ensures files.Keys == old(files).Keys
      ensures forall f :: f in files ==> files[f] == RewrittenAll(old(files)[f], CallsFor(cs, f))
    {
      for i := 0 to |cs|
        invariant files.Keys == old(files).Keys
        invariant forall f :: f in files ==>
          RewrittenAll(files[f], CallsFor(cs[i..], f)) == RewrittenAll(old(files)[f], CallsFor(cs, f))
      {
        ghost var was := files;
        assert cs[i..][1..] == cs[i + 1..];
        var changed := Replace(cs[i]);
        forall f | f in files
          ensures RewrittenAll(files[f], CallsFor(cs[i + 1..], f)) == RewrittenAll(was[f], CallsFor(cs[i..], f))
        {
          CallsForStep(cs[i..], f);
        }
      }
      assert cs[|cs|..] == [];
    }
  }

  function CallsFor(cs: seq<Call>, f: string): seq<Call> {
    if cs == [] then []
    else (if cs[0].file == f then [cs[0]] else []) + CallsFor(cs[1..], f)
  }

  lemma CallsForStep(cs: seq<Call>, f: string)
    requires cs != []
    ensures cs[0].file == f ==> CallsFor(cs, f) == [cs[0]] + CallsFor(cs[1..], f)
    ensures cs[0].file == f ==> CallsFor(cs, f)[0] == cs[0] && CallsFor(cs, f)[1..] == CallsFor(cs[1..], f)
    ensures cs[0].file != f ==> CallsFor(cs, f) == CallsFor(cs[1..], f)
  {
  }

  // ----- the calls the generator makes

  const HEADER := "protocol.h"
  const MAKEFILE := "Makefile"
  const TAB3 := "            "

  /** What the generator takes from one protocol: `body` and `enumBody` are the lines of the structure and of its last
      enumeration, if it has one. */
  datatype Protocol = Protocol(name: string, number: string, answers: bool, note: string, handler: string,
                               structName: string, structNote: string, body: string,
                               hasEnum: bool, enumName: string, enumNote: string, enumBody: string)

  /** The calls `main` starts with. */
  function MainCalls(): seq<Call> {
    [Call(HEADER, "};", "// structs", "// structs", false, true),
     Call(HEADER, "};", "// enums", "// enums", false, true),
     Call(HEADER, "#pragma pack(1)", "#include <string.h>", "#include <string.h>", false, false)]
  }

  /** The line of the protocol's number, and the line of what it answers; without an answer it is the same again. */
  function NumberLine(p: Protocol): string {
    "\t" + p.name + (if p.number == "auto" then "" else "=" + p.number) + ", //" + p.note
  }

  function AnswerLine(p: Protocol): string {
    if p.answers then "\t" + "S" + (if p.name == "" then "" else p.name[1..]) + "," else NumberLine(p)
  }

  function ObjectLine(p: Protocol): string {
    TAB3 + "handler/" + p.handler + ".o \\"
  }

  function StructCheck(p: Protocol): string {
    "struct " + p.structName + " {"
  }

  function EnumCheck(p: Protocol): string {
    if p.hasEnum then "enum " + p.enumName + " {" else ""
  }

  /** The calls of `autoBuildProtocol` and `autoBuild` for one protocol. */
  function CallsOf(p: Protocol): (cs: seq<Call>)
    ensures |cs| == 5
  {
    [Call(HEADER, "};", NumberLine(p), NumberLine(p), false, false),
     Call(HEADER, "};", AnswerLine(p), AnswerLine(p), false, false),
     Call(MAKEFILE, "virtual.o", ObjectLine(p), ObjectLine(p), false, true),
     Call(HEADER, "// structs", "\n//" + p.structNote + "\n" + StructCheck(p) + "\n" + p.body + "};\n", StructCheck(p), false, true),
     Call(HEADER, "// enums", (if p.hasEnum then "\n//" + p.enumNote + "\n" + EnumCheck(p) + "\n" + p.enumBody else "") + "};\n",
          EnumCheck(p), false, true)]
  }

  function AllCallsOf(ps: seq<Protocol>): seq<Call> {
    if ps == [] then [] else CallsOf(ps[0]) + AllCallsOf(ps[1..])
  }

  function GeneratorCalls(ps: seq<Protocol>): seq<Call> {
    MainCalls() + AllCallsOf(ps)
  }

  /** Names, numbers and notes on one line each. */
  predicate OneLine(p: Protocol) {
    '\n' !in p.name && '\n' !in p.number && '\n' !in p.note && '\n' !in p.handler && '\n' !in p.structName && '\n' !in p.enumName
  }

  predicate IsHeaderFlag(flag: string) {
    flag == "};" || flag == "#pragma pack(1)" || flag == "// structs" || flag == "// enums"
  }

  /** A call that inserts once, at one of the flags, a content that holds its check text within one line. */
  predicate Proper(c: Call) {
    && !c.again && Present(c.content, c.check)
    && ((c.file == HEADER && IsHeaderFlag(c.flag)) || (c.file == MAKEFILE && c.flag == "virtual.o"))
  }

  predicate ProperFor(cs: seq<Call>, f: string) {
    forall i :: 0 <= i < |cs| ==> Proper(cs[i]) && cs[i].file == f
  }

  lemma Itself(line: string)
    requires '\n' !in line
    ensures Present(line, line)
  {
    assert Lines(line) == [line] && Has(line, line);
    SomeLine(Lines(line), 0, line);
  }

  lemma InTheMiddle(a: string, line: string, b: string)
    requires '\n' !in line
    ensures Present(a + "\n" + line + "\n" + b, line)
  {
    var t := a + "\n" + line;
    LinesJoin(t, b);
    LinesJoin(a, line);
    assert Lines(line) == [line] && Has(line, line);
    var ls := Lines(t + "\n" + b);
    assert ls[|Lines(a)|] == line;
    SomeLine(ls, |Lines(a)|, line);
  }

  lemma NothingPresent(t: string)
    ensures Present(t, "")
  {
    assert Has(Lines(t)[0], "");
    SomeLine(Lines(t), 0, "");
  }

  lemma PlainParts(a: string, b: string)
    requires '\n' !in a && '\n' !in b
    ensures '\n' !in a + b
  {
  }

  lemma OneLineTexts(p: Protocol)
    requires OneLine(p)
    ensures '\n' !in NumberLine(p) && '\n' !in AnswerLine(p) && '\n' !in ObjectLine(p)
    ensures '\n' !in StructCheck(p) && '\n' !in EnumCheck(p)
  {
    PlainParts("struct ", p.structName);
    PlainParts("struct " + p.structName, " {");
    PlainParts("enum ", p.enumName);
    PlainParts("enum " + p.enumName, " {");
    PlainParts(TAB3, "handler/");
    PlainParts(TAB3 + "handler/", p.handler);
    PlainParts(TAB3 + "handler/" + p.handler, ".o \\");
    PlainNumber(p);
    PlainAnswer(p);
  }

  lemma PlainNumber(p: Protocol)
    requires OneLine(p)
    ensures '\n' !in NumberLine(p)
  {
    PlainParts("\t", p.name);
    var number := if p.number == "auto" then "" else "=" + p.number;
    PlainParts("=", p.number);
    PlainParts("\t" + p.name, number);
    PlainParts("\t" + p.name + number, ", //");
    PlainParts("\t" + p.name + number + ", //", p.note);
  }

  lemma PlainAnswer(p: Protocol)
    requires OneLine(p)
    ensures '\n' !in AnswerLine(p)
  {
    PlainNumber(p);
    var tail := if p.name == "" then "" else p.name[1..];
    PlainParts("\t" + "S", tail);
    PlainParts("\t" + "S" + tail, ",");
  }

  lemma CallsProper(p: Protocol)
    requires OneLine(p)
    ensures forall i :: 0 <= i < |CallsOf(p)| ==> Proper(CallsOf(p)[i])
  {
    OneLineTexts(p);
    hide OneLine, Has, Lines, Plain;
    Itself(NumberLine(p));
    Itself(AnswerLine(p));
    Itself(ObjectLine(p));
    StructPresent(p);
    EnumPresent(p);
    hide NumberLine, AnswerLine, ObjectLine, StructCheck, EnumCheck, Present;
  }

  lemma StructPresent(p: Protocol)
    requires '\n' !in StructCheck(p)
    ensures Present("\n//" + p.structNote + "\n" + StructCheck(p) + "\n" + p.body + "};\n", StructCheck(p))
  {
    hide *;
    var a, line := "\n//" + p.structNote, StructCheck(p);
    InTheMiddle(a, line, p.body + "};\n");
    assert a + "\n" + line + "\n" + (p.body + "};\n") == a + "\n" + line + "\n" + p.body + "};\n";
  }

  lemma EnumPresent(p: Protocol)
    requires '\n' !in EnumCheck(p)
    ensures Present((if p.hasEnum then "\n//" + p.enumNote + "\n" + EnumCheck(p) + "\n" + p.enumBody else "") + "};\n", EnumCheck(p))
  {
    if p.hasEnum {
      hide *;
      var a, line := "\n//" + p.enumNote, EnumCheck(p);
      InTheMiddle(a, line, p.enumBody + "};\n");
      assert a + "\n" + line + "\n" + (p.enumBody + "};\n") == a + "\n" + line + "\n" + p.enumBody + "};\n";
    } else {
      NothingPresent("};\n");
    }
  }

  lemma MainProper()
    ensures forall i :: 0 <= i < 3 ==> Proper(MainCalls()[i])
  {
    hide Present, Has, Lines, Plain;
    ProperAt("};", "// structs", true);
    ProperAt("};", "// enums", true);
    ProperAt("#pragma pack(1)", "#include <string.h>", false);
    hide Proper;
  }

  lemma ProperAt(flag: string, line: string, after: bool)
    requires IsHeaderFlag(flag) && '\n' !in line
    ensures Proper(Call(HEADER, flag, line, line, false, after))
  {
    Itself(line);
    hide Present, IsHeaderFlag;
  }

  lemma {:induction false} AllProper(ps: seq<Protocol>)
    requires forall i :: 0 <= i < |ps| ==> OneLine(ps[i])
    ensures forall i :: 0 <= i < |AllCallsOf(ps)| ==> Proper(AllCallsOf(ps)[i])
  {
    hide Proper, OneLine, CallsOf;
    if ps != [] {
      CallsProper(ps[0]);
      AllProper(ps[1..]);
    }
  }

  /** The calls that name a file keep their order and stay proper. */
  lemma {:induction false} CallsForProper(cs: seq<Call>, f: string)
    requires forall i :: 0 <= i < |cs| ==> Proper(cs[i])
    ensures ProperFor(CallsFor(cs, f), f)
  {
    hide Proper;
    if cs != [] {
      CallsForProper(cs[1..], f);
    }
  }

  lemma {:induction false} CallsForJoin(a: seq<Call>, b: seq<Call>, f: string)
    ensures CallsFor(a + b, f) == CallsFor(a, f) + CallsFor(b, f)
  {
    hide *;
    if a == [] {
      assert a + b == b;
      NoCallsFor(f);
    } else {
      assert (a + b)[1..] == a[1..] + b;
      CallsForJoin(a[1..], b, f);
      CallsForStep(a, f);
      CallsForStep(a + b, f);
      assert [a[0]] + (CallsFor(a[1..], f) + CallsFor(b, f)) == ([a[0]] + CallsFor(a[1..], f)) + CallsFor(b, f);
    }
  }

  lemma NoCallsFor(f: string)
    ensures CallsFor([], f) == []
  {
  }

  lemma MainCallsFor()
    ensures CallsFor(MainCalls(), HEADER) == MainCalls() && CallsFor(MainCalls(), MAKEFILE) == []
  {
    var m := MainCalls();
    assert m[1..][1..][1..] == [];
    assert m == [m[0]] + ([m[1]] + ([m[2]] + []));
  }

  /** Every call finds its check text or its flag, but for the two flags the generator brings in itself. */
  predicate Furnished(t: string, cs: seq<Call>) {
    forall i :: 0 <= i < |cs| ==>
      Present(t, cs[i].check) || Present(t, cs[i].flag) || cs[i].flag == "// structs" || cs[i].flag == "// enums"
  }

  /** All calls on the header are ready: the flags the first two bring in serve the later ones. */
  lemma HeaderReady(t: string, cs: seq<Call>)
    requires |cs| >= 2 && cs[0].flag == cs[1].flag == "};" && cs[0].check == "// structs" && cs[1].check == "// enums"
    requires Furnished(t, cs) && ProperFor(cs, HEADER)
    ensures Once(cs) && forall i :: 0 <= i < |cs| ==> Ready(t, cs, i)
  {
    assert Has("// structs", "// structs") && Has("// enums", "// enums");
    hide Present, Has;
    forall i | 0 <= i < |cs| ensures Ready(t, cs, i) {
      assert Proper(cs[i]);
      if cs[i].flag == "// structs" {
        assert Has(cs[0].check, cs[i].flag);
      } else if cs[i].flag == "// enums" {
        assert Has(cs[1].check, cs[i].flag);
      }
    }
  }

  lemma MakefileReady(t: string, cs: seq<Call>)
    requires Furnished(t, cs) && ProperFor(cs, MAKEFILE)
    ensures Once(cs) && forall i :: 0 <= i < |cs| ==> Ready(t, cs, i)
  {
    hide Present, Has, IsHeaderFlag;
    forall i | 0 <= i < |cs| ensures Ready(t, cs, i) {
      assert Proper(cs[i]) && cs[i].flag == "virtual.o";
    }
  }

  /** The calls on either file. */
  lemma CallsByFile(ps: seq<Protocol>)
    requires forall i :: 0 <= i < |ps| ==> OneLine(ps[i])
    ensures var cs := CallsFor(GeneratorCalls(ps), HEADER);
            MainCalls() <= cs && ProperFor(cs, HEADER)
    ensures ProperFor(CallsFor(GeneratorCalls(ps), MAKEFILE), MAKEFILE)
  {
    GeneratorProper(ps);
    HeaderPrefix(ps);
    hide *;
    CallsForProper(GeneratorCalls(ps), HEADER);
    CallsForProper(GeneratorCalls(ps), MAKEFILE);
  }

  lemma GeneratorProper(ps: seq<Protocol>)
    requires forall i :: 0 <= i < |ps| ==> OneLine(ps[i])
    ensures forall i :: 0 <= i < |GeneratorCalls(ps)| ==> Proper(GeneratorCalls(ps)[i])
  {
    MainProper();
    AllProper(ps);
    assert |MainCalls()| == 3;
    hide Proper, OneLine, AllCallsOf, MainCalls;
  }

  lemma HeaderPrefix(ps: seq<Protocol>)
    ensures MainCalls() <= CallsFor(GeneratorCalls(ps), HEADER)
  {
    MainCallsFor();
    CallsForJoin(MainCalls(), AllCallsOf(ps), HEADER);
    hide CallsFor, AllCallsOf, MainCalls;
  }

  /** Whatever the protocols and the files, a second run of the generator leaves a file as the first has left it
      exactly when every check text of its calls is there, told from the file before the first. */
  lemma SecondRunOfGeneratorIff(ps: seq<Protocol>, t: string, f: string)
    ensures var cs := CallsFor(GeneratorCalls(ps), f);
            RewrittenAll(RewrittenAll(t, cs), cs) == RewrittenAll(t, cs) <==>
            forall i :: 0 <= i < |cs| ==> Holds(t, cs, |cs|, cs[i].check)
  {
    var cs := CallsFor(GeneratorCalls(ps), f);
    OnceEach(ps);
    CallsForOnce(GeneratorCalls(ps), f);
    SecondRunIff(t, cs);
  }

  lemma {:induction false} OnceEach(ps: seq<Protocol>)
    ensures Once(AllCallsOf(ps)) && Once(GeneratorCalls(ps))
  {
    hide NumberLine, AnswerLine, ObjectLine, StructCheck, EnumCheck;
    if ps != [] {
      OnceEach(ps[1..]);
    }
  }

  lemma {:induction false} CallsForOnce(cs: seq<Call>, f: string)
    requires Once(cs)
    ensures Once(CallsFor(cs, f))
  {
    if cs != [] {
      CallsForOnce(cs[1..], f);
    }
  }

  /** The generator is insert-once: with names on one line each, and a check text or a flag line for every call, a
      second run of all its calls leaves both files as the first has left them. */
  lemma SecondRunOfGenerator(ps: seq<Protocol>, header: string, makefile: string)
    requires forall i :: 0 <= i < |ps| ==> OneLine(ps[i])
    requires Furnished(header, CallsFor(GeneratorCalls(ps), HEADER))
    requires Furnished(makefile, CallsFor(GeneratorCalls(ps), MAKEFILE))
    ensures var cs := CallsFor(GeneratorCalls(ps), HEADER);
            RewrittenAll(RewrittenAll(header, cs), cs) == RewrittenAll(header, cs)
    ensures var cs := CallsFor(GeneratorCalls(ps), MAKEFILE);
            RewrittenAll(RewrittenAll(makefile, cs), cs) == RewrittenAll(makefile, cs)
  {
    hide *;
    CallsByFile(ps);
    HeaderAgain(header, CallsFor(GeneratorCalls(ps), HEADER));
    MakefileAgain(makefile, CallsFor(GeneratorCalls(ps), MAKEFILE));
  }

  lemma HeaderAgain(t: string, cs: seq<Call>)
    requires MainCalls() <= cs && Furnished(t, cs) && ProperFor(cs, HEADER)
    ensures RewrittenAll(RewrittenAll(t, cs), cs) == RewrittenAll(t, cs)
  {
    assert cs[0] == MainCalls()[0] && cs[1] == MainCalls()[1];
    hide Proper, RewrittenAll, Present;
    HeaderReady(t, cs);
    SecondRunUnchanged(t, cs);
  }

  lemma MakefileAgain(t: string, cs: seq<Call>)
    requires Furnished(t, cs) && ProperFor(cs, MAKEFILE)
    ensures RewrittenAll(RewrittenAll(t, cs), cs) == RewrittenAll(t, cs)
  {
    hide Proper, RewrittenAll, Present, IsHeaderFlag;
    MakefileReady(t, cs);
    SecondRunUnchanged(t, cs);
  }

  // ----- what a run leaves in the files

  /** The content stands next to the first flag line, behind it or in front of it, and every line keeps its place
      otherwise. */
  lemma Beside(t: string, c: Call)
    requires !c.again && !Present(t, c.check) && Present(t, c.flag)
    ensures var ls, k := Lines(t), FirstWith(Lines(t), c.flag);
            Has(ls[k], c.flag) && (forall i :: 0 <= i < k ==> !Has(ls[i], c.flag))
            && Lines(Rewritten(t, c)) ==
                 if c.after then ls[..k + 1] + Lines(c.content) + ls[k + 1..] + [""]
                 else ls[..k] + Lines(c.content) + ls[k..] + [""]
  {
    hide Lines, Rewritten, Has, Plain;
    RewrittenLines(t, c);
    SplicedIs(Lines(t), Place(Lines(t), c), Lines(c.content));
    hide Spliced;
  }

  lemma SplicedIs(ls: seq<string>, m: nat, x: seq<string>)
    requires m <= |ls|
    ensures Spliced(ls, m, x) == ls[..m] + x + ls[m..]
  {
  }

  /** With `again` each line is dealt with by itself. */
  lemma {:induction false} EveryLine(a: seq<string>, b: seq<string>, c: Call)
    requires c.again
    ensures Items(a + b, c, true) == Items(a, c, true) + Items(b, c, true)
    decreases a
  {
    if a == [] {
      assert a + b == b;
    } else {
      assert (a + b)[1..] == a[1..] + b;
      EveryLine(a[1..], b, c);
      ItemsNext(a, c);
      ItemsNext(a + b, c);
      hide *;
      var here := Items([a[0]], c, true);
      assert here + (Items(a[1..], c, true) + Items(b, c, true)) == (here + Items(a[1..], c, true)) + Items(b, c, true);
    }
  }

  lemma ItemsNext(ls: seq<string>, c: Call)
    requires c.again && ls != []
    ensures Items(ls, c, true) == Items([ls[0]], c, true) + Items(ls[1..], c, true)
  {
    BesideOne(ls[0], c);
    hide Has;
  }

  /** The content stands next to every flag line then. */
  lemma BesideOne(line: string, c: Call)
    requires c.again
    ensures Items([line], c, true) ==
              if !Has(line, c.flag) then [line] else if c.after then [line, c.content] else [c.content, line]
  {
    hide Has;
    assert [line][1..] == [] && Items([], c, true) == [];
  }

  /** A line of an enumeration: a name, a number if it has one, and a note. */
  datatype Enumerator = Enumerator(name: string, number: Option<string>, note: string)

  /** How far `s` goes without one of the characters. */
  function UpTo(s: string, stops: string): (k: nat)
    ensures k <= |s| && (k < |s| ==> s[k] in stops) && forall i :: 0 <= i < k ==> s[i] !in stops
  {
    if s == "" || s[0] in stops then 0 else 1 + UpTo(s[1..], stops)
  }

  /** Reads such a line: a tab, the name up to `=` or `,`, the number up to `,`, and the note behind `, //`. */
  function ReadEnumerator(line: string): Option<Enumerator> {
    if line == "" || line[0] != '\t' then None
    else
      var r := line[1..];
      var k := UpTo(r, "=,");
      var numbered := k < |r| && r[k] == '=';
      var u := if numbered then r[k + 1..] else r[k..];
      var m := if numbered then UpTo(u, ",") else 0;
      if ", //" <= u[m..] then Some(Enumerator(r[..k], if numbered then Some(u[..m]) else None, u[m..][4..])) else None
  }

  lemma {:induction false} UpToEnd(s: string, stops: string, x: string)
    requires (forall i :: 0 <= i < |s| ==> s[i] !in stops) && (x == "" || x[0] in stops)
    ensures UpTo(s + x, stops) == |s|
  {
    if s == "" {
      assert s + x == x;
    } else {
      assert (s + x)[1..] == s[1..] + x;
      UpToEnd(s[1..], stops, x);
    }
  }

  lemma ReadUnnumbered(name: string, tail: string)
    requires (forall i :: 0 <= i < |name| ==> name[i] !in "=,") && ", //" <= tail
    ensures ReadEnumerator("\t" + (name + tail)) == Some(Enumerator(name, None, tail[4..]))
  {
    var r := name + tail;
    assert ("\t" + r)[1..] == r;
    UpToEnd(name, "=,", tail);
    hide UpTo;
    assert r[..|name|] == name && r[|name|..] == tail && tail[0] == ',' && r[|name|] == ',';
    assert tail[0..] == tail;
  }

  lemma ReadNumbered(name: string, number: string, tail: string)
    requires (forall i :: 0 <= i < |name| ==> name[i] !in "=,") && ", //" <= tail
    requires forall i :: 0 <= i < |number| ==> number[i] !in ","
    ensures ReadEnumerator("\t" + (name + ("=" + (number + tail)))) == Some(Enumerator(name, Some(number), tail[4..]))
  {
    var u := number + tail;
    var r := name + ("=" + u);
    assert ("\t" + r)[1..] == r;
    UpToEnd(name, "=,", "=" + u);
    UpToEnd(number, ",", tail);
    hide UpTo;
    assert r[..|name|] == name && r[|name|] == '=' && r[|name| + 1..] == u;
    assert u[..|number|] == number && u[|number|..] == tail;
  }

  /** The line of a protocol says its name, its number unless that is left to the compiler, and its note. */
  lemma NumberLineSays(p: Protocol)
    requires ',' !in p.name && '=' !in p.name && ',' !in p.number
    ensures ReadEnumerator(NumberLine(p)) ==
              Some(Enumerator(p.name, if p.number == "auto" then None else Some(p.number), p.note))
  {
    NumberLineIs(p.name, if p.number == "auto" then "" else "=" + p.number, p.note);
    var tail := ", //" + p.note;
    TailIs(p.note);
    hide ReadEnumerator;
    if p.number == "auto" {
      ReadUnnumbered(p.name, tail);
      assert "" + tail == tail;
    } else {
      ReadNumbered(p.name, p.number, tail);
      ConcatAssoc("=", p.number, tail);
    }
  }

  lemma TailIs(note: string)
    ensures ", //" <= ", //" + note && (", //" + note)[4..] == note
  {
  }

  lemma NumberLineIs(name: string, number: string, note: string)
    ensures "\t" + name + number + ", //" + note == "\t" + (name + (number + (", //" + note)))
  {
    var tail := ", //" + note;
    ConcatAssoc("\t" + name + number, ", //", note);
    ConcatAssoc("\t" + name, number, tail);
    ConcatAssoc("\t", name, number + tail);
  }

  /** The line of an answer says the name with an `S` in front instead of its first letter. */
  lemma AnswerLineSays(p: Protocol)
    requires p.answers && p.name != ""
    ensures var line := AnswerLine(p);
            |line| == |p.name| + 2 && line[0] == '\t' && line[1] == 'S' && line[|line| - 1] == ','
            && line[2..|line| - 1] == p.name[1..]
  {
  }

  /** The line of a handler says its object file, and that the list goes on. */
  lemma ObjectLineSays(p: Protocol)
    ensures var line, k := ObjectLine(p), |TAB3 + "handler/"|;
            |line| == k + |p.handler| + 4 && line[..k] == TAB3 + "handler/"
            && line[k..k + |p.handler|] == p.handler && line[k + |p.handler|..] == ".o \\"
  {
    var h, e := TAB3 + "handler/", ".o \\";
    assert ObjectLine(p) == h + p.handler + e;
    assert (h + p.handler + e)[..|h|] == h;
  }

  /** `x` has gone in right in front of the first line with the flag. */
  ghost predicate InFront(t: string, u: string, flag: string, x: string) {
    var ls, k := Lines(t), FirstWith(Lines(t), flag);
    Lines(u) == ls[..k] + Lines(x) + ls[k..] + [""]
  }

  /** Or right behind it. */
  ghost predicate Behind(t: string, u: string, flag: string, x: string) {
    var ls, k := Lines(t), FirstWith(Lines(t), flag);
    k < |ls| && Lines(u) == ls[..k + 1] + Lines(x) + ls[k + 1..] + [""]
  }

  lemma BesideIs(t: string, c: Call)
    requires !c.again && !Present(t, c.check) && Present(t, c.flag)
    ensures if c.after then Behind(t, Rewritten(t, c), c.flag, c.content) else InFront(t, Rewritten(t, c), c.flag, c.content)
  {
    hide Lines, Rewritten, Has, FirstWith;
    Beside(t, c);
  }

  /** Where each call of the generator puts its text when it is not there yet: the number and the answer in front of the
      first `};`, the handler behind `virtual.o`, the structure and the enumeration behind their flags. */
  lemma Placement(t: string, p: Protocol, i: nat)
    requires i < 5 && !Present(t, CallsOf(p)[i].check) && Present(t, CallsOf(p)[i].flag)
    ensures var u := Rewritten(t, CallsOf(p)[i]);
            match i
            case 0 => InFront(t, u, "};", NumberLine(p))
            case 1 => InFront(t, u, "};", AnswerLine(p))
            case 2 => Behind(t, u, "virtual.o", ObjectLine(p))
            case 3 => Behind(t, u, "// structs", CallsOf(p)[3].content)
            case _ => Behind(t, u, "// enums", CallsOf(p)[4].content)
  {
    BesideIs(t, CallsOf(p)[i]);
    hide InFront, Behind, Rewritten, NumberLine, AnswerLine, ObjectLine, StructCheck, EnumCheck;
  }

  /** And the calls `main` starts with: the two flags behind the first `};`, the include in front of the pragma. */
  lemma MainPlacement(t: string, i: nat)
    requires i < 3 && !Present(t, MainCalls()[i].check) && Present(t, MainCalls()[i].flag)
    ensures var u := Rewritten(t, MainCalls()[i]);
            match i
            case 0 => Behind(t, u, "};", "// structs")
            case 1 => Behind(t, u, "};", "// enums")
            case _ => InFront(t, u, "#pragma pack(1)", "#include <string.h>")
  {
    BesideIs(t, MainCalls()[i]);
    hide InFront, Behind, Rewritten;
  }

  lemma LineInside(a: string, b: string, z: string, line: string)
    requires line in Lines(b)
    ensures Present(a + "\n" + b + "\n" + z, line)
  {
    hide Lines;
    var t := a + "\n" + b;
    LinesJoin(t, z);
    LinesJoin(a, b);
    var i :| 0 <= i < |Lines(b)| && Lines(b)[i] == line;
    var ls := Lines(t + "\n" + z);
    assert ls[|Lines(a)| + i] == line;
    HasItself(line);
    SomeLine(ls, |Lines(a)| + i, line);
  }

  lemma HasItself(line: string)
    ensures Has(line, line)
  {
  }

  lemma StructCall(p: Protocol)
    ensures var c := CallsOf(p)[3];
            c.content == "\n" + ("//" + p.structNote) + "\n" + StructCheck(p) + "\n" + p.body + "};\n"
            && c.check == StructCheck(p) && c.flag == "// structs" && !c.again
  {
    assert "\n//" + p.structNote == "\n" + ("//" + p.structNote);
    hide EnumCheck, StructCheck, NumberLine, AnswerLine, ObjectLine;
  }

  /** The call for a structure that is not there puts every line of it into the header: the note, the members, the end. */
  lemma StructureIn(t: string, p: Protocol, members: string, line: string)
    requires p.body == members + "\n" && '\n' !in p.structNote
    requires !Present(t, StructCheck(p)) && Present(t, "// structs")
    requires line == "//" + p.structNote || line in Lines(members) || line == "};"
    ensures Present(Rewritten(t, CallsOf(p)[3]), line)
  {
    hide *;
    StructCall(p);
    LinesOfPart("//" + p.structNote, StructCheck(p), members, CallsOf(p)[3].content, line);
    ContentPresent(t, CallsOf(p)[3], line);
  }

  lemma LinesOfPart(n: string, h: string, members: string, content: string, line: string)
    requires content == "\n" + n + "\n" + h + "\n" + (members + "\n") + "};\n" && '\n' !in n
    requires line == n || line in Lines(members) || line == "};"
    ensures Present(content, line)
  {
    OneLines(n);
    hide *;
    var m := members + "\n";
    if line == n {
      LineInside("", n, h + "\n" + m + "};\n", line);
      FirstPart(n, h, m);
    } else if line == "};" {
      LineInside("\n" + n + "\n" + h + "\n" + members, "};", "", line);
      LastPart("\n" + n + "\n" + h + "\n", members);
    } else {
      LineInside("\n" + n + "\n" + h, members, "};\n", line);
      MiddlePart("\n" + n + "\n" + h + "\n", members);
    }
  }

  lemma OneLines(n: string)
    requires '\n' !in n
    ensures n in Lines(n) && "};" in Lines("};")
  {
    assert Lines(n) == [n] && Lines("};") == ["};"];
    hide Lines;
    assert [n][0] == n && ["};"][0] == "};";
  }

  lemma FirstPart(n: string, h: string, m: string)
    ensures "\n" + n + "\n" + h + "\n" + m + "};\n" == "" + "\n" + n + "\n" + (h + "\n" + m + "};\n")
  {
  }

  lemma LastPart(a: string, members: string)
    ensures a + (members + "\n") + "};\n" == (a + members) + "\n" + "};" + "\n" + ""
  {
  }

  lemma MiddlePart(a: string, members: string)
    ensures a + (members + "\n") + "};\n" == a + members + "\n" + "};\n"
  {
  }

  lemma EnumCall(p: Protocol)
    requires p.hasEnum
    ensures var c := CallsOf(p)[4];
            c.content == "\n" + ("//" + p.enumNote) + "\n" + EnumCheck(p) + "\n" + p.enumBody + "};\n"
            && c.check == EnumCheck(p) && c.flag == "// enums" && !c.again
  {
    assert "\n//" + p.enumNote == "\n" + ("//" + p.enumNote);
    hide EnumCheck, StructCheck, NumberLine, AnswerLine, ObjectLine;
  }

  /** And so for an enumeration. */
  lemma EnumerationIn(t: string, p: Protocol, members: string, line: string)
    requires p.hasEnum && p.enumBody == members + "\n" && '\n' !in p.enumNote
    requires !Present(t, EnumCheck(p)) && Present(t, "// enums")
    requires line == "//" + p.enumNote || line in Lines(members) || line == "};"
    ensures Present(Rewritten(t, CallsOf(p)[4]), line)
  {
    hide *;
    EnumCall(p);
    LinesOfPart("//" + p.enumNote, EnumCheck(p), members, CallsOf(p)[4].content, line);
    ContentPresent(t, CallsOf(p)[4], line);
  }

  lemma CallsInclude(ps: seq<Protocol>, p: Protocol, c: Call, f: string)
    requires p in ps && c in CallsOf(p) && c.file == f
    ensures c in CallsFor(GeneratorCalls(ps), f)
  {
    InAll(ps, p, c);
    assert c in GeneratorCalls(ps);
    InCallsFor(GeneratorCalls(ps), c, f);
  }

  lemma {:induction false} InAll(ps: seq<Protocol>, p: Protocol, c: Call)
    requires p in ps && c in CallsOf(p)
    ensures c in AllCallsOf(ps)
  {
    hide CallsOf;
    if p != ps[0] {
      InAll(ps[1..], p, c);
    }
  }

  lemma {:induction false} InCallsFor(cs: seq<Call>, c: Call, f: string)
    requires c in cs && c.file == f
    ensures c in CallsFor(cs, f)
  {
    if c != cs[0] {
      InCallsFor(cs[1..], c, f);
    }
  }

  lemma CheckIn(t: string, cs: seq<Call>, c: Call)
    requires Once(cs) && (forall i :: 0 <= i < |cs| ==> Ready(t, cs, i)) && c in cs
    ensures Present(RewrittenAll(t, cs), c.check)
  {
    hide Present, Ready, RewrittenAll;
    ChecksPresent(t, cs, |cs|);
    assert cs[..|cs|] == cs;
  }

  /** After a run of the generator every protocol is in both files: its number, what it answers, its structure and its
      enumeration in the header, its handler in the makefile. */
  lemma Generated(ps: seq<Protocol>, header: string, makefile: string, p: Protocol)
    requires (forall i :: 0 <= i < |ps| ==> OneLine(ps[i])) && p in ps
    requires Furnished(header, CallsFor(GeneratorCalls(ps), HEADER))
    requires Furnished(makefile, CallsFor(GeneratorCalls(ps), MAKEFILE))
    ensures var h := RewrittenAll(header, CallsFor(GeneratorCalls(ps), HEADER));
            Present(h, NumberLine(p)) && Present(h, AnswerLine(p)) && Present(h, StructCheck(p)) && Present(h, EnumCheck(p))
    ensures Present(RewrittenAll(makefile, CallsFor(GeneratorCalls(ps), MAKEFILE)), ObjectLine(p))
  {
    var cs, ms := CallsFor(GeneratorCalls(ps), HEADER), CallsFor(GeneratorCalls(ps), MAKEFILE);
    var cp := CallsOf(p);
    assert cp[0].check == NumberLine(p) && cp[1].check == AnswerLine(p) && cp[2].check == ObjectLine(p)
        && cp[3].check == StructCheck(p) && cp[4].check == EnumCheck(p);
    assert cp[0].file == cp[1].file == cp[3].file == cp[4].file == HEADER && cp[2].file == MAKEFILE && |cp| == 5;
    assert forall i :: 0 <= i < 5 ==> cp[i] in cp;
    assert MainCalls()[0].flag == MainCalls()[1].flag == "};" && MainCalls()[0].check == "// structs"
        && MainCalls()[1].check == "// enums" && |MainCalls()| == 3;
    hide *;
    CallsByFile(ps);
    HeaderReady(header, cs);
    MakefileReady(makefile, ms);
    forall i | i in {0, 1, 3, 4} ensures Present(RewrittenAll(header, cs), cp[i].check) {
      CallsInclude(ps, p, cp[i], HEADER);
      CheckIn(header, cs, cp[i]);
    }
    CallsInclude(ps, p, cp[2], MAKEFILE);
    CheckIn(makefile, ms, cp[2]);
  }
}
