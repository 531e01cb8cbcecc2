/** `TiXmlString`: the growable buffer of the XML engine. Lengths and capacities are
    unbounded, and memory is not released. */
module TinyStr {

  import opened XmlChars

  /** `Rep`: a size, a capacity and the bytes, with room for a terminator. */
  class Rep {
    var size: nat
    const capacity: nat
    const str: array<char>

    constructor (size: nat, capacity: nat)
      requires size <= capacity
      ensures this.size == size && this.capacity == capacity && fresh(str) && Valid()
    {
      this.size, this.capacity := size, capacity;
      var bytes := new char[capacity + 1];
      str := bytes;
      new;
      str[size] := NUL;
    }

    predicate Valid()
      reads this, str
    {
      str.Length == capacity + 1 && size <= capacity && str[size] == NUL
    }
  }

  /** The numbers of a string: its size, its capacity, the bytes it has had copied by
      reallocation since it was made and how often it has been reallocated. */
  datatype Cost = Cost(size: nat, capacity: nat, copied: nat, moves: nat)

  class TiXmlString {
    /** The representation that all empty strings without a buffer share. */
    const nullRep: Rep
    var rep: Rep
    ghost var copied: nat
    ghost var moves: nat

    ghost predicate Valid()
      reads this, rep, rep.str, nullRep, nullRep.str
    {
      && rep.Valid() && nullRep.Valid() && nullRep.capacity == 0
      && (rep != nullRep ==> rep.capacity > 0 && rep.str != nullRep.str)
    }

    /** What the string says. */
    function Contents(): string
      requires Valid()
      reads this, rep, rep.str, nullRep, nullRep.str
    {
      rep.str[..rep.size]
    }

    ghost function Costs(): Cost
      requires Valid()
      reads this, rep, rep.str, nullRep, nullRep.str
    {
      Cost(rep.size, rep.capacity, copied, moves)
    }

    constructor (nullRep: Rep)
      requires nullRep.Valid() && nullRep.capacity == 0
      ensures Valid() && this.nullRep == nullRep && rep == nullRep
      ensures Contents() == "" && Costs() == Cost(0, 0, 0, 0)
    {
      this.nullRep := nullRep;
      rep := nullRep;
      copied, moves := 0, 0;
    }

    /** `init`: a buffer of this capacity, or the shared one; what it holds is not defined yet. */
    method Init(size: nat, capacity: nat)
      requires Valid() && size <= capacity
      modifies this`rep
      ensures Valid() && rep.size == size && rep.capacity == capacity
      ensures if capacity > 0 then fresh(rep) && fresh(rep.str) else rep == nullRep
    {
      if capacity > 0 {
        rep := new Rep(size, capacity);
      } else {
        rep := nullRep;
      }
    }

    /** `set_size`. */
    method SetSize(size: nat)
      requires rep.str.Length == rep.capacity + 1 && size <= rep.capacity
      modifies rep`size, rep.str
      ensures rep.size == size && rep.Valid()
      ensures forall i :: 0 <= i < rep.str.Length && i != size ==> rep.str[i] == old(rep.str[i])
    {
      rep.size := size;
      rep.str[size] := NUL;
    }

    /** `reserve`. */
    method Reserve(capacity: nat)
      requires Valid()
      modifies this
      ensures Valid() && Contents() == old(Contents())
      ensures capacity <= old(rep.capacity) ==> rep == old(rep) && Costs() == old(Costs())
      ensures capacity > old(rep.capacity) ==>
                && fresh(rep) && fresh(rep.str)
                && Costs() == Cost(old(rep.size), capacity, old(copied) + old(rep.size), old(moves) + 1)
    {
      if capacity > rep.capacity {
        var data, length := rep.str, rep.size;
        Init(length, capacity);
        forall i | 0 <= i < length {
          rep.str[i] := data[i];
        }
        copied, moves := copied + length, moves + 1;
      }
    }

    /** `assign`: a buffer that is too small, or more than three times too big, gives way to a new one. */
    method Assign(str: string)
      requires Valid()
      modifies this`rep, rep`size, rep.str
      ensures Valid() && Contents() == str
      ensures nullRep.size == old(nullRep.size) && nullRep.str[..] == old(nullRep.str[..])
      ensures var cap := old(rep.capacity);
              rep.capacity == if |str| > cap || cap > 3 * (|str| + 8) then |str| else cap
      ensures rep != old(rep) ==> rep == nullRep || (fresh(rep) && fresh(rep.str))
    {
      var cap := rep.capacity;
      if |str| > cap || cap > 3 * (|str| + 8) {
        Init(|str|, |str|);
        forall i | 0 <= i < |str| {
          rep.str[i] := str[i];
        }
      } else {
        forall i | 0 <= i < |str| {
          rep.str[i] := str[i];
        }
        SetSize(|str|);
      }
      assert rep.str[..rep.size] == str;
    }

    /** `append` of characters outside the buffer. */
    method Append(str: string)
      requires Valid()
      modifies this, rep`size, rep.str
      ensures Valid() && Contents() == old(Contents()) + str
      ensures Costs() == Grown(old(Costs()), |str|)
      ensures var n, cap := old(rep.size) + |str|, old(rep.capacity);
              rep.size == n && rep.capacity == if n > cap then n + cap else cap
      ensures nullRep.size == old(nullRep.size) && nullRep.str[..] == old(nullRep.str[..])
      ensures rep == old(rep) || (fresh(rep) && fresh(rep.str))
    {
      var newsize := rep.size + |str|;
      if newsize > rep.capacity {
        Reserve(newsize + rep.capacity);
      }
      ghost var was := Contents();
      var finish := rep.size;
      forall i | 0 <= i < |str| {
        rep.str[finish + i] := str[i];
      }
      SetSize(newsize);
      assert rep.str[..newsize] == was + str;
    }

    /** `find`: the search stops at the first terminator, which a string may hold inside. */
    method Find(tofind: char, offset: nat) returns (k: nat)
      requires Valid()
      ensures k < |Contents()| ==>
                && offset <= k && Contents()[k] == tofind != NUL
                && forall i :: offset <= i < k ==> Contents()[i] != tofind && Contents()[i] != NUL
      ensures k >= |Contents()| ==>
                forall i :: offset <= i < |Contents()| && Contents()[i] == tofind ==>
                              tofind == NUL || exists j :: offset <= j < i && Contents()[j] == NUL
    {
      k := rep.size;
      if offset >= rep.size {
        return;
      }
      var p := offset;
      while rep.str[p] != NUL
        invariant offset <= p <= rep.size
        invariant forall i :: offset <= i < p ==> rep.str[i] != tofind && rep.str[i] != NUL
        decreases rep.size - p
      {
        if rep.str[p] == tofind {
          return p;
        }
        p := p + 1;
      }
      if p < rep.size {
        assert Contents()[p] == NUL;
      }
    }
  }

  /** `operator+`. */
  method Plus(a: TiXmlString, b: string) returns (tmp: TiXmlString)
    requires a.Valid()
    modifies a.nullRep`size, a.nullRep.str
    ensures fresh(tmp) && tmp.nullRep == a.nullRep && tmp.Valid() && a.Valid()
    ensures tmp.Contents() == a.Contents() + b && a.Contents() == old(a.Contents())
    ensures tmp.rep.capacity == |a.Contents()| + |b|
  {
    tmp := new TiXmlString(a.nullRep);
    var data := a.Contents();
    tmp.Reserve(|data| + |b|);
    tmp.Append(data);
    assert tmp.Contents() == data;
    tmp.Append(b);
  }

  // ----- the cost of growing

  /** The numbers after appending `len` characters. */
  function Grown(c: Cost, len: nat): Cost {
    var newsize := c.size + len;
    if newsize > c.capacity then Cost(newsize, newsize + c.capacity, c.copied + c.size, c.moves + 1)
    else c.(size := newsize)
  }

  function GrownBy(c: Cost, lens: seq<nat>): Cost
    decreases lens
  {
    if lens == [] then c else GrownBy(Grown(c, lens[0]), lens[1..])
  }

  function Sum(lens: seq<nat>): nat {
    if lens == [] then 0 else lens[0] + Sum(lens[1..])
  }

  function Pow2(n: nat): nat {
    if n == 0 then 1 else 2 * Pow2(n - 1)
  }

  /** What every append keeps: copying is paid for by capacity, capacity by size, and capacity doubles. */
  predicate Paid(c: Cost) {
    c.size <= c.capacity <= 2 * c.size && c.copied <= c.capacity && Pow2(c.moves) <= c.capacity + 1
  }

  lemma GrownPaid(c: Cost, len: nat)
    requires Paid(c)
    ensures Paid(Grown(c, len))
  {
  }

  /** Over any run of appends, from an empty string on: the bytes copied by reallocation are at most the
      capacity, which is at most twice the length, and there are logarithmically many reallocations. */
  lemma {:induction false} RunPaid(c: Cost, lens: seq<nat>)
    requires Paid(c)
    ensures Paid(GrownBy(c, lens)) && GrownBy(c, lens).size == c.size + Sum(lens)
    decreases lens
  {
    if lens != [] {
      GrownPaid(c, lens[0]);
      RunPaid(Grown(c, lens[0]), lens[1..]);
    }
  }

  function Flat(parts: seq<string>): string {
    if parts == [] then "" else parts[0] + Flat(parts[1..])
  }

  lemma {:induction false} FlatSnoc(parts: seq<string>, s: string)
    ensures Flat(parts + [s]) == Flat(parts) + s
  {
    if parts == [] {
      assert [] + [s] == [s] && [s][1..] == [];
    } else {
      assert (parts + [s])[1..] == parts[1..] + [s];
      FlatSnoc(parts[1..], s);
      assert (parts[0] + Flat(parts[1..])) + s == parts[0] + (Flat(parts[1..]) + s);
    }
  }

  /** A run of appends to a new string. */
  method AppendAll(nullRep: Rep, parts: seq<string>) returns (s: TiXmlString)
    requires nullRep.Valid() && nullRep.capacity == 0
    modifies nullRep`size, nullRep.str
    ensures fresh(s) && s.Valid() && s.Contents() == Flat(parts)
    ensures s.copied <= s.rep.capacity <= 2 * |s.Contents()| && Pow2(s.moves) <= s.rep.capacity + 1
    ensures nullRep.size == old(nullRep.size) && nullRep.str[..] == old(nullRep.str[..])
  {
    s := new TiXmlString(nullRep);
    for i := 0 to |parts|
      invariant fresh(s) && s.Valid() && s.nullRep == nullRep
      invariant s.rep == nullRep || (fresh(s.rep) && fresh(s.rep.str))
      invariant s.Contents() == Flat(parts[..i]) && Paid(s.Costs())
      invariant nullRep.size == old(nullRep.size) && nullRep.str[..] == old(nullRep.str[..])
    {
      FlatSnoc(parts[..i], parts[i]);
      assert parts[..i + 1] == parts[..i] + [parts[i]];
      GrownPaid(s.Costs(), |parts[i]|);
      s.Append(parts[i]);
    }
    assert parts[..|parts|] == parts;
  }
}
