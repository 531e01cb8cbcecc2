/** The attributes of an element: a circular doubly linked list through a sentinel,
    which stands for an insertion-ordered map from names to values. */
module AttributeSet {
  import opened XmlTree

  class Attribute {
    var name: string
    var value: string
    var prev: Attribute?
    var next: Attribute?

    constructor ()
      ensures name == "" && value == "" && prev == null && next == null
    {
      name, value, prev, next := "", "", null, null;
    }
  }

  /** Neighbours of the sequence point at each other. */
  ghost predicate Chain(ring: seq<Attribute>)
    reads ring`prev, ring`next
  {
    forall i, j {:trigger ring[i], ring[j]} :: 0 <= i < j < |ring| && j == i + 1 ==>
      ring[i].next == ring[j] && ring[j].prev == ring[i]
  }

  predicate Distinct(s: seq<Attribute>) {
    forall i, j :: 0 <= i < j < |s| ==> s[i] != s[j]
  }

  lemma DropNothing(attrs: seq<Attr>, name: string)
    requires !HasAttr(attrs, name)
    ensures Drop(attrs, name) == attrs
  {
  }

  /** What the nodes say, in order. */
  function Contents(items: seq<Attribute>): (c: seq<Attr>)
    reads items`name, items`value
    ensures |c| == |items|
    ensures forall i {:trigger c[i]} :: 0 <= i < |items| ==> c[i] == Attr(items[i].name, items[i].value)
  {
    if items == [] then [] else Contents(items[..|items| - 1]) + [Attr(items[|items| - 1].name, items[|items| - 1].value)]
  }

  /** `attrs` without the attribute called `name`, if there is one. */
  function Drop(attrs: seq<Attr>, name: string): seq<Attr> {
    var k := FindAttr(attrs, name);
    if k < |attrs| then attrs[..k] + attrs[k + 1..] else attrs
  }

  class TiXmlAttributeSet {
    const sentinel: Attribute
    ghost var items: seq<Attribute>

    /** The list as it is walked, the sentinel at both ends. */
    ghost function Ring(): seq<Attribute>
      reads this`items
    {
      [sentinel] + items + [sentinel]
    }

    ghost predicate Linked()
      reads this`items, sentinel`prev, sentinel`next, items`prev, items`next
    {
      Distinct(items) && sentinel !in items && Chain(Ring())
    }

    ghost predicate Valid()
      reads this`items, sentinel, items
    {
      && Linked()
      && sentinel.name == "" && sentinel.value == ""
      && UniqueNames(Contents(items))
    }

    constructor ()
      ensures Valid() && items == [] && fresh(sentinel)
    {
      sentinel := new Attribute();
      items := [];
      new;
      sentinel.next := sentinel;
      sentinel.prev := sentinel;
    }

    lemma ItemAt(i: nat)
      requires Valid() && i < |items|
      ensures items[i] == Ring()[i + 1] && items[i].prev == Ring()[i] && items[i].next == Ring()[i + 2]
      ensures items[i] != sentinel
      ensures forall k {:trigger Ring()[k]} :: 0 < k < |items| + 1 ==> (Ring()[k] == items[i] <==> k == i + 1)
    {
      assert Ring()[i + 1] == items[i];
      assert forall k {:trigger Ring()[k]} :: 0 < k < |items| + 1 ==> Ring()[k] == items[k - 1];
    }

    /** The sentinel's neighbours are the ends of the list. */
    lemma Ends()
      requires Valid()
      ensures sentinel.next == Ring()[1] && sentinel.prev == Ring()[|items|]
      ensures forall k {:trigger Ring()[k]} :: 0 < k < |items| + 1 ==> Ring()[k] == items[k - 1]
      ensures Ring()[0] == sentinel && Ring()[|items| + 1] == sentinel
    {
      var ring := Ring();
      assert ring[0] == sentinel && ring[|items| + 1] == sentinel;
      assert ring[1] == ring[1] && ring[|items|] == ring[|items|];
    }

    /** `Find`: the node called `name`, or null. */
    method Find(name: string) returns (node: Attribute?)
      requires Valid()
      ensures node == null <==> !HasAttr(Contents(items), name)
      ensures node != null ==> var k := FindAttr(Contents(items), name); node == items[k] && node.name == name
      ensures node != null ==> node in items
    {
      ghost var k: nat := 0;
      Ends();
      node := sentinel.next;
      while node != sentinel
        invariant k <= |items| && node == Ring()[k + 1]
        invariant forall i :: 0 <= i < k ==> items[i].name != name
        decreases |items| - k
      {
        ItemAt(k);
        if node.name == name {
          FindIs(Contents(items), name, k);
          return;
        }
        node := node.next;
        k := k + 1;
      }
      FindNone(Contents(items), name, k);
      node := null;
    }

    /** The pointers of `Add`. */
    method LinkLast(addMe: Attribute)
      requires Valid() && addMe !in items && addMe != sentinel
      modifies this`items, addMe`next, addMe`prev, sentinel`prev, sentinel`next, items`next
      ensures items == old(items) + [addMe] && Chain(Ring())
    {
      ghost var was, ring := items, Ring();
      ghost var front := ring[..|was| + 1];
      Ends();
      FrontIs(was);
      ChainCut(ring, |was| + 1);
      addMe.next := sentinel;
      addMe.prev := sentinel.prev;
      sentinel.prev.next := addMe;
      sentinel.prev := addMe;
      items := items + [addMe];
      assert Chain(front) by { assert old(Chain(front)); }
      ChainJoin(front, [addMe, sentinel]);
      assert Ring() == front + [addMe, sentinel];
    }

    lemma FrontIs(was: seq<Attribute>)
      ensures ([sentinel] + was + [sentinel])[..|was| + 1] == [sentinel] + was
    {
    }

    /** `Add`: a node of a new name becomes the last one. */
    method Add(addMe: Attribute)
      requires Valid() && addMe !in items && addMe != sentinel
      requires !HasAttr(Contents(items), addMe.name)
      modifies this`items, addMe`next, addMe`prev, sentinel`prev, sentinel`next, items`next
      ensures Valid() && items == old(items) + [addMe]
      ensures Contents(items) == old(Contents(items)) + [Attr(addMe.name, addMe.value)]
    {
      ghost var was := items;
      LinkLast(addMe);
      assert items[..|items| - 1] == was;
    }

    /** The pointers of `Remove`. */
    method Unlink(node: Attribute, ghost k: nat)
      requires Valid() && k < |items| && items[k] == node
      modifies this`items, node`next, node`prev, sentinel`prev, sentinel`next, items`next, items`prev
      ensures items == old(items)[..k] + old(items)[k + 1..] && Chain(Ring())
      ensures node.next == null && node.prev == null
    {
      ghost var was, ring := items, Ring();
      ghost var front, back := ring[..k + 1], ring[k + 2..];
      ItemAt(k);
      RingParts(was, k);
      ChainCut(ring, k + 1);
      ChainRest(ring, k + 2);
      node.prev.next := node.next;
      node.next.prev := node.prev;
      node.next := null;
      node.prev := null;
      items := was[..k] + was[k + 1..];
      assert Chain(front) by { assert old(Chain(front)); }
      assert Chain(back) by { assert old(Chain(back)); }
      ChainJoin(front, back);
    }

    /** The ring in front of and behind its `k`-th item. */
    lemma RingParts(was: seq<Attribute>, k: nat)
      requires k < |was|
      ensures var ring := [sentinel] + was + [sentinel];
              && [sentinel] + (was[..k] + was[k + 1..]) + [sentinel] == ring[..k + 1] + ring[k + 2..]
              && |ring| == |was| + 2
    {
    }

    /** The search of `Remove`; a node that is not in the list trips the source's assert. */
    method Locate(removeMe: Attribute) returns (node: Attribute, ghost k: nat)
      requires Valid() && removeMe in items
      ensures k < |items| && node == removeMe == items[k]
    {
      k := 0;
      ghost var m :| 0 <= m < |items| && items[m] == removeMe;
      Ends();
      assert Ring()[1] == items[0];
      node := sentinel.next;
      while node != removeMe
        invariant k <= m && node == items[k]
        decreases m - k
      {
        ItemAt(k);
        assert Ring()[k + 2] == items[k + 1];
        node := node.next;
        k := k + 1;
      }
    }

    /** `Remove`. */
    method Remove(removeMe: Attribute)
      requires Valid() && removeMe in items
      modifies this`items, removeMe`next, removeMe`prev, sentinel`prev, sentinel`next, items`next, items`prev
      ensures Valid() && removeMe !in items && removeMe.next == null && removeMe.prev == null
      ensures Contents(items) == Drop(old(Contents(items)), removeMe.name)
      ensures forall n :: n in items ==> n in old(items)
    {
      ghost var was, c := items, Contents(items);
      var node, k := Locate(removeMe);
      Unlink(node, k);
      hide Chain;
      Dropped(was, c, k);
    }

    /** The list without its `k`-th node says what the contents without its name say. */
    lemma Dropped(was: seq<Attribute>, c: seq<Attr>, k: nat)
      requires k < |was| && |c| == |was| && items == was[..k] + was[k + 1..] && Distinct(was) && UniqueNames(c)
      requires forall i {:trigger was[i]} :: 0 <= i < |was| ==> was[i].name == c[i].name && was[i].value == c[i].value
      ensures Contents(items) == Drop(c, was[k].name) && UniqueNames(Contents(items))
      ensures Distinct(items) && was[k] !in items && forall n :: n in items ==> n in was
    {
      FindIs(c, was[k].name, k);
      assert Contents(items) == c[..k] + c[k + 1..];
    }

    /** `FindOrCreate`: a missing attribute is added while its name is still empty, so `Add` asserts that
        there is none of an empty name. */
    method FindOrCreate(name: string) returns (node: Attribute?)
      requires Valid()
      requires HasAttr(Contents(items), name) || !HasAttr(Contents(items), "")
      modifies this`items, sentinel`prev, sentinel`next, items`next
      ensures Valid() && node != null && node in items && node.name == name
      ensures HasAttr(old(Contents(items)), name) ==> items == old(items)
      ensures !HasAttr(old(Contents(items)), name) ==>
                fresh(node) && items == old(items) + [node] && node.value == ""
      ensures Contents(items) == Apply(old(Contents(items)), FindOrCreateOp(name))
    {
      hide *;
      CreatedIs(Contents(items), name);
      node := Find(name);
      if node == null {
        node := new Attribute();
        ghost var was, c := items, Contents(items);
        ValidNames();
        Add(node);
        SetName(node, name, was, c);
      }
    }

    lemma ValidNames()
      requires Valid()
      ensures UniqueNames(Contents(items))
    {
    }

    /** `SetName` on the node that has just been added. */
    method SetName(node: Attribute, name: string, ghost was: seq<Attribute>, ghost c: seq<Attr>)
      requires Valid() && items == was + [node] && |c| == |was| && UniqueNames(c) && !HasAttr(c, name)
      requires Contents(items) == c + [Attr(node.name, node.value)]
      modifies node`name
      ensures Valid() && node.name == name && node in items && Contents(items) == c + [Attr(name, node.value)]
    {
      assert items[|was|] == node && node != sentinel;
      assert forall i {:trigger was[i]} :: 0 <= i < |was| ==> items[i] == was[i] && was[i] != node;
      assert forall i {:trigger was[i]} :: 0 <= i < |was| ==> Contents(items)[i] == c[i] && was[i].name == c[i].name;
      node.name := name;
      hide TiXmlAttributeSet.Linked;
      hide UniqueNames;
      Renamed(was, node, c);
    }

    /** A new last attribute keeps the names unique. */
    lemma Renamed(was: seq<Attribute>, node: Attribute, c: seq<Attr>)
      requires items == was + [node] && |c| == |was| && UniqueNames(c) && !HasAttr(c, node.name)
      requires forall i {:trigger was[i]} :: 0 <= i < |was| ==> was[i].name == c[i].name
      ensures UniqueNames(Contents(items))
    {
      assert forall i :: 0 <= i < |c| ==> c[i].name != node.name;
    }

    /** `TiXmlElement::SetAttribute`. */
    method SetAttribute(name: string, value: string)
      requires Valid()
      requires HasAttr(Contents(items), name) || !HasAttr(Contents(items), "")
      modifies this`items, sentinel`prev, sentinel`next, items`next, items`value
      ensures Valid() && Contents(items) == Put(old(Contents(items)), Attr(name, value))
      ensures forall n :: n in items ==> n in old(items) || fresh(n)
    {
      hide TiXmlAttributeSet.Linked, UniqueNames, Put, FindAttr, Apply;
      var node := FindOrCreate(name);
      SetValue(node, value);
      hide TiXmlAttributeSet.Valid;
      PutIs(old(items), old(Contents(items)), node, Attr(name, value));
    }

    /** `TiXmlAttribute::SetValue` on a member. */
    method SetValue(node: Attribute, value: string)
      requires Valid() && node in items
      modifies node`value
      ensures Valid() && Distinct(items) && UniqueNames(Contents(items)) && node.value == value
    {
      assert node != sentinel;
      ghost var c := Contents(items);
      node.value := value;
      hide TiXmlAttributeSet.Linked;
      SameNames(c, Contents(items));
    }

    static lemma SameNames(c: seq<Attr>, d: seq<Attr>)
      requires UniqueNames(c) && |d| == |c| && forall i {:trigger d[i]} :: 0 <= i < |c| ==> d[i].name == c[i].name
      ensures UniqueNames(d)
    {
    }

    /** The list after `SetAttribute` is the old one with the attribute put. */
    lemma PutIs(was: seq<Attribute>, c: seq<Attr>, node: Attribute, a: Attr)
      requires |c| == |was| && Distinct(items) && UniqueNames(Contents(items))
      requires node.name == a.name && node.value == a.value && node in items
      requires HasAttr(c, a.name) ==> items == was
      requires !HasAttr(c, a.name) ==> items == was + [node]
      requires forall i {:trigger was[i]} :: 0 <= i < |was| ==>
        was[i].name == c[i].name && (was[i] != node ==> was[i].value == c[i].value)
      ensures Contents(items) == Put(c, a)
    {
      var now := Contents(items);
      var k := FindAttr(c, a.name);
      assert forall i :: 0 <= i < |c| && i != k ==> was[i] == items[i];
      if k < |c| {
        var m :| 0 <= m < |items| && items[m] == node;
        assert now[m].name == now[k].name;
      }
    }

    /** `RemoveAttribute`. */
    method RemoveAttribute(name: string)
      requires Valid()
      modifies this`items, sentinel`prev, sentinel`next, items`next, items`prev
      ensures Valid() && Contents(items) == Drop(old(Contents(items)), name)
      ensures forall n :: n in items ==> n in old(items)
    {
      hide *;
      var node := Find(name);
      if node != null {
        Remove(node);
      } else {
        DropNothing(Contents(items), name);
      }
    }

    /** The walk of a reader, `First` and then `Next` until it returns null. */
    method Attributes() returns (w: seq<Attr>)
      requires Valid()
      ensures w == Walk(Contents(items))
    {
      hide *;
      w := [];
      ghost var k: nat := 0;
      WalkStart(Contents(items));
      var node := First();
      while node != null
        invariant node != null ==> k < |items| && node == items[k] && k < |Walk(Contents(items))| && w == Contents(items)[..k]
        invariant node == null ==> w == Walk(Contents(items))
        decreases |items| - k, node != null
      {
        WalkPrefix(Contents(items), k + 1);
        assert Contents(items)[..k + 1] == Contents(items)[..k] + [Contents(items)[k]];
        w := w + [Attr(node.name, node.value)];
        node := Next(node, k);
        k := k + 1;
      }
    }

    /** `TiXmlAttribute::Next` of the `k`-th attribute. */
    method Next(node: Attribute, ghost k: nat) returns (next: Attribute?)
      requires Valid() && k < |items| && node == items[k]
      ensures next == if k + 1 < |items| && Contents(items)[k + 1] != Attr("", "") then items[k + 1] else null
    {
      ItemAt(k);
      assert k + 1 < |items| ==> Ring()[k + 2] == items[k + 1];
      assert Ring()[|items| + 1] == sentinel;
      next := if node.next.name == "" && node.next.value == "" then null else node.next;
    }

    method First() returns (node: Attribute?)
      requires Valid()
      ensures node == if items == [] then null else items[0]
    {
      Ends();
      node := if sentinel.next == sentinel then null else sentinel.next;
    }
  }

  lemma WalkStart(attrs: seq<Attr>)
    ensures if attrs == [] then Walk(attrs) == [] else 0 < |Walk(attrs)|
  {
  }

  lemma ChainCut(ring: seq<Attribute>, k: nat)
    requires Chain(ring) && k <= |ring|
    ensures Chain(ring[..k])
  {
  }

  lemma ChainRest(ring: seq<Attribute>, k: nat)
    requires Chain(ring) && k <= |ring|
    ensures Chain(ring[k..])
  {
  }

  lemma ChainJoin(a: seq<Attribute>, b: seq<Attribute>)
    requires Chain(a) && Chain(b)
    requires a != [] && b != [] ==> a[|a| - 1].next == b[0] && b[0].prev == a[|a| - 1]
    ensures Chain(a + b)
  {
    var ring := a + b;
    forall i, j | 0 <= i < j < |ring| && j == i + 1 ensures ring[i].next == ring[j] && ring[j].prev == ring[i] {
      if j < |a| {
        assert ring[i] == a[i] && ring[j] == a[j];
      } else if i >= |a| {
        assert ring[i] == b[i - |a|] && ring[j] == b[j - |a|];
      }
    }
  }

  lemma FindNone(attrs: seq<Attr>, name: string, k: nat)
    requires k == |attrs| && forall i :: 0 <= i < k ==> attrs[i].name != name
    ensures !HasAttr(attrs, name)
  {
  }

  lemma FindIs(attrs: seq<Attr>, name: string, k: nat)
    requires k < |attrs| && attrs[k].name == name
    requires forall i :: 0 <= i < k ==> attrs[i].name != name
    ensures FindAttr(attrs, name) == k
  {
  }

  // ----- every run of operations

  datatype Operation =
    | SetOp(name: string, value: string)
    | FindOrCreateOp(name: string)
    | RemoveOp(name: string)

  /** What one operation makes of the contents; a lookup changes nothing. */
  function Apply(attrs: seq<Attr>, op: Operation): seq<Attr> {
    match op
    case SetOp(name, value) => Put(attrs, Attr(name, value))
    case FindOrCreateOp(name) => if HasAttr(attrs, name) then attrs else attrs + [Attr(name, "")]
    case RemoveOp(name) => Drop(attrs, name)
  }

  function Run(ops: seq<Operation>): seq<Attr> {
    if ops == [] then [] else Apply(Run(ops[..|ops| - 1]), ops[|ops| - 1])
  }

  /** An insertion-ordered map. */
  datatype OrderedMap = OrderedMap(order: seq<string>, values: map<string, string>)

  function Without(order: seq<string>, name: string): seq<string> {
    if order == [] then []
    else if order[0] == name then order[1..]
    else [order[0]] + Without(order[1..], name)
  }

  function ApplyOrdered(m: OrderedMap, op: Operation): OrderedMap {
    match op
    case SetOp(name, value) =>
      OrderedMap(if name in m.values then m.order else m.order + [name], m.values[name := value])
    case FindOrCreateOp(name) =>
      if name in m.values then m else OrderedMap(m.order + [name], m.values[name := ""])
    case RemoveOp(name) => OrderedMap(Without(m.order, name), m.values - {name})
  }

  function RunOrdered(ops: seq<Operation>): OrderedMap {
    if ops == [] then OrderedMap([], map[]) else ApplyOrdered(RunOrdered(ops[..|ops| - 1]), ops[|ops| - 1])
  }

  function Names(attrs: seq<Attr>): (n: seq<string>)
    ensures |n| == |attrs|
    ensures forall i {:trigger n[i]} :: 0 <= i < |attrs| ==> n[i] == attrs[i].name
  {
    if attrs == [] then [] else [attrs[0].name] + Names(attrs[1..])
  }

  /** The list stands for the ordered map. */
  ghost predicate Represents(attrs: seq<Attr>, m: OrderedMap) {
    && m.order == Names(attrs)
    && (forall i {:trigger attrs[i]} :: 0 <= i < |attrs| ==> attrs[i].name in m.values && m.values[attrs[i].name] == attrs[i].value)
    && (forall n {:trigger n in m.values} :: n in m.values ==> HasAttr(attrs, n))
  }

  lemma {:induction false} WithoutNames(attrs: seq<Attr>, name: string)
    ensures Names(Drop(attrs, name)) == Without(Names(attrs), name)
  {
    if attrs != [] && attrs[0].name != name {
      WithoutNames(attrs[1..], name);
      var k := FindAttr(attrs, name);
      var d := Drop(attrs[1..], name);
      assert Drop(attrs, name) == [attrs[0]] + d;
      assert Names([attrs[0]] + d) == [attrs[0].name] + Names(d);
    } else if attrs != [] {
      assert Drop(attrs, name) == attrs[1..];
    }
  }

  lemma HasName(attrs: seq<Attr>, i: nat)
    requires i < |attrs|
    ensures HasAttr(attrs, attrs[i].name)
  {
  }

  /** Every operation keeps names unique and does to the list what it does to the ordered map: setting an
      existing name keeps its place, a new one goes last. */
  lemma ApplyRefines(attrs: seq<Attr>, m: OrderedMap, op: Operation)
    requires UniqueNames(attrs) && Represents(attrs, m)
    ensures UniqueNames(Apply(attrs, op)) && Represents(Apply(attrs, op), ApplyOrdered(m, op))
  {
    var r, k := Apply(attrs, op), FindAttr(attrs, op.name);
    assert op.name in m.values <==> k < |attrs|;
    match op
    case SetOp(name, value) =>
      PutRefines(attrs, m, name, value);
    case FindOrCreateOp(name) =>
      PutRefines(attrs, m, name, "");
    case RemoveOp(name) =>
      DropRefines(attrs, m, name);
  }

  lemma PutUnique(attrs: seq<Attr>, a: Attr)
    requires UniqueNames(attrs)
    ensures UniqueNames(Put(attrs, a))
    ensures Names(Put(attrs, a)) == if HasAttr(attrs, a.name) then Names(attrs) else Names(attrs) + [a.name]
  {
  }

  lemma PutRefines(attrs: seq<Attr>, m: OrderedMap, name: string, value: string)
    requires UniqueNames(attrs) && Represents(attrs, m)
    ensures UniqueNames(Put(attrs, Attr(name, value)))
    ensures Represents(Put(attrs, Attr(name, value)), ApplyOrdered(m, SetOp(name, value)))
    ensures HasAttr(attrs, name) <==> name in m.values
  {
    PutUnique(attrs, Attr(name, value));
    PutValues(attrs, m, name, value);
    hide UniqueNames;
    hide Put;
  }

  lemma PutValues(attrs: seq<Attr>, m: OrderedMap, name: string, value: string)
    requires UniqueNames(attrs) && Represents(attrs, m)
    ensures var r, v := Put(attrs, Attr(name, value)), m.values[name := value];
            && (forall i {:trigger r[i]} :: 0 <= i < |r| ==> r[i].name in v && v[r[i].name] == r[i].value)
            && (forall n {:trigger n in v} :: n in v ==> HasAttr(r, n))
    ensures HasAttr(attrs, name) <==> name in m.values
  {
    var a := Attr(name, value);
    var r, k := Put(attrs, a), FindAttr(attrs, name);
    PutAt(attrs, a);
    hide Put;
    hide UniqueNames;
    hide HasAttr;
    hide FindAttr;
    RepresentsHas(attrs, m, name);
    forall n | n in m.values && n != name ensures HasAttr(r, n) {
      PutKeeps(attrs, a, n);
    }
  }

  /** Only the attribute called like `a` differs after `a` is put. */
  lemma PutAt(attrs: seq<Attr>, a: Attr)
    requires UniqueNames(attrs)
    ensures var r, k := Put(attrs, a), FindAttr(attrs, a.name);
            && |attrs| <= |r| <= |attrs| + 1 && (k == |attrs| || |r| == |attrs|) && k < |r|
            && forall i {:trigger r[i]} :: 0 <= i < |r| ==>
                 if i == k then r[i] == a else i < |attrs| && r[i] == attrs[i] && r[i].name != a.name
  {
  }

  lemma PutKeeps(attrs: seq<Attr>, a: Attr, n: string)
    requires UniqueNames(attrs) && HasAttr(attrs, n) && n != a.name
    ensures HasAttr(Put(attrs, a), n)
  {
    PutAt(attrs, a);
    HasName(Put(attrs, a), FindAttr(attrs, n));
  }

  lemma DropRefines(attrs: seq<Attr>, m: OrderedMap, name: string)
    requires UniqueNames(attrs) && Represents(attrs, m)
    ensures UniqueNames(Drop(attrs, name)) && Represents(Drop(attrs, name), ApplyOrdered(m, RemoveOp(name)))
  {
    WithoutNames(attrs, name);
    DropValues(attrs, m, name);
    hide Drop;
    hide UniqueNames;
  }

  lemma DropValues(attrs: seq<Attr>, m: OrderedMap, name: string)
    requires UniqueNames(attrs) && Represents(attrs, m)
    ensures UniqueNames(Drop(attrs, name))
    ensures var r, v := Drop(attrs, name), m.values - {name};
            && (forall i {:trigger r[i]} :: 0 <= i < |r| ==> r[i].name in v && v[r[i].name] == r[i].value)
            && (forall n {:trigger n in v} :: n in v ==> HasAttr(r, n))
  {
    var r, k := Drop(attrs, name), FindAttr(attrs, name);
    forall n | n in m.values && n != name ensures HasAttr(r, n) {
      DropKeeps(attrs, name, n);
    }
    if k < |attrs| {
      DropAt(attrs, k);
      hide FindAttr;
      hide UniqueNames;
    }
  }

  lemma DropKeeps(attrs: seq<Attr>, name: string, n: string)
    requires HasAttr(attrs, n) && n != name
    ensures HasAttr(Drop(attrs, name), n)
  {
    var i, k := FindAttr(attrs, n), FindAttr(attrs, name);
    assert i != k;
    HasName(Drop(attrs, name), if i < k then i else i - 1);
  }

  lemma DropAt(attrs: seq<Attr>, k: nat)
    requires UniqueNames(attrs) && k < |attrs|
    ensures var r := attrs[..k] + attrs[k + 1..];
            && UniqueNames(r) && |r| == |attrs| - 1
            && forall i {:trigger r[i]} :: 0 <= i < |r| ==> r[i] == (if i < k then attrs[i] else attrs[i + 1]) && r[i].name != attrs[k].name
  {
  }

  /** Over every run the list keeps unique names and stands for the ordered map of the same run. */
  lemma {:induction false} RunRefines(ops: seq<Operation>)
    ensures UniqueNames(Run(ops)) && Represents(Run(ops), RunOrdered(ops))
    decreases |ops|
  {
    if ops != [] {
      RunRefines(ops[..|ops| - 1]);
      ApplyRefines(Run(ops[..|ops| - 1]), RunOrdered(ops[..|ops| - 1]), ops[|ops| - 1]);
    }
  }

  /** The assert of `Add` under `FindOrCreate` and `SetAttribute`. */
  predicate Allowed(attrs: seq<Attr>, op: Operation) {
    op.RemoveOp? || HasAttr(attrs, op.name) || !HasAttr(attrs, "")
  }

  /** The last operation that names `n` is there and is no removal. */
  predicate Last(ops: seq<Operation>, n: string)
    decreases |ops|
  {
    && ops != []
    && var op := ops[|ops| - 1];
       if op.name == n then !op.RemoveOp? else Last(ops[..|ops| - 1], n)
  }

  /** An attribute is there exactly when the last operation on its name has set or created it. */
  lemma {:induction false} ThereIff(ops: seq<Operation>, n: string)
    ensures HasAttr(Run(ops), n) <==> Last(ops, n)
    decreases |ops|
  {
    RunRefines(ops);
    RepresentsHas(Run(ops), RunOrdered(ops), n);
    OrderedHas(ops, n);
  }

  lemma RepresentsHas(attrs: seq<Attr>, m: OrderedMap, n: string)
    requires Represents(attrs, m)
    ensures HasAttr(attrs, n) <==> n in m.values
  {
    if HasAttr(attrs, n) {
      assert attrs[FindAttr(attrs, n)].name in m.values;
    }
  }

  lemma {:induction false} OrderedHas(ops: seq<Operation>, n: string)
    ensures n in RunOrdered(ops).values <==> Last(ops, n)
    decreases |ops|
  {
    if ops != [] {
      OrderedHas(ops[..|ops| - 1], n);
    }
  }

  /** After a run an operation trips the assert of `Add` exactly when it brings a new name and the last operation on the
      empty name has set or created it. */
  lemma EmptyNameTrips(ops: seq<Operation>, op: Operation)
    ensures !Allowed(Run(ops), op) <==> !op.RemoveOp? && !Last(ops, op.name) && Last(ops, "")
  {
    hide Run, Last, HasAttr;
    ThereIff(ops, op.name);
    ThereIff(ops, "");
  }

  /** A run never trips it exactly when no new name comes while the last operation on the empty name has set or
      created it. */
  lemma NeverTripsIff(ops: seq<Operation>)
    ensures (forall i :: 0 <= i < |ops| ==> Allowed(Run(ops[..i]), ops[i]))
       <==> (forall i :: 0 <= i < |ops| ==> ops[i].RemoveOp? || Last(ops[..i], ops[i].name) || !Last(ops[..i], ""))
  {
    hide Run, Last, Allowed;
    forall i | 0 <= i < |ops|
      ensures Allowed(Run(ops[..i]), ops[i]) <==>
              ops[i].RemoveOp? || Last(ops[..i], ops[i].name) || !Last(ops[..i], "")
    {
      EmptyNameTrips(ops[..i], ops[i]);
    }
  }

  /** One use of the empty name, and then a new name. */
  lemma TripsAtOnce(name: string)
    requires name != ""
    ensures !Allowed(Run([FindOrCreateOp("")]), SetOp(name, ""))
  {
    EmptyNameTrips([FindOrCreateOp("")], SetOp(name, ""));
  }

  lemma CreatedIs(attrs: seq<Attr>, name: string)
    ensures Apply(attrs, FindOrCreateOp(name)) == if HasAttr(attrs, name) then attrs else attrs + [Attr(name, "")]
  {
  }

  lemma ApplyNoEmpty(attrs: seq<Attr>, op: Operation)
    requires !HasAttr(attrs, "") && op.name != ""
    ensures !HasAttr(Apply(attrs, op), "")
  {
    var r := Apply(attrs, op);
    assert forall i :: 0 <= i < |attrs| ==> attrs[i].name != "";
    assert forall i :: 0 <= i < |r| ==> r[i].name != "";
  }

  /** Runs that never use the empty name never trip it. */
  lemma {:induction false} RunAllowed(ops: seq<Operation>, op: Operation)
    requires forall o :: o in ops ==> o.name != ""
    ensures !HasAttr(Run(ops), "") && Allowed(Run(ops), op)
    decreases |ops|
  {
    if ops != [] {
      var init := ops[..|ops| - 1];
      assert ops[|ops| - 1] in ops && forall o :: o in init ==> o in ops;
      RunAllowed(init, op);
      ApplyNoEmpty(Run(init), ops[|ops| - 1]);
    }
  }

  /** A run on a new list: it holds what the run makes of the empty one, if no operation trips the assert. */
  method Perform(ops: seq<Operation>) returns (attributes: TiXmlAttributeSet)
    requires forall i :: 0 <= i < |ops| ==> Allowed(Run(ops[..i]), ops[i])
    ensures fresh(attributes) && attributes.Valid() && Contents(attributes.items) == Run(ops)
  {
    hide *;
    attributes := new TiXmlAttributeSet();
    RunNone();
    assert ops[..0] == [];
    for i := 0 to |ops|
      invariant fresh(attributes) && fresh(attributes.sentinel) && fresh(attributes.items)
      invariant attributes.Valid() && Contents(attributes.items) == Run(ops[..i])
    {
      assert Allowed(Run(ops[..i]), ops[i]);
      RunNext(ops, i);
      OneOperation(attributes, ops[i]);
    }
    assert ops[..|ops|] == ops;
  }

  lemma RunNone()
    ensures Run([]) == Contents([])
  {
  }

  lemma RunNext(ops: seq<Operation>, i: nat)
    requires i < |ops|
    ensures Run(ops[..i + 1]) == Apply(Run(ops[..i]), ops[i])
  {
    assert ops[..i + 1][..i] == ops[..i];
  }

  method OneOperation(attributes: TiXmlAttributeSet, op: Operation)
    requires attributes.Valid() && Allowed(Contents(attributes.items), op)
    modifies attributes`items, attributes.sentinel, attributes.items
    ensures attributes.Valid() && Contents(attributes.items) == Apply(old(Contents(attributes.items)), op)
    ensures fresh((set n | n in attributes.items) - (set n | n in old(attributes.items)))
  {
    hide TiXmlAttributeSet.Valid, UniqueNames, Put, Drop;
    match op
    case SetOp(name, value) =>
      attributes.SetAttribute(name, value);
    case FindOrCreateOp(name) =>
      var node := attributes.FindOrCreate(name);
    case RemoveOp(name) =>
      attributes.RemoveAttribute(name);
  }
}
