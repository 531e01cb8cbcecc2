/** The document object model: nodes linked by parent, first/last child and
    previous/next sibling pointers, edited in place.

    Every node carries two ghost fields: `kids`, the sequence its child list
    stands for, and `repr`, the nodes of its subtree. A forest is a set of nodes
    closed under both, in which every pointer is determined by `kids`. */
module Dom {
  import opened XmlChars
  import opened XmlTree

  datatype NodeType = DocumentType | ElementType | CommentType | UnknownType | TextType

  class DomNode {
    const kind: NodeType
    var value: string
    var cdata: bool
    var attrs: seq<Attr>
    var parent: DomNode?
    var firstChild: DomNode?
    var lastChild: DomNode?
    var prev: DomNode?
    var next: DomNode?
    ghost var kids: seq<DomNode>
    ghost var repr: set<DomNode>

    constructor (kind: NodeType, value: string)
      ensures this.kind == kind && this.value == value && !cdata && attrs == []
      ensures kids == [] && repr == {this} && Standalone()
    {
      this.kind, this.value := kind, value;
      cdata, attrs := false, [];
      parent, firstChild, lastChild, prev, next := null, null, null, null, null;
      kids, repr := [], {this};
      new;
      OkValid({this}, this);
    }

    /** `Clear` of the root of a tree: the loop visits every child, and none is left. */
    method Clear()
      requires Standalone()
      modifies this`firstChild, this`lastChild, this`kids, this`repr
      ensures Standalone() && kids == [] && repr == {this} && Trees(0) == []
    {
      hide *;
      var node := FirstKid();
      ghost var k: nat := 0;
      while node != null
        invariant Valid() && k <= |kids| && node == (if k < |kids| then kids[k] else null)
        decreases |kids| - k
      {
        node := NextKid(node, k);
        k := k + 1;
      }
      firstChild := null;
      lastChild := null;
      kids, repr := [], {this};
      AloneFacts();
    }

    lemma AloneFacts()
      requires parent == null && firstChild == null && lastChild == null && kids == [] && repr == {this}
      ensures Standalone() && Trees(0) == []
    {
      OkValid({this}, this);
    }

    /** The child list: its ends, its parent pointers and both directions of its links. */
    ghost predicate Linked()
      reads this`kids, this`firstChild, this`lastChild, kids`parent, kids`prev, kids`next
    {
      && Distinct(kids)
      && firstChild == At(kids, 0) && lastChild == Before(kids, |kids|)
      && (kids != [] ==> kids[0].prev == null && kids[|kids| - 1].next == null)
      && (forall i {:trigger kids[i]} :: 0 <= i < |kids| ==> kids[i].parent == this)
      && Segment(kids)
    }

    /** The subtrees of the children lie inside this one and apart from each other. */
    ghost predicate Nested()
      reads this`kids, this`repr, repr`repr, repr`parent
    {
      && this in repr
      && (forall i {:trigger kids[i]} :: 0 <= i < |kids| ==>
            kids[i] in repr && kids[i] in kids[i].repr && this !in kids[i].repr && kids[i].kind != DocumentType)
      && (forall i, j {:trigger kids[i], kids[j]} :: 0 <= i < j < |kids| ==> kids[i].repr !! kids[j].repr)
      && (forall m {:trigger m.repr} :: m in repr ==> m.repr <= repr)
      && (forall m {:trigger m.parent} :: m in repr && m != this ==> m.parent != null && m.parent in repr)
    }

    /** A well-formed subtree. */
    ghost predicate Valid()
      reads this`repr, repr`kids, repr`repr, repr`parent, repr`prev, repr`next, repr`firstChild, repr`lastChild
      ensures Valid() ==> this in repr
    {
      && this in repr
      && forall m {:trigger m.Nested()} :: m in repr ==> m.repr <= repr && m.Nested() && m.Linked()
    }

    lemma ValidKid(i: nat)
      requires Valid() && i < |kids|
      ensures kids[i] in repr && kids[i].Valid() && kids[i].repr < repr && kids[i].kind != DocumentType
    {
      assert Nested();
      var c := kids[i];
      forall m | m in c.repr ensures m.repr <= c.repr && m.Nested() && m.Linked() {
        assert c.Nested();
      }
    }

    /** The children from the `k`-th on, as trees. */
    ghost function Trees(k: nat): (t: seq<Node>)
      requires Valid() && k <= |kids|
      reads this, repr
      ensures |t| == |kids| - k
      decreases repr, |kids| - k
    {
      if k == |kids| then []
      else
        ValidKid(k);
        [kids[k].Tree()] + Trees(k + 1)
    }

    /** What a node that is not a document says, as a tree. */
    ghost function Tree(): Node
      requires Valid() && kind != DocumentType
      reads this, repr
      decreases repr, |kids| + 1
    {
      match kind
      case ElementType => Element(value, attrs, Trees(0))
      case CommentType => Comment(value)
      case UnknownType => Unknown(value)
      case TextType => Text(value, cdata)
    }

    lemma {:induction false} TreesAt(k: nat, i: nat)
      requires Valid() && k <= i < |kids|
      ensures kids[i].Valid() && kids[i].kind != DocumentType && Trees(k)[i - k] == kids[i].Tree()
      decreases |kids| - k
    {
      ValidKid(i);
      if k < i {
        TreesAt(k + 1, i);
      }
    }

    /** A subtree no node of which has changed its text or its children says the same. */
    twostate lemma {:induction false} TreesKept(k: nat)
      requires old(Valid()) && Valid() && k <= |kids|
      requires forall m :: m in old(repr) ==>
        m.value == old(m.value) && m.cdata == old(m.cdata) && m.attrs == old(m.attrs) && m.kids == old(m.kids)
      ensures kids == old(kids) && Trees(k) == old(Trees(k))
      decreases old(repr), |kids| - k
    {
      assert this in old(repr);
      if k < |kids| {
        ValidKid(k);
        assert old(KidFacts(k)) && old(kids[k].repr <= repr);
        kids[k].TreeKept();
        TreesKept(k + 1);
      }
    }

    twostate lemma {:induction false} TreeKept()
      requires old(Valid()) && Valid() && kind != DocumentType
      requires forall m :: m in old(repr) ==>
        m.value == old(m.value) && m.cdata == old(m.cdata) && m.attrs == old(m.attrs) && m.kids == old(m.kids)
      ensures Tree() == old(Tree())
      decreases old(repr), |kids| + 1
    {
      assert this in old(repr);
      TreesKept(0);
    }

    /** What the `i`-th child says, as a fact that can be stated of an earlier state. */
    ghost predicate TreeFacts(i: nat)
      requires Valid() && i < |kids|
      reads this, repr
      ensures TreeFacts(i) && kids[i] in repr && kids[i].Valid() && kids[i].kind != DocumentType
      ensures kids[i].repr <= repr && this !in kids[i].repr && Trees(0)[i] == kids[i].Tree()
    {
      assert Nested();
      ValidKid(i);
      TreesAt(0, i);
      true
    }

    /** A child that keeps its text and its subtree keeps its tree. */
    twostate lemma SameKid(new x: nat, new y: nat)
      requires old(Valid()) && Valid() && x < |kids| && y < |old(kids)| && kids[x] == old(kids)[y]
      requires forall m :: m in old(repr) && m != this ==>
        m.value == old(m.value) && m.cdata == old(m.cdata) && m.attrs == old(m.attrs) && m.kids == old(m.kids)
      ensures Trees(0)[x] == old(Trees(0))[y]
    {
      assert TreeFacts(x) && old(TreeFacts(y));
      hide DomNode.Valid;
      hide DomNode.Trees;
      kids[x].TreeKept();
    }

    /** An edit of the child list is the same edit of the sequence of trees. */
    twostate lemma TreesSpliced(new i: nat, new j: nat, new mid: seq<DomNode>)
      requires old(Valid()) && Valid() && |mid| <= 1
      requires i <= j <= |old(kids)| && kids == old(kids)[..i] + mid + old(kids)[j..]
      requires forall m :: m in old(repr) && m != this ==>
        m.value == old(m.value) && m.cdata == old(m.cdata) && m.attrs == old(m.attrs) && m.kids == old(m.kids)
      ensures mid != [] ==> mid[0].Valid() && mid[0].kind != DocumentType
      ensures Trees(0) == old(Trees(0))[..i] + (if mid == [] then [] else [mid[0].Tree()]) + old(Trees(0))[j..]
    {
      if mid != [] {
        assert kids[i] == mid[0] && TreeFacts(i);
      }
      forall x | 0 <= x < |kids| && (x < i || i + |mid| <= x)
        ensures Trees(0)[x] == old(Trees(0))[if x < i then x else x - i - |mid| + j]
      {
        var y := if x < i then x else x - i - |mid| + j;
        assert kids[x] == old(kids)[y];
        SameKid(x, y);
      }
    }

    /** `ValidKid` as a fact that can be stated of an earlier state. */
    ghost predicate KidFacts(i: nat)
      requires Valid() && i < |kids|
      reads this, repr
      ensures KidFacts(i) && kids[i] in repr && kids[i].Valid() && kids[i].repr < repr && kids[i].repr <= repr
    {
      ValidKid(i);
      true
    }

    /** The `i`-th child and the nodes beside it, told apart from all others. */
    lemma NeighboursAt(i: nat)
      requires Linked() && i < |kids|
      ensures kids[i].prev == Before(kids, i) && kids[i].next == At(kids, i + 1)
      ensures firstChild == At(kids, 0) && lastChild == Before(kids, |kids|)
      ensures forall k {:trigger kids[k]} :: 0 <= k < |kids| ==> kids[k].parent == this
      ensures forall k {:trigger kids[k]} :: 0 <= k < |kids| ==>
                && (kids[k] == kids[i] <==> k == i)
                && (kids[k] == kids[i].prev <==> k == i - 1)
                && (kids[k] == kids[i].next <==> k == i + 1)
    {
    }

    /** `InsertBeforeChild`: the pointers of `node` and of its neighbours, in front of the `i`-th child. */
    method PointBefore(beforeThis: DomNode, node: DomNode, ghost i: nat)
      requires Linked() && i < |kids| && kids[i] == beforeThis && Without(kids, node) && node != this
      modifies this`firstChild, this`lastChild, kids`next, kids`prev
      modifies node`prev, node`next
      ensures node.prev == Before(kids, i) && node.next == beforeThis
      ensures forall k {:trigger kids[k]} :: 0 <= k < |kids| ==>
                && kids[k].parent == this
                && kids[k].prev == (if k == i then node else old(kids[k].prev))
                && kids[k].next == if k == i - 1 then node else old(kids[k].next)
      ensures firstChild == (if i == 0 then node else kids[0]) && lastChild == kids[|kids| - 1]
    {
      NeighboursAt(i);
      hide DomNode.Linked;
      hide Segment;
      hide Distinct;
      node.next := beforeThis;
      node.prev := beforeThis.prev;
      if beforeThis.prev != null {
        beforeThis.prev.next := node;
      } else {
        firstChild := node;
      }
      beforeThis.prev := node;
    }

    /** `LinkEndChild`: the pointers of `node` and of the last child. */
    method PointLast(node: DomNode)
      requires Linked() && Without(kids, node) && node != this
      modifies this`firstChild, this`lastChild, kids`next, node`prev, node`next
      ensures node.prev == Before(kids, |kids|) && node.next == null
      ensures forall k {:trigger kids[k]} :: 0 <= k < |kids| ==>
                kids[k].parent == this && kids[k].next == if k == |kids| - 1 then node else old(kids[k].next)
      ensures firstChild == (if kids == [] then node else kids[0]) && lastChild == node
    {
      assert old(Distinct(kids));
      node.prev := lastChild;
      node.next := null;
      if lastChild != null {
        lastChild.next := node;
      } else {
        firstChild := node;
      }
      lastChild := node;
    }

    /** `InsertAfterChild`: the pointers of `node` and of its neighbours, behind the `i`-th child. */
    method PointAfter(afterThis: DomNode, node: DomNode, ghost i: nat)
      requires Linked() && i < |kids| && kids[i] == afterThis && Without(kids, node) && node != this
      modifies this`firstChild, this`lastChild, kids`next, kids`prev
      modifies node`prev, node`next
      ensures node.prev == afterThis && node.next == At(kids, i + 1)
      ensures forall k {:trigger kids[k]} :: 0 <= k < |kids| ==>
                && kids[k].parent == this
                && kids[k].prev == (if k == i + 1 then node else old(kids[k].prev))
                && kids[k].next == if k == i then node else old(kids[k].next)
      ensures firstChild == kids[0] && lastChild == (if i == |kids| - 1 then node else kids[|kids| - 1])
    {
      NeighboursAt(i);
      hide DomNode.Linked;
      hide Segment;
      hide Distinct;
      node.prev := afterThis;
      node.next := afterThis.next;
      if afterThis.next != null {
        afterThis.next.prev := node;
      } else {
        lastChild := node;
      }
      afterThis.next := node;
    }

    /** `ReplaceChild`: the pointers of `node` and of its neighbours, in the place of the `i`-th child. */
    method PointAround(replaceThis: DomNode, node: DomNode, ghost i: nat)
      requires Linked() && i < |kids| && kids[i] == replaceThis && Without(kids, node) && node != this
      modifies this`firstChild, this`lastChild, kids`next, kids`prev
      modifies node`prev, node`next
      ensures node.prev == Before(kids, i) && node.next == At(kids, i + 1)
      ensures forall k {:trigger kids[k]} :: 0 <= k < |kids| ==>
                && kids[k].parent == this
                && kids[k].prev == (if k == i + 1 then node else old(kids[k].prev))
                && kids[k].next == if k == i - 1 then node else old(kids[k].next)
      ensures firstChild == (if i == 0 then node else kids[0]) && lastChild == (if i == |kids| - 1 then node else kids[|kids| - 1])
    {
      NeighboursAt(i);
      hide DomNode.Linked;
      hide Segment;
      hide Distinct;
      node.next := replaceThis.next;
      node.prev := replaceThis.prev;
      if replaceThis.next != null {
        replaceThis.next.prev := node;
      } else {
        lastChild := node;
      }
      if replaceThis.prev != null {
        replaceThis.prev.next := node;
      } else {
        firstChild := node;
      }
    }

    /** `RemoveChild`: the neighbours of the `i`-th child point past it. */
    method PointPast(removeThis: DomNode, ghost i: nat)
      requires Linked() && i < |kids| && kids[i] == removeThis
      modifies this`firstChild, this`lastChild, kids`next, kids`prev
      ensures forall k {:trigger kids[k]} :: 0 <= k < |kids| ==>
                && kids[k].parent == this
                && kids[k].prev == (if k == i + 1 then Before(kids, i) else old(kids[k].prev))
                && kids[k].next == if k == i - 1 then At(kids, i + 1) else old(kids[k].next)
      ensures firstChild == (if i == 0 then At(kids, 1) else kids[0]) && lastChild == (if i == |kids| - 1 then Before(kids, i) else kids[|kids| - 1])
    {
      NeighboursAt(i);
      hide DomNode.Linked;
      hide Segment;
      hide Distinct;
      if removeThis.next != null {
        removeThis.next.prev := removeThis.prev;
      } else {
        lastChild := removeThis.prev;
      }
      if removeThis.prev != null {
        removeThis.prev.next := removeThis.next;
      } else {
        firstChild := removeThis.next;
      }
    }

    /** Lists that do not belong to this node stay linked when only pointers of this node, of its children and of nodes
        without a parent are changed. */
    twostate lemma OthersLinked(forest: set<DomNode>)
      requires old(LinksOk(forest))
      requires forall q :: q in forest && q != this ==>
        q.kids == old(q.kids) && q.firstChild == old(q.firstChild) && q.lastChild == old(q.lastChild)
      requires forall m :: m in forest && old(m.parent) != this && old(m.parent) != null ==>
        m.parent == old(m.parent) && m.prev == old(m.prev) && m.next == old(m.next)
      ensures forall q {:trigger q.Linked()} :: q in forest && q != this ==> q.Linked()
    {
      forall q | q in forest && q != this ensures q.Linked() {
        assert old(q.Linked());
        forall k | 0 <= k < |q.kids|
          ensures q.kids[k].parent == q
          ensures q.kids[k].prev == old(q.kids[k].prev) && q.kids[k].next == old(q.kids[k].next)
        {
          assert q.kids[k] == old(q.kids[k]) && q.kids[k] in forest;
          assert old(q.kids[k].parent) == q;
        }
        assert old(Segment(q.kids));
      }
    }

    /** In a list that was `was`, the nodes from the `i`-th to before the `j`-th have given way to `mid`,
        at most one node, and among the pointers of the others only those at the two seams have changed. */
    twostate predicate Seams(was: seq<DomNode>, new i: nat, new j: nat, new mid: seq<DomNode>)
      reads this, kids, was, mid
    {
      && i <= j <= |was| && |mid| <= 1
      && kids == was[..i] + mid + was[j..]
      && (mid != [] ==>
            && Without(was, mid[0]) && mid[0].parent == this
            && mid[0].prev == Before(was, i) && mid[0].next == At(was, j))
      && (forall k {:trigger was[k]} :: 0 <= k < |was| && (k < i || j <= k) ==>
            && was[k].parent == this
            && was[k].prev == (if k == j then (if mid == [] then Before(was, i) else mid[0]) else old(was[k].prev))
            && was[k].next == (if k == i - 1 then (if mid == [] then At(was, j) else mid[0]) else old(was[k].next)))
      && firstChild == At(kids, 0) && lastChild == Before(kids, |kids|)
    }

    /** Neighbours in a spliced list point at each other. */
    twostate lemma SplicedAt(was: seq<DomNode>, new i: nat, new j: nat, new mid: seq<DomNode>, new m: nat, new n: nat)
      requires was == old(kids) && old(Linked()) && Seams(was, i, j, mid) && m + 1 == n < |kids|
      ensures kids[m].next == kids[n] && kids[n].prev == kids[m]
    {
      var d := j - i - |mid|;
      assert kids[m] == if m < i then was[m] else if m < i + |mid| then mid[0] else was[m + d];
      assert kids[n] == if n < i then was[n] else if n < i + |mid| then mid[0] else was[n + d];
      assert old(Segment(was));
    }

    /** A list is linked again once the pointers at both seams are set. */
    twostate lemma Spliced(was: seq<DomNode>, new i: nat, new j: nat, new mid: seq<DomNode>)
      requires was == old(kids) && old(Linked()) && Seams(was, i, j, mid)
      ensures Linked()
    {
      forall m, n | 0 <= m < n < |kids| && n == m + 1 ensures kids[m].next == kids[n] && kids[n].prev == kids[m] {
        SplicedAt(was, i, j, mid, m, n);
      }
      SplicedEnds(was, i, j, mid);
      PartsApart(was, i, j);
      DistinctSplice(was[..i], mid, was[j..]);
    }

    twostate lemma SplicedEnds(was: seq<DomNode>, new i: nat, new j: nat, new mid: seq<DomNode>)
      requires was == old(kids) && old(Linked()) && Seams(was, i, j, mid)
      ensures kids != [] ==> kids[0].prev == null && kids[|kids| - 1].next == null
      ensures forall m {:trigger kids[m]} :: 0 <= m < |kids| ==> kids[m].parent == this
    {
    }

    /** Links stay within the forest, and parents stay consistent, when children join one child list. */
    twostate lemma KidsStay(forest: set<DomNode>)
      requires old(LinksOk(forest)) && this in forest
      requires forall c {:trigger c in kids} :: c in old(kids) ==> c in kids
      requires forall i {:trigger kids[i]} :: 0 <= i < |kids| ==> kids[i] in forest && kids[i].parent == this
      requires forall n {:trigger n.kids} :: n in forest && n != this ==> n.kids == old(n.kids)
      requires forall n {:trigger n.parent} :: n in forest ==> n.parent == old(n.parent) || (n.parent == this && n in kids)
      ensures forall n, i {:trigger n.kids[i]} :: n in forest && 0 <= i < |n.kids| ==> n.kids[i] in forest
      ensures forall n {:trigger n.parent} :: n in forest && n.parent != null ==> n.parent in forest && n in n.parent.kids
    {
    }

    /** The same when the `x` and its subtree leave the forest. */
    twostate lemma KidsLeave(forest: set<DomNode>, new x: DomNode)
      requires old(Ok(forest)) && this in forest && x in forest && old(x.parent) == this && x.repr == old(x.repr)
      requires forall c {:trigger c in kids} :: c in old(kids) && c != x ==> c in kids
      requires forall i {:trigger kids[i]} :: 0 <= i < |kids| ==>
        kids[i] in forest && kids[i] != x && kids[i].parent == this && (kids[i] in old(kids) || kids[i] !in x.repr)
      requires forall n {:trigger n.kids} :: n in forest && n != this ==> n.kids == old(n.kids)
      requires forall n {:trigger n.parent} :: n in forest ==> n.parent == old(n.parent) || (n.parent == this && n in kids)
      ensures this !in x.repr
      ensures forall n, i {:trigger n.kids[i]} :: n in forest - x.repr && 0 <= i < |n.kids| ==> n.kids[i] in forest - x.repr
      ensures forall n {:trigger n.parent} :: n in forest - x.repr && n.parent != null ==>
                n.parent in forest - x.repr && n in n.parent.kids
    {
      assert old(Nested()) && old(x.Nested());
      assert x in old(kids) && this !in x.repr;
      forall n, i | n in forest - x.repr && 0 <= i < |n.kids| ensures n.kids[i] in forest - x.repr {
        assert old(n.Linked());
      }
      forall n | n in forest - x.repr && n.parent != null ensures n.parent in forest - x.repr && n in n.parent.kids {
        assert n.parent == old(n.parent) ==> old(n.parent.Nested());
      }
    }

    /** Nesting is kept by all nodes but this one, and by this one but for its new child. */
    twostate lemma NestsStay(forest: set<DomNode>, new node: DomNode, new i: nat, new j: nat)
      requires old(Ok(forest)) && this in forest && node in forest && old(node.parent) == null
      requires i <= j <= |old(kids)| && kids == old(kids)[..i] + [node] + old(kids)[j..]
      requires forall n {:trigger n.kids} :: n in forest && n != this ==> n.kids == old(n.kids)
      requires forall n {:trigger n.repr} :: n in forest ==> n.repr == old(n.repr)
      requires forall n {:trigger n.parent} :: n in forest && n != node ==> n.parent == old(n.parent)
      ensures forall n {:trigger n.Nested()} :: n in forest && n != this ==> n.Nested()
      ensures NestedBut(i)
    {
      forall n {:trigger n.Nested()} | n in forest && n != this ensures n.Nested() {
        assert old(n.Nested());
      }
      assert old(Nested());
      assert forall k {:trigger kids[k]} :: 0 <= k < |kids| && k != i ==>
        kids[k] == if k < i then old(kids)[k] else old(kids)[k + j - i - 1];
    }

    /** Takes the nodes of the subtree of `x`, a former child, out of all subtrees. */
    ghost method Prune(x: DomNode, forest: set<DomNode>)
      requires NestsOk(forest) && x in forest
      requires forall n, i {:trigger n.kids[i]} :: n in forest - x.repr && 0 <= i < |n.kids| ==> n.kids[i] in forest - x.repr
      requires forall n {:trigger n.parent} :: n in forest - x.repr && n.parent != null ==> n.parent in forest - x.repr
      modifies forest`repr
      ensures NestsOk(forest - old(x.repr))
      ensures forall n :: n in forest - old(x.repr) ==> n.repr == old(n.repr) - old(x.repr)
    {
      ghost var gone := x.repr;
      forall n | n in forest - gone {
        n.repr := n.repr - gone;
      }
    }

    /** Adds the nodes of `node`'s subtree to the subtrees of this node and of all above it. */
    ghost method Graft(node: DomNode, i: nat, forest: set<DomNode>)
      requires this in forest && node in forest && node.repr <= forest && i < |kids| && kids[i] == node
      requires forall n :: n in forest && n != this ==> n.Nested() && n.repr <= forest
      requires NestedBut(i) && repr <= forest
      requires Apart(node, forest) && this !in node.repr && node.kind != DocumentType && node.parent == this
      modifies forest`repr
      ensures NestsOk(forest)
      ensures forall n :: n in forest ==>
                n.repr == if this in old(n.repr) then old(n.repr) + old(node.repr) else old(n.repr)
    {
      forall n | n in forest && this in n.repr {
        n.repr := n.repr + node.repr;
      }
    }

    /** `Nested` with its `k`-th child left out. */
    ghost predicate NestedBut(k: nat)
      reads this`kids, this`repr, repr`repr, repr`parent
    {
      && this in repr
      && (forall i {:trigger kids[i]} :: 0 <= i < |kids| && i != k ==>
            kids[i] in repr && kids[i] in kids[i].repr && this !in kids[i].repr && kids[i].kind != DocumentType)
      && (forall i, j {:trigger kids[i], kids[j]} :: 0 <= i < j < |kids| && i != k && j != k ==> kids[i].repr !! kids[j].repr)
      && (forall m {:trigger m.repr} :: m in repr ==> m.repr <= repr)
      && (forall m {:trigger m.parent} :: m in repr && m != this ==> m.parent != null && m.parent in repr)
    }

    /** A node that can become a child of this one: the root of a tree of its own, and not a document. */
    ghost predicate CanAdopt(node: DomNode, forest: set<DomNode>)
      reads node, forest
    {
      node in forest && node.parent == null && Apart(node, forest) && this !in node.repr && node.kind != DocumentType
    }

    /** What adopting `node` does to the rest of the forest. */
    twostate predicate Adopted(forest: set<DomNode>, new node: DomNode)
      reads forest
    {
      && node in forest && old(allocated(node)) && Ok(forest)
      && (forall n {:trigger n.kids} :: n in forest && n != this ==> n.kids == old(n.kids))
      && (forall n {:trigger n.parent} :: n in forest ==> n.parent == if n == node then this else old(n.parent))
      && (forall n {:trigger n.repr} :: n in forest ==>
            n.repr == if this in old(n.repr) then old(n.repr) + old(node.repr) else old(n.repr))
    }

    /** All links of the forest are in order, and only `node` has a new parent. */
    twostate predicate Relinked(forest: set<DomNode>, new node: DomNode)
      reads forest
    {
      && node in forest && LinksOk(forest)
      && (forall n {:trigger n.kids} :: n in forest && n != this ==> n.kids == old(n.kids))
      && (forall n {:trigger n.parent} :: n in forest ==> n.parent == if n == node then this else old(n.parent))
    }

    /** A new child makes the forest well linked again. */
    twostate lemma LinksBack(forest: set<DomNode>, new node: DomNode)
      requires old(LinksOk(forest)) && this in forest && node in forest && node.parent == this && Linked()
      requires forall c {:trigger c in kids} :: c in old(kids) ==> c in kids
      requires forall i {:trigger kids[i]} :: 0 <= i < |kids| ==> kids[i] in forest
      requires node in kids
      requires forall q :: q in forest && q != this ==>
        q.kids == old(q.kids) && q.firstChild == old(q.firstChild) && q.lastChild == old(q.lastChild)
      requires forall m :: m in forest && old(m.parent) != this && old(m.parent) != null ==>
        m.prev == old(m.prev) && m.next == old(m.next)
      requires forall m {:trigger m.parent} :: m in forest ==> m.parent == if m == node then this else old(m.parent)
      requires old(node.parent) == null
      ensures Relinked(forest, node)
    {
      OthersLinked(forest);
      KidsStay(forest);
    }

    /** The forest is ready for `node` to join the subtrees above it. */
    twostate lemma ReadyToGraft(forest: set<DomNode>, new node: DomNode, new i: nat, new j: nat)
      requires old(Ok(forest)) && this in forest && old(allocated(node)) && old(CanAdopt(node, forest))
      requires i <= j <= |old(kids)| && kids == old(kids)[..i] + [node] + old(kids)[j..]
      requires forall n :: n in forest && n != this ==> n.kids == old(n.kids)
      requires forall n :: n in forest ==> n.repr == old(n.repr)
      requires forall n :: n in forest ==> n.parent == if n == node then this else old(n.parent)
      ensures forall n :: n in forest && n != this ==> n.Nested() && n.repr <= forest
      ensures NestedBut(i) && repr <= forest && node.repr <= forest && Apart(node, forest) && this !in node.repr
    {
      assert old(node.Nested());
      NestsStay(forest, node, i, j);
    }

    /** `LinkEndChild`: the child list. */
    method AppendLinked(node: DomNode)
      requires Linked() && Without(kids, node) && node != this
      modifies this`firstChild, this`lastChild, this`kids, kids`next
      modifies node`parent, node`prev, node`next
      ensures Linked() && node.parent == this && kids == old(kids) + [node]
    {
      hide DomNode.Linked;
      hide Segment;
      hide Distinct;
      ghost var was := kids;
      PointLast(node);
      node.parent := this;
      kids := kids + [node];
      assert kids == was[..|was|] + [node] + was[|was|..];
      assert Seams(was, |was|, |was|, [node]);
      hide DomNode.Seams;
      Spliced(was, |was|, |was|, [node]);
    }

    /** The nodes whose pointers an edit of this child list may change. */
    lemma KidsOnly(node: DomNode, forest: set<DomNode>)
      requires LinksOk(forest) && this in forest && node in forest && node.parent == null
      ensures Linked() && Without(kids, node)
      ensures forall m {:trigger m in kids} :: m in kids ==> m in forest && m.parent == this
    {
    }

    /** `LinkEndChild`: all links of the forest. */
    method AppendLinks(node: DomNode, ghost forest: set<DomNode>)
      requires LinksOk(forest) && this in forest && node in forest && node.parent == null && node != this
      modifies this`firstChild, this`lastChild, this`kids, kids`next
      modifies node`parent, node`prev, node`next
      ensures Relinked(forest, node) && kids == old(kids) + [node]
    {
      KidsOnly(node, forest);
      AppendLinked(node);
      hide DomNode.Linked;
      LinksBack(forest, node);
    }

    /** `LinkEndChild` of a node that is not a document. */
    method Append(node: DomNode, ghost forest: set<DomNode>)
      requires Ok(forest) && this in forest && CanAdopt(node, forest)
      modifies this`firstChild, this`lastChild, this`kids, kids`next
      modifies node`parent, node`prev, node`next, forest`repr
      ensures Adopted(forest, node) && kids == old(kids) + [node]
    {
      ghost var k := |kids|;
      hide DomNode.Linked;
      hide DomNode.Nested;
      hide DomNode.NestedBut;
      hide Apart;
      hide LinksOk;
      OkUnfold(node, forest);
      AppendLinks(node, forest);
      assert kids == old(kids)[..k] + [node] + old(kids)[k..];
      ReadyToGraft(forest, node, k, k);
      Graft(node, k, forest);
    }

    /** `InsertBeforeChild`: the child list. */
    method LinkBeforeLinked(beforeThis: DomNode, node: DomNode, ghost i: nat)
      requires Linked() && i < |kids| && kids[i] == beforeThis && Without(kids, node) && node != this
      modifies this`firstChild, this`lastChild, this`kids, kids`next, kids`prev
      modifies node`parent, node`prev, node`next
      ensures Linked() && node.parent == this && kids == old(kids)[..i] + [node] + old(kids)[i..]
    {
      hide DomNode.Linked;
      hide Segment;
      hide Distinct;
      ghost var was := kids;
      PointBefore(beforeThis, node, i);
      node.parent := this;
      kids := was[..i] + [node] + was[i..];
      assert Seams(was, i, i, [node]);
      hide DomNode.Seams;
      Spliced(was, i, i, [node]);
    }

    /** `InsertBeforeChild`: all links of the forest. */
    method LinkBeforeLinks(beforeThis: DomNode, node: DomNode, ghost i: nat, ghost forest: set<DomNode>)
      requires LinksOk(forest) && this in forest && node in forest && node.parent == null && node != this
      requires i < |kids| && kids[i] == beforeThis
      modifies this`firstChild, this`lastChild, this`kids, kids`next, kids`prev
      modifies node`parent, node`prev, node`next
      ensures Relinked(forest, node) && kids == old(kids)[..i] + [node] + old(kids)[i..]
    {
      KidsOnly(node, forest);
      LinkBeforeLinked(beforeThis, node, i);
      SpliceMembers(old(kids), i, i, [node]);
      hide DomNode.Linked;
      LinksBack(forest, node);
    }

    /** `InsertBeforeChild`, in front of the `i`-th child, once the copy has been made. */
    method LinkBefore(ghost i: nat, beforeThis: DomNode, node: DomNode, ghost forest: set<DomNode>)
      requires Ok(forest) && this in forest && CanAdopt(node, forest)
      requires i < |kids| && kids[i] == beforeThis
      modifies this`firstChild, this`lastChild, this`kids, kids`next, kids`prev
      modifies node`parent, node`prev, node`next, forest`repr
      ensures Adopted(forest, node) && kids == old(kids)[..i] + [node] + old(kids)[i..]
    {
      hide DomNode.Linked;
      hide DomNode.Nested;
      hide DomNode.NestedBut;
      hide Apart;
      hide LinksOk;
      OkUnfold(node, forest);
      LinkBeforeLinks(beforeThis, node, i, forest);
      ReadyToGraft(forest, node, i, i);
      Graft(node, i, forest);
    }

    /** `InsertAfterChild`: the child list. */
    method LinkAfterLinked(afterThis: DomNode, node: DomNode, ghost i: nat)
      requires Linked() && i < |kids| && kids[i] == afterThis && Without(kids, node) && node != this
      modifies this`firstChild, this`lastChild, this`kids, kids`next, kids`prev
      modifies node`parent, node`prev, node`next
      ensures Linked() && node.parent == this && kids == old(kids)[..i + 1] + [node] + old(kids)[i + 1..]
    {
      hide DomNode.Linked;
      hide Segment;
      hide Distinct;
      ghost var was := kids;
      PointAfter(afterThis, node, i);
      node.parent := this;
      kids := was[..i + 1] + [node] + was[i + 1..];
      assert Seams(was, i + 1, i + 1, [node]);
      hide DomNode.Seams;
      Spliced(was, i + 1, i + 1, [node]);
    }

    /** `InsertAfterChild`: all links of the forest. */
    method LinkAfterLinks(afterThis: DomNode, node: DomNode, ghost i: nat, ghost forest: set<DomNode>)
      requires LinksOk(forest) && this in forest && node in forest && node.parent == null && node != this
      requires i < |kids| && kids[i] == afterThis
      modifies this`firstChild, this`lastChild, this`kids, kids`next, kids`prev
      modifies node`parent, node`prev, node`next
      ensures Relinked(forest, node) && kids == old(kids)[..i + 1] + [node] + old(kids)[i + 1..]
    {
      KidsOnly(node, forest);
      LinkAfterLinked(afterThis, node, i);
      SpliceMembers(old(kids), i + 1, i + 1, [node]);
      hide DomNode.Linked;
      LinksBack(forest, node);
    }

    /** `InsertAfterChild`, behind the `i`-th child, once the copy has been made. */
    method LinkAfter(ghost i: nat, afterThis: DomNode, node: DomNode, ghost forest: set<DomNode>)
      requires Ok(forest) && this in forest && CanAdopt(node, forest)
      requires i < |kids| && kids[i] == afterThis
      modifies this`firstChild, this`lastChild, this`kids, kids`next, kids`prev
      modifies node`parent, node`prev, node`next, forest`repr
      ensures Adopted(forest, node) && kids == old(kids)[..i + 1] + [node] + old(kids)[i + 1..]
    {
      hide DomNode.Linked;
      hide DomNode.Nested;
      hide DomNode.NestedBut;
      hide Apart;
      hide LinksOk;
      OkUnfold(node, forest);
      LinkAfterLinks(afterThis, node, i, forest);
      ReadyToGraft(forest, node, i + 1, i + 1);
      Graft(node, i + 1, forest);
    }

    /** `ReplaceChild`: the child list. */
    method LinkAroundLinked(replaceThis: DomNode, node: DomNode, ghost i: nat)
      requires Linked() && i < |kids| && kids[i] == replaceThis && Without(kids, node) && node != this
      modifies this`firstChild, this`lastChild, this`kids, kids`next, kids`prev
      modifies node`parent, node`prev, node`next
      ensures Linked() && node.parent == this && kids == old(kids)[..i] + [node] + old(kids)[i + 1..]
    {
      hide DomNode.Linked;
      hide Segment;
      hide Distinct;
      ghost var was := kids;
      PointAround(replaceThis, node, i);
      node.parent := this;
      kids := was[..i] + [node] + was[i + 1..];
      assert Seams(was, i, i + 1, [node]);
      hide DomNode.Seams;
      Spliced(was, i, i + 1, [node]);
    }

    /** What is left of the forest when the subtree of `x` has gone, `node`, if any, having taken its place. */
    twostate predicate Departed(forest: set<DomNode>, new rest: set<DomNode>, new node: DomNode?)
      reads forest, rest
    {
      && rest <= forest && LinksOk(rest)
      && (forall n {:trigger n.kids} :: n in forest && n != this ==> n.kids == old(n.kids))
      && (forall n {:trigger n.parent} :: n in forest ==> n.parent == if n == node then this else old(n.parent))
    }

    /** A child that has left its list leaves the rest of the forest well linked. */
    twostate lemma LinksWithout(forest: set<DomNode>, new x: DomNode, new node: DomNode?)
      requires old(Ok(forest)) && this in forest && x in forest && old(x.parent) == this && x.repr == old(x.repr) && Linked()
      requires forall c {:trigger c in kids} :: c in old(kids) && c != x ==> c in kids
      requires forall i {:trigger kids[i]} :: 0 <= i < |kids| ==>
        kids[i] in forest && kids[i] != x && (kids[i] in old(kids) || kids[i] !in x.repr)
      requires forall q :: q in forest && q != this ==>
        q.kids == old(q.kids) && q.firstChild == old(q.firstChild) && q.lastChild == old(q.lastChild)
      requires forall m :: m in forest && old(m.parent) != this && old(m.parent) != null ==>
        m.prev == old(m.prev) && m.next == old(m.next)
      requires forall m {:trigger m.parent} :: m in forest ==> m.parent == if m == node then this else old(m.parent)
      requires node != null ==> node in kids && old(allocated(node)) && old(node.parent) == null
      ensures Departed(forest, forest - x.repr, node) && this !in x.repr
    {
      OthersLinked(forest);
      KidsLeave(forest, x);
    }

    /** `ReplaceChild`: all links of the forest. */
    method LinkAroundLinks(replaceThis: DomNode, node: DomNode, ghost i: nat, ghost forest: set<DomNode>)
      requires Ok(forest) && this in forest && CanAdopt(node, forest)
      requires i < |kids| && kids[i] == replaceThis
      modifies this`firstChild, this`lastChild, this`kids, kids`next, kids`prev
      modifies node`parent, node`prev, node`next
      ensures Departed(forest, forest - replaceThis.repr, node) && this !in replaceThis.repr
      ensures kids == old(kids)[..i] + [node] + old(kids)[i + 1..]
    {
      hide DomNode.Linked;
      hide LinksOk;
      hide NestsOk;
      hide Apart;
      hide DomNode.Departed;
      OkUnfold(node, forest);
      NotBelow(replaceThis, node, forest);
      LinkAroundLinked(replaceThis, node, i);
      SpliceMembers(old(kids), i, i + 1, [node]);
      LinksWithout(forest, replaceThis, node);
    }

    /** A child's subtree does not hold the root of another tree. */
    lemma NotBelow(x: DomNode, node: DomNode, forest: set<DomNode>)
      requires Ok(forest) && this in forest && CanAdopt(node, forest) && x in kids
      ensures node !in x.repr
    {
      assert Linked() && x.parent == this;
      assert x.Nested();
    }

    /** `ReplaceChild` of the `i`-th child, once the copy has been made. */
    method LinkAround(ghost i: nat, replaceThis: DomNode, node: DomNode, ghost forest: set<DomNode>)
      requires Ok(forest) && this in forest && CanAdopt(node, forest)
      requires i < |kids| && kids[i] == replaceThis
      modifies this`firstChild, this`lastChild, this`kids, kids`next, kids`prev
      modifies node`parent, node`prev, node`next, forest`repr
      ensures Ok(forest - old(replaceThis.repr)) && this in forest - old(replaceThis.repr)
      ensures kids == old(kids)[..i] + [node] + old(kids)[i + 1..]
      ensures forall n :: n in forest && n != this ==> n.kids == old(n.kids)
      ensures forall n :: n in forest ==> n.parent == if n == node then this else old(n.parent)
      ensures forall n :: n in forest - old(replaceThis.repr) ==>
                n.repr == (if this in old(n.repr) then old(n.repr) + old(node.repr) else old(n.repr)) - old(replaceThis.repr)
    {
      hide DomNode.Linked;
      hide DomNode.Nested;
      hide DomNode.NestedBut;
      hide Apart;
      hide LinksOk;
      OkUnfold(node, forest);
      LinkAroundLinks(replaceThis, node, i, forest);
      ReadyToGraft(forest, node, i, i + 1);
      Graft(node, i, forest);
      LinksClosed(forest - old(replaceThis.repr));
      Prune(replaceThis, forest);
    }

    /** `RemoveChild`: the child list. */
    method UnlinkLinked(removeThis: DomNode, ghost i: nat)
      requires Linked() && i < |kids| && kids[i] == removeThis
      modifies this`firstChild, this`lastChild, this`kids, kids`next, kids`prev
      ensures Linked() && kids == old(kids)[..i] + old(kids)[i + 1..]
    {
      hide DomNode.Linked;
      hide Segment;
      hide Distinct;
      ghost var was := kids;
      PointPast(removeThis, i);
      kids := was[..i] + was[i + 1..];
      assert kids == was[..i] + [] + was[i + 1..];
      assert Seams(was, i, i + 1, []);
      hide DomNode.Seams;
      Spliced(was, i, i + 1, []);
    }

    /** `RemoveChild`: all links of the forest. */
    method UnlinkLinks(removeThis: DomNode, ghost i: nat, ghost forest: set<DomNode>)
      requires Ok(forest) && this in forest && i < |kids| && kids[i] == removeThis
      modifies this`firstChild, this`lastChild, this`kids, kids`next, kids`prev
      ensures Departed(forest, forest - removeThis.repr, null) && this !in removeThis.repr && removeThis in forest
      ensures kids == old(kids)[..i] + old(kids)[i + 1..]
    {
      OkKids(forest);
      UnlinkLinked(removeThis, i);
      SpliceMembers(old(kids), i, i + 1, []);
      assert kids == old(kids)[..i] + [] + old(kids)[i + 1..];
      hide DomNode.Linked;
      hide LinksOk;
      hide NestsOk;
      LinksWithout(forest, removeThis, null);
    }

    lemma OkKids(forest: set<DomNode>)
      requires Ok(forest) && this in forest
      ensures LinksOk(forest) && Linked() && Distinct(kids)
      ensures forall m {:trigger m in kids} :: m in kids ==> m in forest && m.parent == this
    {
    }

    /** Dropping a child keeps the nesting of all nodes. */
    twostate lemma NestsWithout(forest: set<DomNode>, new i: nat)
      requires old(Ok(forest)) && this in forest
      requires i < |old(kids)| && kids == old(kids)[..i] + old(kids)[i + 1..]
      requires forall n :: n in forest && n != this ==> n.kids == old(n.kids)
      requires forall n :: n in forest ==> n.repr == old(n.repr) && n.parent == old(n.parent)
      ensures NestsOk(forest)
    {
      ThisNestsWithout(forest, i);
      forall n | n in forest && n != this ensures n.Nested() && n.repr <= forest {
        assert old(n.Nested());
      }
    }

    twostate lemma ThisNestsWithout(forest: set<DomNode>, new i: nat)
      requires old(Ok(forest)) && this in forest
      requires i < |old(kids)| && kids == old(kids)[..i] + old(kids)[i + 1..]
      requires forall n :: n in forest && n != this ==> n.kids == old(n.kids)
      requires forall n :: n in forest ==> n.repr == old(n.repr) && n.parent == old(n.parent)
      ensures Nested() && repr <= forest
    {
      assert old(Nested());
      assert forall k {:trigger kids[k]} :: 0 <= k < |kids| ==>
        kids[k] == if k < i then old(kids)[k] else old(kids)[k + 1];
    }

    /** `RemoveChild` of the `i`-th child. */
    method Unlink(ghost i: nat, removeThis: DomNode, ghost forest: set<DomNode>)
      requires Ok(forest) && this in forest && i < |kids| && kids[i] == removeThis
      modifies this`firstChild, this`lastChild, this`kids, kids`next, kids`prev, forest`repr
      ensures Ok(forest - old(removeThis.repr)) && this in forest - old(removeThis.repr)
      ensures kids == old(kids)[..i] + old(kids)[i + 1..]
      ensures forall n :: n in forest && n != this ==> n.kids == old(n.kids)
      ensures forall n :: n in forest ==> n.parent == old(n.parent)
      ensures forall n :: n in forest - old(removeThis.repr) ==> n.repr == old(n.repr) - old(removeThis.repr)
    {
      UnlinkLinks(removeThis, i, forest);
      hide DomNode.Linked;
      NestsWithout(forest, i);
      Prune(removeThis, forest);
    }

    // ----- the public edits

    /** `node` says after an edit of another node's child list what it said before. */
    twostate lemma TreeStays(forest: set<DomNode>, new rest: set<DomNode>, new node: DomNode)
      requires old(allocated(node)) && node in forest && node in rest && node.kind != DocumentType
      requires old(Ok(forest)) && Ok(rest) && this !in old(node.repr)
      requires forall m :: m in forest ==>
        m.value == old(m.value) && m.cdata == old(m.cdata) && m.attrs == old(m.attrs) && (m != this ==> m.kids == old(m.kids))
      ensures old(node.Valid()) && node.Valid() && node.Tree() == old(node.Tree())
    {
      OkValid(rest, node);
      assert old(OkFacts(forest, node));
      hide Ok;
      hide DomNode.Valid;
      node.TreeKept();
    }

    /** An edit of this child list, seen on the sequence of trees. */
    twostate lemma EditedTrees(forest: set<DomNode>, new rest: set<DomNode>, new i: nat, new j: nat, new mid: seq<DomNode>)
      requires this in forest && this in rest && old(Ok(forest)) && Ok(rest) && |mid| <= 1
      requires i <= j <= |old(kids)| && kids == old(kids)[..i] + mid + old(kids)[j..]
      requires forall m :: m in forest ==>
        m.value == old(m.value) && m.cdata == old(m.cdata) && m.attrs == old(m.attrs) && (m != this ==> m.kids == old(m.kids))
      ensures old(Valid()) && Valid()
      ensures mid != [] ==> mid[0].Valid() && mid[0].kind != DocumentType
      ensures Trees(0) == old(Trees(0))[..i] + (if mid == [] then [] else [mid[0].Tree()]) + old(Trees(0))[j..]
    {
      OkValid(rest, this);
      assert old(OkFacts(forest, this));
      hide Ok;
      hide DomNode.Valid;
      TreesSpliced(i, j, mid);
    }

    /** `LinkEndChild`: a document is refused, any other root of a tree becomes the last child. */
    method LinkEndChild(node: DomNode, ghost forest: set<DomNode>) returns (r: DomNode?)
      requires Ok(forest) && this in forest && node in forest
      requires node.parent == null && Apart(node, forest) && this !in node.repr
      modifies this`firstChild, this`lastChild, this`kids, kids`next
      modifies node`parent, node`prev, node`next, forest`repr
      ensures Ok(forest) && Valid()
      ensures node.kind == DocumentType ==> r == null && kids == old(kids) && repr == old(repr)
      ensures node.kind != DocumentType ==>
                && r == node && Adopted(forest, node) && kids == old(kids) + [node]
                && old(Valid()) && old(node.Valid()) && Trees(0) == old(Trees(0)) + [old(node.Tree())]
    {
      OkValid(forest, this);
      if node.kind == DocumentType {
        return null;
      }
      AppendTree(node, forest);
      r := node;
    }

    /** `LinkEndChild` of a node that is not a document, seen on trees. */
    method AppendTree(node: DomNode, ghost forest: set<DomNode>)
      requires Ok(forest) && this in forest && CanAdopt(node, forest)
      modifies this`firstChild, this`lastChild, this`kids, kids`next
      modifies node`parent, node`prev, node`next, forest`repr
      ensures Adopted(forest, node) && kids == old(kids) + [node]
      ensures old(Valid()) && Valid() && old(node.Valid()) && Trees(0) == old(Trees(0)) + [old(node.Tree())]
    {
      hide *;
      Append(node, forest);
      AppendedTrees(forest, node);
      AppendedStays(forest, node);
    }

    twostate lemma AppendedTrees(forest: set<DomNode>, new node: DomNode)
      requires this in forest && old(Ok(forest)) && Adopted(forest, node) && kids == old(kids) + [node]
      requires forall m :: m in forest ==> m.value == old(m.value) && m.cdata == old(m.cdata) && m.attrs == old(m.attrs)
      ensures old(Valid()) && Valid() && node.Valid() && node.kind != DocumentType
      ensures Trees(0) == old(Trees(0)) + [node.Tree()]
    {
      AppendIsSplice(old(kids), node);
      hide Ok;
      hide DomNode.Valid;
      hide DomNode.Trees;
      hide DomNode.Tree;
      EditedTrees(forest, forest, |old(kids)|, |old(kids)|, [node]);
      AppendIsSplice(old(Trees(0)), node.Tree());
    }

    twostate lemma AppendedStays(forest: set<DomNode>, new node: DomNode)
      requires this in forest && old(Ok(forest)) && old(allocated(node)) && old(CanAdopt(node, forest)) && Adopted(forest, node)
      requires forall m :: m in forest ==> m.value == old(m.value) && m.cdata == old(m.cdata) && m.attrs == old(m.attrs)
      ensures node.kind != DocumentType && old(node.Valid()) && node.Valid() && node.Tree() == old(node.Tree())
    {
      hide Ok;
      hide DomNode.Valid;
      hide Apart;
      hide DomNode.Tree;
      TreeStays(forest, forest, node);
    }

    /** The attribute part of `CopyTo`: the walk over the source's attributes, each set on the target through
        `const char*`. */
    method CopyAttributesTo(target: DomNode)
      requires target.attrs == [] && target != this && UniqueNames(attrs)
      modifies target`attrs
      ensures target.attrs == CopyAttrs(attrs)
    {
      var i := 0;
      WalkPrefix(attrs, 0);
      while i < |attrs| && (i == 0 || attrs[i] != Attr("", ""))
        invariant 0 <= i <= |attrs| && attrs == old(attrs)
        invariant i <= |Walk(attrs)|
        invariant target.attrs == PutAll([], CutAll(attrs[..i]))
      {
        WalkPrefix(attrs, i);
        PutNext(attrs, i);
        target.attrs := Put(target.attrs, Cut(attrs[i]));
        i := i + 1;
      }
      WalkPrefix(attrs, i);
      assert Walk(attrs) == attrs[..i];
    }

    /** `CopyTo` and `Clone`: a copy of the subtree, made of new nodes only. */
    method Clone() returns (r: DomNode)
      requires Valid() && kind != DocumentType && Copyable(Tree())
      ensures fresh(r.repr) && r.Standalone() && r.kind == kind
      ensures r.Tree() == Copy(Tree())
      decreases repr, 2
    {
      hide *;
      r := new DomNode(kind, CString(value));
      r.cdata := cdata;
      if kind == ElementType {
        ElementTree();
        CopyAttributesTo(r);
        CloneKidsTo(r);
        r.ElementTree();
        CopyElement(value, attrs, Trees(0));
      } else {
        LeafTree();
        r.LeafTree();
      }
    }

    lemma ElementTree()
      requires Valid() && kind == ElementType
      ensures Tree() == Element(value, attrs, Trees(0))
      ensures Copyable(Tree()) ==> UniqueNames(attrs)
    {
    }

    lemma LeafTree()
      requires Valid() && kind != ElementType && kind != DocumentType
      ensures Tree() == (match kind case CommentType => Comment(value) case UnknownType => Unknown(value) case _ => Text(value, cdata))
      ensures Copy(Tree()) == (match kind case CommentType => Comment(CString(value)) case UnknownType => Unknown(CString(value))
                               case _ => Text(CString(value), cdata))
    {
    }

    static lemma CopyElement(value: string, attrs: seq<Attr>, kids: seq<Node>)
      ensures Copy(Element(value, attrs, kids)) == Element(CString(value), CopyAttrs(attrs), CopyAll(kids))
    {
    }

    /** A copy in the making: the root of a tree of its own, all of it well formed. */
    ghost predicate Standalone()
      reads this`repr, repr`kids, repr`repr, repr`parent, repr`prev, repr`next, repr`firstChild, repr`lastChild, this`parent
      ensures Standalone() ==> this in repr && parent == null && Valid()
    {
      Ok(repr) && this in repr && parent == null && Valid()
    }

    /** The child part of `CopyTo`. */
    method CloneKidsTo(target: DomNode)
      requires Valid() && kind == ElementType && Copyable(Tree())
      requires target !in repr && target.repr == {target} && target.Standalone() && target.Valid() && target.kids == []
      modifies target`firstChild, target`lastChild, target`kids, target`repr
      ensures fresh(target.repr - {target}) && target.Standalone()
      ensures target.Trees(0) == CopyAll(Trees(0))
      decreases repr, 1
    {
      hide *;
      ghost var k: nat := 0;
      var c := FirstKid();
      target.NoTrees();
      ghost var copies := CopyAll(Trees(0));
      while c != null
        invariant k <= |kids| && c == (if k < |kids| then kids[k] else null)
        invariant fresh(target.repr - {target}) && target.Standalone()
        invariant target.Trees(0) == copies[..k]
        decreases |kids| - k
      {
        CloneKidTo(c, k, target);
        assert copies[..k] + [copies[k]] == copies[..k + 1];
        c := NextKid(c, k);
        k := k + 1;
      }
    }

    lemma NoTrees()
      requires Valid() && kids == []
      ensures Trees(0) == []
    {
    }

    method FirstKid() returns (n: DomNode?)
      requires Valid()
      ensures n == if 0 < |kids| then kids[0] else null
    {
      assert Nested() && Linked();
      n := firstChild;
    }

    method NextKid(c: DomNode, ghost k: nat) returns (n: DomNode?)
      requires Valid() && k < |kids| && c == kids[k]
      ensures n == if k + 1 < |kids| then kids[k + 1] else null
    {
      assert Nested() && Linked();
      NeighboursAt(k);
      n := c.next;
    }

    /** One round of it: `target->LinkEndChild( node->Clone() )`. */
    method CloneKidTo(c: DomNode, ghost k: nat, target: DomNode)
      requires Valid() && kind == ElementType && Copyable(Tree())
      requires k < |kids| && c == kids[k] && target.Standalone() && target.repr !! repr
      modifies target`firstChild, target`lastChild, target`kids, (target.repr - {target})`next, target.repr`repr
      ensures fresh(target.repr - old(target.repr)) && target.Standalone()
      ensures target.Trees(0) == old(target.Trees(0)) + [CopyAll(Trees(0))[k]]
      decreases repr, 0
    {
      hide *;
      CopyableKid(k);
      ghost var trees := Trees(0);
      var n := c.Clone();
      assert n.Tree() == CopyAll(trees)[k];
      target.AppendFresh(n);
      assert Trees(0) == trees;
    }

    /** `LinkEndChild` of a new tree. */
    method AppendFresh(n: DomNode)
      requires Standalone() && n.Standalone() && repr !! n.repr && n.kind != DocumentType
      modifies this`firstChild, this`lastChild, this`kids, (repr - {this})`next, repr`repr
      modifies n`parent, n`prev, n`next, n.repr`repr
      ensures Standalone() && repr == old(repr) + old(n.repr) && kids == old(kids) + [n]
      ensures Trees(0) == old(Trees(0)) + [old(n.Tree())]
    {
      ghost var forest := repr + n.repr;
      CanAdoptFresh(n);
      AppendTree(n, forest);
      assert repr == forest;
      OkValid(forest, this);
    }

    lemma CanAdoptFresh(n: DomNode)
      requires Standalone() && n.Standalone() && repr !! n.repr && n.kind != DocumentType
      ensures Ok(repr + n.repr) && CanAdopt(n, repr + n.repr) && this in repr
      ensures forall m {:trigger m in kids} :: m in kids ==> m in repr && m != this
    {
      OkUnion(repr, n.repr);
      assert Nested();
    }

    lemma CopyableKid(k: nat)
      requires Valid() && kind == ElementType && Copyable(Tree()) && k < |kids|
      ensures TreeFacts(k) && kids[k].repr < repr
      ensures Copyable(kids[k].Tree()) && CopyAll(Trees(0))[k] == Copy(kids[k].Tree())
    {
      assert TreeFacts(k);
      assert Trees(0)[k] in Trees(0);
      assert Nested();
    }

    twostate lemma AdoptedTrees(forest: set<DomNode>, new node: DomNode, new i: nat)
      requires this in forest && old(Ok(forest)) && Adopted(forest, node)
      requires i <= |old(kids)| && kids == old(kids)[..i] + [node] + old(kids)[i..]
      requires forall m :: m in forest ==> m.value == old(m.value) && m.cdata == old(m.cdata) && m.attrs == old(m.attrs)
      ensures old(Valid()) && Valid() && node.Valid() && node.kind != DocumentType
      ensures Trees(0) == old(Trees(0))[..i] + [node.Tree()] + old(Trees(0))[i..]
    {
      hide Ok;
      hide DomNode.Valid;
      hide DomNode.Trees;
      hide DomNode.Tree;
      EditedTrees(forest, forest, i, i, [node]);
    }

    twostate lemma AdoptedUnfold(forest: set<DomNode>, new node: DomNode)
      requires Adopted(forest, node) && old(CanAdopt(node, forest))
      ensures Ok(forest) && node.repr == old(node.repr)
      ensures forall n :: n in forest && n != node ==> n.parent == old(n.parent) && (n != this ==> n.kids == old(n.kids))
    {
    }

    /** Nothing in the forest has changed. */
    twostate predicate Untouched(forest: set<DomNode>)
      reads forest
    {
      Ok(forest) && forall n :: n in forest ==> n.kids == old(n.kids) && n.repr == old(n.repr) && n.parent == old(n.parent)
    }

    /** No child list of the forest but this one has changed, and no node has left its parent. */
    twostate predicate OthersKept(forest: set<DomNode>)
      reads forest
    {
      forall n :: n in forest ==> n.parent == old(n.parent) && (n != this ==> n.kids == old(n.kids))
    }

    twostate lemma StillUntouched(forest: set<DomNode>)
      requires old(Ok(forest)) && Ok(forest)
      requires forall n :: n in forest ==> n.kids == old(n.kids) && n.repr == old(n.repr) && n.parent == old(n.parent)
      ensures Untouched(forest)
    {
    }

    twostate lemma GrownFacts(forest: set<DomNode>, new grown: set<DomNode>, new node: DomNode)
      requires forall n :: n in forest ==> n.parent == old(n.parent) && (n != this ==> n.kids == old(n.kids))
      ensures OthersKept(forest)
    {
    }

    /** The place of a child among its siblings. */
    ghost method ChildIndex(c: DomNode, forest: set<DomNode>) returns (i: nat)
      requires Ok(forest) && this in forest && c in forest && c.parent == this
      ensures i < |kids| && kids[i] == c
    {
      i :| 0 <= i < |kids| && kids[i] == c;
    }

    /** A new tree can be adopted by any node of the forest it joins. */
    lemma FreshAdoptable(node: DomNode, forest: set<DomNode>)
      requires Ok(forest) && this in forest && node.Standalone() && forest !! node.repr && node.kind != DocumentType
      ensures Ok(forest + node.repr) && CanAdopt(node, forest + node.repr)
    {
      OkUnion(forest, node.repr);
    }

    /** `InsertBeforeChild` of a copy, seen on trees. */
    method LinkBeforeTree(ghost i: nat, beforeThis: DomNode, node: DomNode, ghost forest: set<DomNode>)
      requires Ok(forest) && this in forest && CanAdopt(node, forest)
      requires i < |kids| && kids[i] == beforeThis
      modifies this`firstChild, this`lastChild, this`kids, kids`next, kids`prev
      modifies node`parent, node`prev, node`next, forest`repr
      ensures Ok(forest) && node.repr == old(node.repr) && kids == old(kids)[..i] + [node] + old(kids)[i..]
      ensures forall n :: n in forest && n != node ==> n.parent == old(n.parent) && (n != this ==> n.kids == old(n.kids))
      ensures old(Valid()) && Valid() && old(node.Valid()) && node.Valid() && node.Tree() == old(node.Tree())
      ensures Trees(0) == old(Trees(0))[..i] + [node.Tree()] + old(Trees(0))[i..]
    {
      hide *;
      LinkBefore(i, beforeThis, node, forest);
      AdoptedTrees(forest, node, i);
      AppendedStays(forest, node);
      AdoptedUnfold(forest, node);
    }

    /** `InsertAfterChild` of a copy, seen on trees. */
    method LinkAfterTree(ghost i: nat, afterThis: DomNode, node: DomNode, ghost forest: set<DomNode>)
      requires Ok(forest) && this in forest && CanAdopt(node, forest)
      requires i < |kids| && kids[i] == afterThis
      modifies this`firstChild, this`lastChild, this`kids, kids`next, kids`prev
      modifies node`parent, node`prev, node`next, forest`repr
      ensures Ok(forest) && node.repr == old(node.repr) && kids == old(kids)[..i + 1] + [node] + old(kids)[i + 1..]
      ensures forall n :: n in forest && n != node ==> n.parent == old(n.parent) && (n != this ==> n.kids == old(n.kids))
      ensures old(Valid()) && Valid() && old(node.Valid()) && node.Valid() && node.Tree() == old(node.Tree())
      ensures Trees(0) == old(Trees(0))[..i + 1] + [node.Tree()] + old(Trees(0))[i + 1..]
    {
      hide *;
      LinkAfter(i, afterThis, node, forest);
      AdoptedTrees(forest, node, i + 1);
      AppendedStays(forest, node);
      AdoptedUnfold(forest, node);
    }

    /** `InsertBeforeChild`: nothing happens for a null or foreign `beforeThis` or a document; otherwise a copy of
        `addThis` is linked in, also when `addThis` is this node, one above it or a child of it. */
    method InsertBeforeChild(beforeThis: DomNode?, addThis: DomNode, ghost forest: set<DomNode>)
      returns (r: DomNode?, ghost i: nat, ghost grown: set<DomNode>)
      requires Ok(forest) && this in forest && addThis in forest && (beforeThis != null ==> beforeThis in forest)
      requires addThis.kind != DocumentType ==> addThis.Valid() && Copyable(addThis.Tree())
      modifies this`firstChild, this`lastChild, this`kids, kids`next, kids`prev, forest`repr
      ensures r == null <==> beforeThis == null || beforeThis.parent != this || addThis.kind == DocumentType
      ensures r == null ==> Untouched(forest) && grown == forest
      ensures r != null ==>
                && fresh(r.repr) && Ok(grown) && grown == forest + r.repr && OthersKept(forest)
                && i < |old(kids)| && old(kids)[i] == beforeThis && kids == old(kids)[..i] + [r] + old(kids)[i..]
                && old(Valid()) && Valid()
                && Trees(0) == old(Trees(0))[..i] + [Copy(old(addThis.Tree()))] + old(Trees(0))[i..]
    {
      hide *;
      i, grown, r := 0, forest, null;
      if beforeThis == null || beforeThis.parent != this || addThis.kind == DocumentType {
        StillUntouched(forest);
        return;
      }
      i := ChildIndex(beforeThis, forest);
      OkValid(forest, this);
      ghost var trees, tree := Trees(0), addThis.Tree();
      var node := addThis.Clone();
      assert Trees(0) == trees;
      grown := forest + node.repr;
      FreshAdoptable(node, forest);
      LinkBeforeTree(i, beforeThis, node, grown);
      GrownFacts(forest, grown, node);
      r := node;
    }

    /** `InsertAfterChild`: nothing happens for a null or foreign `afterThis` or a document; otherwise a copy of
        `addThis` is linked in, also when `addThis` is this node, one above it or a child of it. */
    method InsertAfterChild(afterThis: DomNode?, addThis: DomNode, ghost forest: set<DomNode>)
      returns (r: DomNode?, ghost i: nat, ghost grown: set<DomNode>)
      requires Ok(forest) && this in forest && addThis in forest && (afterThis != null ==> afterThis in forest)
      requires addThis.kind != DocumentType ==> addThis.Valid() && Copyable(addThis.Tree())
      modifies this`firstChild, this`lastChild, this`kids, kids`next, kids`prev, forest`repr
      ensures r == null <==> afterThis == null || afterThis.parent != this || addThis.kind == DocumentType
      ensures r == null ==> Untouched(forest) && grown == forest
      ensures r != null ==>
                && fresh(r.repr) && Ok(grown) && grown == forest + r.repr && OthersKept(forest)
                && i < |old(kids)| && old(kids)[i] == afterThis && kids == old(kids)[..i + 1] + [r] + old(kids)[i + 1..]
                && old(Valid()) && Valid()
                && Trees(0) == old(Trees(0))[..i + 1] + [Copy(old(addThis.Tree()))] + old(Trees(0))[i + 1..]
    {
      hide *;
      i, grown, r := 0, forest, null;
      if afterThis == null || afterThis.parent != this || addThis.kind == DocumentType {
        StillUntouched(forest);
        return;
      }
      i := ChildIndex(afterThis, forest);
      OkValid(forest, this);
      ghost var trees, tree := Trees(0), addThis.Tree();
      var node := addThis.Clone();
      assert Trees(0) == trees;
      grown := forest + node.repr;
      FreshAdoptable(node, forest);
      LinkAfterTree(i, afterThis, node, grown);
      GrownFacts(forest, grown, node);
      r := node;
    }

    /** `ReplaceChild` by a copy, seen on trees. */
    method LinkAroundTree(ghost i: nat, replaceThis: DomNode, node: DomNode, ghost forest: set<DomNode>)
      requires Ok(forest) && this in forest && CanAdopt(node, forest)
      requires i < |kids| && kids[i] == replaceThis
      modifies this`firstChild, this`lastChild, this`kids, kids`next, kids`prev
      modifies node`parent, node`prev, node`next, forest`repr
      ensures Ok(forest - old(replaceThis.repr)) && this in forest - old(replaceThis.repr)
      ensures node.repr == old(node.repr) && node.repr !! old(replaceThis.repr)
      ensures kids == old(kids)[..i] + [node] + old(kids)[i + 1..]
      ensures forall n :: n in forest && n != node ==> n.parent == old(n.parent) && (n != this ==> n.kids == old(n.kids))
      ensures old(Valid()) && Valid() && old(node.Valid()) && node.Valid() && node.Tree() == old(node.Tree())
      ensures Trees(0) == old(Trees(0))[..i] + [node.Tree()] + old(Trees(0))[i + 1..]
    {
      hide *;
      ReplacedApart(replaceThis, node, forest, i);
      LinkAround(i, replaceThis, node, forest);
      ghost var rest := forest - old(replaceThis.repr);
      EditedTrees(forest, rest, i, i + 1, [node]);
      TreeStays(forest, rest, node);
      assert node.repr == old(node.repr);
    }

    lemma ReplacedApart(x: DomNode, node: DomNode, forest: set<DomNode>, i: nat)
      requires Ok(forest) && this in forest && CanAdopt(node, forest) && i < |kids| && kids[i] == x
      ensures node !in x.repr && node in forest && node in node.repr && node.repr !! x.repr
      ensures node.kind != DocumentType && this !in node.repr
    {
      NotBelow(x, node, forest);
      assert Nested() && Linked() && node.Nested();
      assert x.parent == this && x != node;
    }

    /** `ReplaceChild`: nothing happens for a null or foreign `replaceThis` or a document; otherwise a copy of
        `withThis` takes its place, also when `withThis` stood inside what is replaced. */
    method ReplaceChild(replaceThis: DomNode?, withThis: DomNode, ghost forest: set<DomNode>)
      returns (r: DomNode?, ghost i: nat, ghost rest: set<DomNode>)
      requires Ok(forest) && this in forest && withThis in forest && (replaceThis != null ==> replaceThis in forest)
      requires withThis.kind != DocumentType ==> withThis.Valid() && Copyable(withThis.Tree())
      modifies this`firstChild, this`lastChild, this`kids, kids`next, kids`prev, forest`repr
      ensures r == null <==> replaceThis == null || old(replaceThis.parent) != this || withThis.kind == DocumentType
      ensures r == null ==> Untouched(forest) && rest == forest
      ensures r != null ==>
                && fresh(r.repr) && Ok(rest) && rest == forest - old(replaceThis.repr) + r.repr && OthersKept(forest)
                && i < |old(kids)| && old(kids)[i] == replaceThis && kids == old(kids)[..i] + [r] + old(kids)[i + 1..]
                && old(Valid()) && Valid()
                && Trees(0) == old(Trees(0))[..i] + [Copy(old(withThis.Tree()))] + old(Trees(0))[i + 1..]
    {
      hide *;
      i, rest, r := 0, forest, null;
      if replaceThis == null || replaceThis.parent != this || withThis.kind == DocumentType {
        StillUntouched(forest);
        return;
      }
      i := ChildIndex(replaceThis, forest);
      OkValid(forest, this);
      ghost var trees := Trees(0);
      var node := withThis.Clone();
      assert Trees(0) == trees;
      FreshAdoptable(node, forest);
      LinkAroundTree(i, replaceThis, node, forest + node.repr);
      rest := (forest + node.repr) - old(replaceThis.repr);
      GrownFacts(forest, rest, node);
      r := node;
    }

    /** `RemoveChild`, seen on trees. */
    method UnlinkTree(ghost i: nat, removeThis: DomNode, ghost forest: set<DomNode>)
      requires Ok(forest) && this in forest && i < |kids| && kids[i] == removeThis
      modifies this`firstChild, this`lastChild, this`kids, kids`next, kids`prev, forest`repr
      ensures Ok(forest - old(removeThis.repr)) && this in forest - old(removeThis.repr)
      ensures kids == old(kids)[..i] + old(kids)[i + 1..]
      ensures forall n :: n in forest ==> n.parent == old(n.parent) && (n != this ==> n.kids == old(n.kids))
      ensures old(Valid()) && Valid() && Trees(0) == old(Trees(0))[..i] + old(Trees(0))[i + 1..]
    {
      hide *;
      Unlink(i, removeThis, forest);
      assert kids == old(kids)[..i] + [] + old(kids)[i + 1..];
      EditedTrees(forest, forest - old(removeThis.repr), i, i + 1, []);
      assert old(Trees(0))[..i] + [] + old(Trees(0))[i + 1..] == old(Trees(0))[..i] + old(Trees(0))[i + 1..];
    }

    /** `RemoveChild`: false for null and for a node that is not a child, on which the source also asserts. */
    method RemoveChild(removeThis: DomNode?, ghost forest: set<DomNode>) returns (r: bool, ghost i: nat)
      requires Ok(forest) && this in forest
      requires removeThis != null ==> removeThis in forest
      modifies this`firstChild, this`lastChild, this`kids, kids`next, kids`prev, forest`repr
      ensures r <==> removeThis != null && old(removeThis.parent) == this
      ensures !r ==> Untouched(forest)
      ensures r ==>
                && Ok(forest - old(removeThis.repr)) && OthersKept(forest)
                && i < |old(kids)| && old(kids)[i] == removeThis && kids == old(kids)[..i] + old(kids)[i + 1..]
                && old(Valid()) && Valid() && Trees(0) == old(Trees(0))[..i] + old(Trees(0))[i + 1..]
    {
      hide *;
      i := 0;
      if removeThis == null || removeThis.parent != this {
        StillUntouched(forest);
        return false, i;
      }
      i := ChildIndex(removeThis, forest);
      UnlinkTree(i, removeThis, forest);
      GrownFacts(forest, forest, this);
      r := true;
    }

    lemma OkUnfold(node: DomNode, forest: set<DomNode>)
      requires Ok(forest) && this in forest && CanAdopt(node, forest)
      ensures LinksOk(forest) && node != this && Linked() && Without(kids, node) && Distinct(kids)
      ensures forall m {:trigger m in kids} :: m in kids ==> m in forest && m.parent == this
    {
      assert node.Nested();
      KidsOnly(node, forest);
    }
  }

  lemma LinksClosed(forest: set<DomNode>)
    requires LinksOk(forest)
    ensures forall n, i {:trigger n.kids[i]} :: n in forest && 0 <= i < |n.kids| ==> n.kids[i] in forest
    ensures forall n {:trigger n.parent} :: n in forest && n.parent != null ==> n.parent in forest
  {
  }

  /** The `i`-th node of a list, null past its end. */
  ghost function At(ks: seq<DomNode>, i: nat): DomNode? {
    if i < |ks| then ks[i] else null
  }

  /** The node in front of the `i`-th, null at the start. */
  ghost function Before(ks: seq<DomNode>, i: nat): DomNode?
    requires i <= |ks|
  {
    if i == 0 then null else ks[i - 1]
  }

  /** Neighbours of the sequence point at each other. */
  ghost predicate Segment(ks: seq<DomNode>)
    reads ks`prev, ks`next
  {
    forall i, j {:trigger ks[i], ks[j]} :: 0 <= i < j < |ks| && j == i + 1 ==> ks[i].next == ks[j] && ks[j].prev == ks[i]
  }

  lemma AppendIsSplice<T>(s: seq<T>, x: T)
    ensures s[..|s|] + [x] + s[|s|..] == s + [x]
  {
  }

  lemma SpliceMembers(was: seq<DomNode>, i: nat, j: nat, mid: seq<DomNode>)
    requires i <= j <= |was|
    ensures var now := was[..i] + mid + was[j..];
            && (forall n {:trigger n in now} :: n in now ==> n in was || n in mid)
            && (forall n {:trigger n in now} :: n in mid ==> n in now)
            && (forall k {:trigger was[k]} :: 0 <= k < |was| && (k < i || j <= k) ==> was[k] in now)
  {
    var now := was[..i] + mid + was[j..];
    forall k {:trigger was[k]} | 0 <= k < |was| && (k < i || j <= k) ensures was[k] in now {
      assert was[k] == now[if k < i then k else k - j + i + |mid|];
    }
  }

  predicate Distinct(ks: seq<DomNode>) {
    forall i, j :: 0 <= i < j < |ks| ==> ks[i] != ks[j]
  }

  /** The parts of a list without repetition have none either and share no node. */
  lemma PartsApart(ks: seq<DomNode>, i: nat, j: nat)
    requires Distinct(ks) && i <= j <= |ks|
    ensures Distinct(ks[..i]) && Distinct(ks[j..]) && Disjoint(ks[..i], ks[j..])
  {
  }

  predicate Disjoint(a: seq<DomNode>, b: seq<DomNode>) {
    forall k, l :: 0 <= k < |a| && 0 <= l < |b| ==> a[k] != b[l]
  }

  predicate Without(a: seq<DomNode>, n: DomNode?) {
    forall k :: 0 <= k < |a| ==> a[k] != n
  }

  lemma DistinctSplice(a: seq<DomNode>, mid: seq<DomNode>, b: seq<DomNode>)
    requires Distinct(a) && Distinct(b) && Disjoint(a, b) && |mid| <= 1
    requires mid != [] ==> Without(a, mid[0]) && Without(b, mid[0])
    ensures Distinct(a + mid + b)
  {
    var now := a + mid + b;
    forall i, j | 0 <= i < j < |now| ensures now[i] != now[j] {
      assert now[i] == if i < |a| then a[i] else if i < |a| + |mid| then mid[0] else b[i - |a| - |mid|];
      assert now[j] == if j < |a| then a[j] else if j < |a| + |mid| then mid[0] else b[j - |a| - |mid|];
    }
  }

  /** `node`'s subtree is disjoint from the subtree of every node outside it. */
  ghost predicate Apart(node: DomNode, forest: set<DomNode>)
    reads node`repr, forest`repr
  {
    forall n {:trigger n.repr} :: n in forest ==> n in node.repr || n.repr !! node.repr
  }

  /** Every child list of the forest is linked; a node with a parent is one of its children. */
  ghost predicate LinksOk(forest: set<DomNode>)
    reads forest`kids, forest`firstChild, forest`lastChild, forest`parent, forest`prev, forest`next
  {
    && (forall n, i {:trigger n.kids[i]} :: n in forest && 0 <= i < |n.kids| ==> n.kids[i] in forest)
    && (forall n {:trigger n.Linked()} :: n in forest ==> n.Linked())
    && (forall n {:trigger n.parent} :: n in forest && n.parent != null ==> n.parent in forest && n in n.parent.kids)
  }

  ghost predicate NestsOk(forest: set<DomNode>)
    reads forest`kids, forest`repr, forest`parent
  {
    forall n {:trigger n.repr} {:trigger n.Nested()} :: n in forest ==> n.repr <= forest && n.Nested()
  }

  /** A closed set of well-formed nodes. */
  ghost predicate Ok(forest: set<DomNode>)
    reads forest`kids, forest`repr, forest`firstChild, forest`lastChild, forest`parent, forest`prev, forest`next
  {
    LinksOk(forest) && NestsOk(forest)
  }

  lemma OkValid(forest: set<DomNode>, n: DomNode)
    requires Ok(forest) && n in forest
    ensures n.Valid()
  {
    assert n.Nested();
    forall m | m in n.repr ensures m.repr <= n.repr && m.Nested() && m.Linked() {
      assert m in forest;
    }
  }

  /** `OkValid` as a fact that can be stated of an earlier state. */
  ghost predicate OkFacts(forest: set<DomNode>, n: DomNode)
    requires Ok(forest) && n in forest
    reads forest
    ensures OkFacts(forest, n) && n.repr <= forest && n.Valid()
  {
    OkValid(forest, n);
    assert n.Nested();
    true
  }

  /** Two closed sets with no node in common make one. */
  lemma OkUnion(a: set<DomNode>, b: set<DomNode>)
    requires Ok(a) && Ok(b) && a !! b
    ensures Ok(a + b)
  {
  }
}
