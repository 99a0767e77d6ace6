/** Copying a tree of nodes: a new tree that shares no node with the old one and holds the same. */
module JsonDuplicate {
  import opened JsonList
  import opened JsonForest

  /**
   * Copies a node, with everything below it when `recurse` is set.  The copy is a tree of
   * new nodes that holds what the original holds, and the original is left as it was.
   */
  method Duplicate(item: Node?, recurse: bool, ghost f: Forest, ghost c: Content) returns (copy: Node?, ghost g: Forest)
    requires item != null ==> Whole(f) && item in f.nodes && f.content[item] == c
    ensures copy == null <==> item == null
    ensures copy != null ==> fresh(g.nodes) && Tree(g, copy) && copy.next == null && copy.prev == null
    ensures copy != null ==> g.content[copy] == if recurse then c else Content(item.data, [])
    decreases c, 3, 0
  {
    if item == null {
      return null, NOTHING;
    }
    copy, g := DuplicateNode(item, recurse, f, c);
  }

  method DuplicateNode(item: Node, recurse: bool, ghost f: Forest, ghost c: Content)
    returns (copy: Node, ghost g: Forest)
    requires Whole(f) && item in f.nodes && f.content[item] == c
    ensures fresh(g.nodes) && Tree(g, copy) && copy.next == null && copy.prev == null
    ensures g.content[copy] == if recurse then c else Content(item.data, [])
    decreases c, 2, 0
  {
    hide Whole;
    hide Tree;
    hide Gathered;
    hide Crowned;
    hide Contents;
    KidsOf(item.data, f, item, c);
    var newitem := new Node();
    newitem.data := item.data;
    ghost var h: Forest, roots: seq<Node> := NOTHING, [];
    NothingGathered();
    var newchild: Node? := null;
    if recurse {
      newchild, h, roots := CopyChildren(newitem, item, f, c);
    }
    CloseList(newitem, newchild, h, roots);
    CrownedFacts(h, roots, newitem, newitem.data);
    copy, g := newitem, Crowned(h, roots, newitem, newitem.data);
  }

  /** Copies the children of a node one after the other, in the order of their `next` links. */
  method CopyChildren(newitem: Node, item: Node, ghost f: Forest, ghost c: Content)
    returns (last: Node?, ghost h: Forest, ghost roots: seq<Node>)
    requires Whole(f) && item in f.nodes && f.content[item] == c && newitem !in f.nodes && newitem.child == null
    modifies newitem`child
    ensures fresh(h.nodes) && Gathered(h, roots)
    ensures newitem.child == At(roots, 0) && last == At(roots, |roots| - 1)
    ensures (forall r :: r in roots ==> r in h.content) && Contents(h, roots) == c.kids
    decreases c, 1, 0
  {
    hide Whole;
    hide Gathered;
    hide Bears;
    hide Contents;
    KidsOf(item.data, f, item, c);
    ghost var ks := f.kids[item];
    h, roots, last := NOTHING, [], null;
    NothingGathered();
    NothingBorne();
    var child := item.child;
    while child != null
      invariant |roots| <= |ks| && child == At(ks, |roots|)
      invariant fresh(h.nodes) && Gathered(h, roots) && Whole(f)
      invariant newitem.child == At(roots, 0) && last == At(roots, |roots| - 1)
      invariant Bears(h, roots, c.kids[..|roots|])
      decreases |ks| - |roots|
    {
      assert child == ks[|roots|];
      last, h := CopyChild(newitem, last, child, item, f, c, h, roots);
      roots := roots + [last];
      child := child.next;
    }
    assert c.kids[..|roots|] == c.kids;
    AllBorne(h, roots, c.kids);
  }

  /** One turn of the loop: copies one child and hangs the copy behind the others. */
  method CopyChild(newitem: Node, last: Node?, child: Node, ghost item: Node, ghost f: Forest, ghost c: Content,
                   ghost h: Forest, ghost roots: seq<Node>)
    returns (newchild: Node, ghost k: Forest)
    requires Whole(f) && item in f.nodes && f.content[item] == c && newitem !in f.nodes
    requires item in f.kids && |roots| < |f.kids[item]| && child == f.kids[item][|roots|]
    requires Gathered(h, roots) && newitem !in h.nodes && f.nodes !! h.nodes
    requires newitem.child == At(roots, 0) && last == At(roots, |roots| - 1)
    requires |f.kids[item]| == |c.kids| && Bears(h, roots, c.kids[..|roots|])
    modifies newitem`child, h.nodes`next
    ensures Gathered(k, roots + [newchild]) && fresh(k.nodes - h.nodes)
    ensures Bears(k, roots + [newchild], c.kids[..|roots| + 1])
    ensures newitem.child == At(roots + [newchild], 0)
    ensures Whole(f) && child.next == At(f.kids[item], |roots| + 1)
    decreases c, 0, 0
  {
    hide Whole;
    hide Gathered;
    hide Bears;
    KidsOf(item.data, f, item, c);
    newchild, k := CopyOne(newitem, last, child, f, c.kids[|roots|], h, roots);
    BearsMore(h, k, roots, c.kids[..|roots|], newchild, c.kids[|roots|]);
    assert c.kids[..|roots| + 1] == c.kids[..|roots|] + [c.kids[|roots|]];
  }

  method CopyOne(
    newitem: Node, last: Node?, child: Node, ghost f: Forest, ghost c: Content, ghost h: Forest, ghost roots: seq<Node>)
    returns (newchild: Node, ghost k: Forest)
    requires Whole(f) && child in f.nodes && f.content[child] == c && newitem !in f.nodes
    requires Gathered(h, roots) && newitem !in h.nodes
    requires newitem.child == At(roots, 0) && last == At(roots, |roots| - 1)
    modifies newitem`child, h.nodes`next
    ensures Gathered(k, roots + [newchild]) && fresh(k.nodes - h.nodes)
    ensures newitem.child == At(roots + [newchild], 0)
    ensures newchild in k.content && k.content[newchild] == c
    ensures forall r {:trigger r in roots} :: r in roots ==>
      r in h.content && r in k.content && k.content[r] == h.content[r]
    decreases c, 4, 0
  {
    hide Whole;
    hide Apart;
    hide Row;
    var copy;
    ghost var g;
    copy, g := Duplicate(child, true, f, c);
    newchild := copy;
    RootsKnown(h, roots);
    TreeIsClosed(g, newchild);
    UnionContains(h, g);
    Attach(newitem, last, newchild, Step(h, roots, g, newchild));
    k := Union(h, g);
  }
}
