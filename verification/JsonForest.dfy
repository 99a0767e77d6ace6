/** Forests of nodes: which nodes belong together, what they hold, and how trees are put together. */
module JsonForest {
  import opened JsonList

  /** What a node holds with everything below it. */
  datatype Content = Content(data: Data, kids: seq<Content>)

  /** Nodes with the children of each, what each holds, and whose child each is. */
  datatype Forest = Forest(
    nodes: set<Node>, kids: map<Node, seq<Node>>, content: map<Node, Content>, up: map<Node, (Node, nat)>)

  ghost predicate Closed(f: Forest) {
    && f.kids.Keys == f.nodes && f.content.Keys == f.nodes && f.up.Keys <= f.nodes
    && (forall n, i {:trigger f.kids[n][i]} :: n in f.nodes && 0 <= i < |f.kids[n]| ==> f.kids[n][i] in f.nodes)
  }

  ghost predicate Holds(n: Node, f: Forest)
    reads n
    requires Closed(f) && n in f.nodes
  {
    var c := f.content[n];
    && c.data == n.data && |c.kids| == |f.kids[n]|
    && forall i {:trigger f.kids[n][i]} {:trigger c.kids[i]} :: 0 <= i < |c.kids| ==>
      c.kids[i] == f.content[f.kids[n][i]]
  }

  /** Every list of children is well formed and the contents are those of the nodes. */
  ghost predicate Whole(f: Forest)
    reads f.nodes
  {
    Closed(f) && forall n {:trigger n in f.nodes} :: n in f.nodes ==> Children(n, f.kids[n]) && Holds(n, f)
  }

  /** No node is a child twice. */
  ghost predicate Apart(f: Forest)
    requires Closed(f)
  {
    forall n, i {:trigger f.kids[n][i]} :: n in f.nodes && 0 <= i < |f.kids[n]| ==>
      f.kids[n][i] in f.up && f.up[f.kids[n][i]] == (n, i)
  }

  /** A single tree under `root`. */
  ghost predicate Tree(f: Forest, root: Node)
    reads f.nodes
  {
    Whole(f) && Apart(f) && root in f.nodes && root !in f.up
  }

  function Union(f: Forest, g: Forest): Forest {
    Forest(f.nodes + g.nodes, f.kids + g.kids, f.content + g.content, f.up + g.up)
  }

  const NOTHING := Forest({}, map[], map[], map[])

  /** Nodes linked one after the other; only the first `prev` is left open. */
  ghost predicate Row(rs: seq<Node>)
    reads rs`next, rs`prev
  {
    Distinct(rs) && Forward(rs) && forall i {:trigger rs[i].prev} :: 0 < i < |rs| ==> rs[i].prev == rs[i - 1]
  }

  /** The nodes belong to the forest and are nobody's children. */
  ghost predicate Roots(f: Forest, rs: seq<Node>) {
    forall r :: r in rs ==> r in f.nodes && r !in f.up
  }

  /** Copies gathered so far: complete trees whose roots are linked up to the last one. */
  ghost predicate Gathered(f: Forest, roots: seq<Node>)
    reads f.nodes, roots`next, roots`prev
  {
    Whole(f) && Apart(f) && Roots(f, roots) && Row(roots)
  }

  /** The trees gathered, their roots, and one more tree. */
  datatype Step = Step(f: Forest, roots: seq<Node>, g: Forest, added: Node)

  /** Links one more root behind the last one. */
  method Link(newitem: Node, last: Node?, added: Node, ghost nodes: set<Node>)
    requires newitem !in nodes && added !in nodes && newitem != added && (last != null ==> last in nodes)
    modifies newitem`child, nodes`next, added`prev
    ensures newitem.child == if last == null then added else old(newitem.child)
    ensures added.prev == if last == null then old(added.prev) else last
    ensures forall n {:trigger n in nodes} :: n in nodes ==> n.next == if n == last then added else old(n.next)
  {
    if last != null {
      last.next := added;
      added.prev := last;
    } else {
      newitem.child := added;
    }
  }

  /** Hangs one more tree behind the last root. */
  method Attach(newitem: Node, last: Node?, added: Node, ghost s: Step)
    requires Gathered(s.f, s.roots) && Tree(s.g, added)
    requires s.added == added && added.next == null && s.f.nodes !! s.g.nodes
    requires newitem !in s.f.nodes && newitem !in s.g.nodes
    requires newitem.child == At(s.roots, 0) && last == At(s.roots, |s.roots| - 1)
    modifies newitem`child, s.f.nodes`next, added`prev
    ensures Gathered(Union(s.f, s.g), s.roots + [added])
    ensures newitem.child == At(s.roots + [added], 0)
  {
    Ends(s);
    hide Gathered;
    hide Tree;
    Link(newitem, last, added, s.f.nodes);
    Joined(s);
  }

  lemma Ends(s: Step)
    requires Gathered(s.f, s.roots) && Tree(s.g, s.added)
    ensures s.roots != [] ==> s.roots[|s.roots| - 1] in s.f.nodes
    ensures s.added in s.g.nodes
  {
  }

  /** Only the last root's `next` has changed among the trees gathered. */
  twostate lemma FirstKept(s: Step)
    requires old(Gathered(s.f, s.roots))
    requires forall n {:trigger n in s.f.nodes} :: n in s.f.nodes ==>
      (n != At(s.roots, |s.roots| - 1) ==> n.next == old(n.next))
      && n.prev == old(n.prev) && n.child == old(n.child) && n.data == old(n.data)
    ensures Whole(s.f)
  {
    forall n {:trigger n in s.f.nodes} | n in s.f.nodes ensures Children(n, s.f.kids[n]) && Holds(n, s.f) {
      var ks := s.f.kids[n];
      assert old(Children(n, ks)) && old(Holds(n, s.f));
      assert forall i {:trigger ks[i].next} {:trigger ks[i].prev} :: 0 <= i < |ks| ==>
        ks[i] == s.f.kids[n][i] && ks[i] in s.f.up;
    }
  }

  /** Only the root's `prev` has changed in the tree added. */
  twostate lemma SecondKept(s: Step)
    requires old(Tree(s.g, s.added))
    requires forall n {:trigger n in s.g.nodes} :: n in s.g.nodes ==>
      n.next == old(n.next) && n.child == old(n.child) && n.data == old(n.data)
      && (n != s.added ==> n.prev == old(n.prev))
    ensures Tree(s.g, s.added)
  {
    forall n {:trigger n in s.g.nodes} | n in s.g.nodes ensures Children(n, s.g.kids[n]) && Holds(n, s.g) {
      var ks := s.g.kids[n];
      assert old(Children(n, ks)) && old(Holds(n, s.g));
      assert forall i {:trigger ks[i].next} {:trigger ks[i].prev} :: 0 <= i < |ks| ==>
        ks[i] == s.g.kids[n][i] && ks[i] in s.g.up;
    }
  }

  /** `u` says about the nodes of `f` what `f` says. */
  ghost predicate Within(f: Forest, u: Forest)
    requires Closed(f)
  {
    && f.nodes <= u.nodes && f.nodes <= u.kids.Keys && f.nodes <= u.content.Keys && f.up.Keys <= u.up.Keys
    && (forall n {:trigger f.kids[n]} {:trigger u.kids[n]} :: n in f.nodes ==> u.kids[n] == f.kids[n])
    && (forall n {:trigger f.content[n]} {:trigger u.content[n]} :: n in f.nodes ==> u.content[n] == f.content[n])
    && (forall n {:trigger f.up[n]} {:trigger u.up[n]} :: n in f.up ==> u.up[n] == f.up[n])
  }

  lemma UnionContains(f: Forest, g: Forest)
    requires Closed(f) && Closed(g) && f.nodes !! g.nodes
    ensures Within(f, Union(f, g)) && Within(g, Union(f, g))
  {
  }

  lemma UnionClosed(f: Forest, g: Forest)
    requires Closed(f) && Closed(g) && f.nodes !! g.nodes
    ensures Closed(Union(f, g)) && Within(f, Union(f, g)) && Within(g, Union(f, g))
  {
    UnionContains(f, g);
    var u := Union(f, g);
    assert u.kids.Keys == u.nodes && u.content.Keys == u.nodes && u.up.Keys <= u.nodes && u.nodes == f.nodes + g.nodes;
    hide Union;
    forall n, i {:trigger u.kids[n][i]} | n in u.nodes && 0 <= i < |u.kids[n]| ensures u.kids[n][i] in u.nodes {
      if n in f.nodes {
        assert f.kids[n][i] in f.nodes;
      } else {
        assert g.kids[n][i] in g.nodes;
      }
    }
  }

  lemma NodeWithin(f: Forest, u: Forest, n: Node)
    requires Whole(f) && Closed(u) && Within(f, u) && n in f.nodes
    ensures Children(n, u.kids[n]) && Holds(n, u)
  {
    assert Children(n, f.kids[n]) && Holds(n, f);
    hide Children;
    var c := u.content[n];
    forall i {:trigger u.kids[n][i]} {:trigger c.kids[i]} | 0 <= i < |c.kids|
      ensures c.kids[i] == u.content[u.kids[n][i]]
    {
      assert f.kids[n][i] in f.nodes;
    }
  }

  lemma UnionWhole(f: Forest, g: Forest)
    requires Whole(f) && Whole(g) && f.nodes !! g.nodes
    ensures Whole(Union(f, g))
  {
    hide Children;
    hide Holds;
    UnionClosed(f, g);
    var u := Union(f, g);
    forall n {:trigger n in u.nodes} | n in u.nodes ensures Children(n, u.kids[n]) && Holds(n, u) {
      if n in f.nodes {
        NodeWithin(f, u, n);
      } else {
        NodeWithin(g, u, n);
      }
    }
  }

  lemma UnionApart(f: Forest, g: Forest)
    requires Closed(f) && Closed(g) && f.nodes !! g.nodes && Apart(f) && Apart(g)
    ensures Closed(Union(f, g)) && Apart(Union(f, g))
  {
    UnionClosed(f, g);
    var u := Union(f, g);
    assert u.nodes == f.nodes + g.nodes;
    hide Union;
    forall n, i {:trigger u.kids[n][i]} | n in u.nodes && 0 <= i < |u.kids[n]|
      ensures u.kids[n][i] in u.up && u.up[u.kids[n][i]] == (n, i)
    {
      if n in f.nodes {
        assert f.up[f.kids[n][i]] == (n, i);
      } else {
        assert g.up[g.kids[n][i]] == (n, i);
      }
    }
  }

  twostate lemma Joined(s: Step)
    requires old(Gathered(s.f, s.roots) && Tree(s.g, s.added)) && s.f.nodes !! s.g.nodes
    requires old(s.added.next) == null
    requires forall n {:trigger n in s.f.nodes} :: n in s.f.nodes ==>
      n.next == (if n == At(s.roots, |s.roots| - 1) then s.added else old(n.next))
      && n.prev == old(n.prev) && n.child == old(n.child) && n.data == old(n.data)
    requires forall n {:trigger n in s.g.nodes} :: n in s.g.nodes ==>
      n.next == old(n.next) && n.child == old(n.child) && n.data == old(n.data)
      && n.prev == (if n == s.added && s.roots != [] then s.roots[|s.roots| - 1] else old(n.prev))
    ensures Gathered(Union(s.f, s.g), s.roots + [s.added])
  {
    hide Children;
    hide Holds;
    hide Forward;
    FirstKept(s);
    SecondKept(s);
    UnionWhole(s.f, s.g);
    UnionApart(s.f, s.g);
    RowJoined(s);
    RootsJoined(s);
  }

  lemma RootsJoined(s: Step)
    requires Closed(s.f) && Closed(s.g) && s.f.nodes !! s.g.nodes && Roots(s.f, s.roots)
    requires s.added in s.g.nodes && s.added !in s.g.up
    ensures Roots(Union(s.f, s.g), s.roots + [s.added])
  {
  }

  twostate lemma RowJoined(s: Step)
    requires old(Row(s.roots)) && s.added !in s.roots && s.added.next == null
    requires s.roots != [] ==> s.added.prev == s.roots[|s.roots| - 1]
    requires forall n {:trigger n in s.roots} :: n in s.roots ==>
      n.next == (if n == At(s.roots, |s.roots| - 1) then s.added else old(n.next)) && n.prev == old(n.prev)
    ensures Row(s.roots + [s.added])
  {
    var rs: seq<Node> := s.roots;
    var ls: seq<Node> := s.roots + [s.added];
    forall i {:trigger ls[i].next} | 0 <= i < |ls| ensures ls[i].next == At(ls, i + 1) {
      assert i < |rs| ==> ls[i] == rs[i] && rs[i] in rs && old(rs[i].next) == At(rs, i + 1);
    }
    forall i {:trigger ls[i].prev} | 0 < i < |ls| ensures ls[i].prev == ls[i - 1] {
      assert i < |rs| ==> ls[i] == rs[i] && rs[i] in rs && old(rs[i].prev) == rs[i - 1];
    }
  }

  // ----- closing the list -----

  function IndexOf(rs: seq<Node>, r: Node): (i: nat)
    requires r in rs
    ensures i < |rs| && rs[i] == r
  {
    if rs[0] == r then 0 else 1 + IndexOf(rs[1..], r)
  }

  function Contents(f: Forest, rs: seq<Node>): (cs: seq<Content>)
    requires forall r :: r in rs ==> r in f.content
    ensures |cs| == |rs|
  {
    seq(|rs|, i requires 0 <= i < |rs| => f.content[rs[i]])
  }

  /** The trees gathered, under one more node. */
  ghost function Crowned(f: Forest, rs: seq<Node>, top: Node, data: Data): Forest
    requires forall r :: r in rs ==> r in f.content
  {
    Forest(f.nodes + {top}, f.kids[top := rs], f.content[top := Content(data, Contents(f, rs))],
           f.up + map r | r in rs :: (top, IndexOf(rs, r)))
  }

  /** A row with the first `prev` closed is a list of children. */
  lemma RowIsChildren(top: Node, rs: seq<Node>)
    requires Distinct(rs) && Forward(rs) && top.child == At(rs, 0)
    requires forall i {:trigger rs[i].prev} :: 0 < i < |rs| ==> rs[i].prev == rs[i - 1]
    requires rs != [] ==> rs[0].prev == rs[|rs| - 1]
    ensures Children(top, rs)
  {
  }

  /** The new node and the nodes gathered when the first root's `prev` has just been set. */
  datatype Crown = Crown(f: Forest, roots: seq<Node>, top: Node)

  twostate lemma KeptBelow(s: Crown)
    requires old(Gathered(s.f, s.roots))
    requires forall n {:trigger n in s.f.nodes} :: n in s.f.nodes ==>
      n.next == old(n.next) && n.child == old(n.child) && n.data == old(n.data)
      && (n != At(s.roots, 0) ==> n.prev == old(n.prev))
    ensures Whole(s.f)
  {
    forall n {:trigger n in s.f.nodes} | n in s.f.nodes ensures Children(n, s.f.kids[n]) && Holds(n, s.f) {
      var ks := s.f.kids[n];
      assert old(Children(n, ks)) && old(Holds(n, s.f));
      assert forall i {:trigger ks[i].next} {:trigger ks[i].prev} :: 0 <= i < |ks| ==>
        ks[i] == s.f.kids[n][i] && ks[i] in s.f.up;
    }
  }

  lemma CrownedTree(s: Crown)
    requires Whole(s.f) && Apart(s.f) && Roots(s.f, s.roots) && Distinct(s.roots)
    requires s.top !in s.f.nodes && Children(s.top, s.roots)
    ensures forall r :: r in s.roots ==> r in s.f.content
    ensures Tree(Crowned(s.f, s.roots, s.top, s.top.data), s.top)
  {
    hide Children;
    var f, top := s.f, s.top;
    var g := Crowned(f, s.roots, top, top.data);
    assert Closed(g) by {
      forall n, i {:trigger g.kids[n][i]} | n in g.nodes && 0 <= i < |g.kids[n]| ensures g.kids[n][i] in g.nodes {
        if n == top {
          assert s.roots[i] in s.roots;
        } else {
          assert f.kids[n][i] in f.nodes;
        }
      }
    }
    CrownedWithin(s);
    forall n {:trigger n in g.nodes} | n in g.nodes ensures Children(n, g.kids[n]) && Holds(n, g) {
      if n == top {
        assert g.kids[n] == s.roots;
      } else {
        NodeWithin(f, g, n);
      }
    }
    CrownedApart(s);
  }

  lemma CrownedWithin(s: Crown)
    requires Closed(s.f) && Roots(s.f, s.roots) && s.top !in s.f.nodes
    ensures forall r :: r in s.roots ==> r in s.f.content
    ensures Within(s.f, Crowned(s.f, s.roots, s.top, s.top.data))
  {
  }

  lemma CrownedApart(s: Crown)
    requires Closed(s.f) && Apart(s.f) && Roots(s.f, s.roots) && Distinct(s.roots) && s.top !in s.f.nodes
    ensures forall r :: r in s.roots ==> r in s.f.content
    ensures var g := Crowned(s.f, s.roots, s.top, s.top.data); Closed(g) ==> Apart(g) && s.top !in g.up
  {
    var g := Crowned(s.f, s.roots, s.top, s.top.data);
    if Closed(g) {
      forall n, i {:trigger g.kids[n][i]} | n in g.nodes && 0 <= i < |g.kids[n]|
        ensures g.kids[n][i] in g.up && g.up[g.kids[n][i]] == (n, i)
      {
        if n == s.top {
          assert s.roots[i] in s.roots && s.roots[i] !in s.f.up;
          assert IndexOf(s.roots, s.roots[i]) == i;
        } else {
          assert s.f.up[s.f.kids[n][i]] == (n, i);
        }
      }
    }
  }

  lemma CrownedFacts(f: Forest, rs: seq<Node>, top: Node, data: Data)
    requires forall r :: r in rs ==> r in f.content
    ensures var g := Crowned(f, rs, top, data);
      g.nodes == f.nodes + {top} && top in g.content && g.content[top] == Content(data, Contents(f, rs))
    ensures rs == [] ==> Contents(f, rs) == []
  {
  }

  lemma KidsOf(data: Data, f: Forest, item: Node, c: Content)
    requires Whole(f) && item in f.nodes && f.content[item] == c && data == item.data
    ensures c.data == data && item in f.kids && |c.kids| == |f.kids[item]| && item.child == At(f.kids[item], 0)
    ensures forall i {:trigger c.kids[i]} {:trigger f.kids[item][i]} :: 0 <= i < |c.kids| ==>
      var k := f.kids[item][i];
      k in f.nodes && k in f.content && f.content[k] == c.kids[i] && k.next == At(f.kids[item], i + 1)
  {
    assert Children(item, f.kids[item]) && Holds(item, f);
  }

  lemma NothingGathered()
    ensures Gathered(NOTHING, [])
  {
  }

  lemma RootsKnown(h: Forest, roots: seq<Node>)
    requires Gathered(h, roots)
    ensures Closed(h) && forall r {:trigger r in roots} :: r in roots ==> r in h.nodes && r in h.content
  {
  }

  lemma TreeIsClosed(g: Forest, root: Node)
    requires Tree(g, root)
    ensures Closed(g) && root in g.nodes && root in g.content
  {
  }

  /** The roots hold exactly these contents, in order. */
  ghost predicate Bears(h: Forest, roots: seq<Node>, cs: seq<Content>) {
    |roots| == |cs| && forall j {:trigger roots[j]} :: 0 <= j < |roots| ==>
      roots[j] in h.content && h.content[roots[j]] == cs[j]
  }

  lemma NothingBorne()
    ensures Bears(NOTHING, [], [])
  {
  }

  lemma BearsMore(h: Forest, k: Forest, roots: seq<Node>, cs: seq<Content>, added: Node, c: Content)
    requires Bears(h, roots, cs)
    requires forall r {:trigger r in roots} :: r in roots ==>
      r in h.content && r in k.content && k.content[r] == h.content[r]
    requires added in k.content && k.content[added] == c
    ensures Bears(k, roots + [added], cs + [c])
  {
    forall j | 0 <= j < |roots| ensures roots[j] in k.content && k.content[roots[j]] == cs[j] {
      assert roots[j] in roots;
    }
  }

  lemma AllBorne(h: Forest, roots: seq<Node>, cs: seq<Content>)
    requires Bears(h, roots, cs)
    ensures (forall r :: r in roots ==> r in h.content) && Contents(h, roots) == cs
  {
  }

  /** The first child's `prev` is set to the last child. */
  method CloseList(newitem: Node, newchild: Node?, ghost h: Forest, ghost roots: seq<Node>)
    requires Gathered(h, roots) && newitem !in h.nodes
    requires newitem.child == At(roots, 0) && newchild == At(roots, |roots| - 1)
    modifies h.nodes`prev
    ensures forall r :: r in roots ==> r in h.content
    ensures Tree(Crowned(h, roots, newitem, newitem.data), newitem)
  {
    hide Whole;
    hide Apart;
    if newitem.child != null {
      assert roots[0] in roots;
      newitem.child.prev := newchild;
    }
    KeptBelow(Crown(h, roots, newitem));
    RowIsChildren(newitem, roots);
    CrownedTree(Crown(h, roots, newitem));
  }

  /** Closes the list of gathered trees and hangs it under a node. */
  method Complete(item: Node, head: Node?, last: Node?, ghost h: Forest, ghost roots: seq<Node>, ghost cs: seq<Content>)
    returns (ghost g: Forest)
    requires Gathered(h, roots) && item !in h.nodes && Bears(h, roots, cs)
    requires head == At(roots, 0) && last == At(roots, |roots| - 1)
    modifies item`child, h.nodes`prev
    ensures Tree(g, item) && g.nodes == h.nodes + {item} && g.content[item] == Content(item.data, cs)
  {
    hide Whole;
    hide Tree;
    hide Gathered;
    hide Crowned;
    hide Contents;
    hide Bears;
    item.child := head;
    CloseList(item, last, h, roots);
    AllBorne(h, roots, cs);
    CrownedFacts(h, roots, item, item.data);
    g := Crowned(h, roots, item, item.data);
  }

  /** A node without children is a tree. */
  lemma LeafIsTree(item: Node, g: Forest)
    requires item.child == null && g == Forest({item}, map[item := []], map[item := Content(item.data, [])], map[])
    ensures Tree(g, item) && g.content[item] == Content(item.data, [])
  {
  }

  // ----- linking a node before it is filled -----

  /** A new node has been linked behind the roots, with nothing below it yet. */
  twostate lemma LinkedFirst(s: Step)
    requires old(Gathered(s.f, s.roots)) && s.added !in s.f.nodes && s.added.next == null
    requires s.roots != [] ==> s.added.prev == s.roots[|s.roots| - 1]
    requires forall n {:trigger n in s.f.nodes} :: n in s.f.nodes ==>
      n.next == (if n == At(s.roots, |s.roots| - 1) then s.added else old(n.next))
      && n.prev == old(n.prev) && n.child == old(n.child) && n.data == old(n.data)
    ensures Whole(s.f) && Apart(s.f) && Roots(s.f, s.roots) && Row(s.roots + [s.added])
  {
    hide Children;
    hide Holds;
    hide Forward;
    FirstKept(s);
    RowJoined(s);
  }

  /** Links a new node behind the last root. */
  method LinkItem(last: Node?, added: Node, ghost s: Step)
    requires Gathered(s.f, s.roots) && last == At(s.roots, |s.roots| - 1)
    requires s.added == added && added !in s.f.nodes && added.next == null
    modifies s.f.nodes`next, added`prev
    ensures Whole(s.f) && Apart(s.f) && Roots(s.f, s.roots) && Row(s.roots + [added])
    ensures added.next == null
  {
    assert last != null ==> last in s.roots;
    if last != null {
      last.next := added;
      added.prev := last;
    }
    LinkedFirst(s);
  }

  /** Once the node linked last has become a tree of its own, it is gathered with the others. */
  lemma JoinTrees(s: Step)
    requires Whole(s.f) && Apart(s.f) && Roots(s.f, s.roots) && Row(s.roots + [s.added])
    requires Tree(s.g, s.added) && s.f.nodes !! s.g.nodes
    ensures Gathered(Union(s.f, s.g), s.roots + [s.added])
  {
    hide Children;
    hide Holds;
    hide Row;
    UnionWhole(s.f, s.g);
    UnionApart(s.f, s.g);
    RootsJoined(s);
  }

  // ----- walking along siblings -----

  /** From `child` on, `next` leads through nodes that hold these contents, and to the end. */
  ghost predicate Siblings(f: Forest, child: Node?, cs: seq<Content>)
    reads f.nodes`next
    decreases cs
  {
    if cs == [] then child == null
    else
      && child != null && child in f.nodes && child in f.content && f.content[child] == cs[0]
      && Siblings(f, child.next, cs[1..])
  }

  /** The children of a node are such siblings. */
  lemma KidsAreSiblings(f: Forest, item: Node, c: Content)
    requires Whole(f) && item in f.nodes && f.content[item] == c
    ensures c.data == item.data && Siblings(f, item.child, c.kids)
  {
    KidsOf(item.data, f, item, c);
    SiblingsFrom(f, item, c, 0);
    assert c.kids[0..] == c.kids;
  }

  lemma {:induction false} SiblingsFrom(f: Forest, item: Node, c: Content, i: nat)
    requires Whole(f) && item in f.nodes && f.content[item] == c
    requires item in f.kids && |f.kids[item]| == |c.kids| && i <= |c.kids|
    ensures Siblings(f, At(f.kids[item], i), c.kids[i..])
    decreases |c.kids| - i
  {
    KidsOf(item.data, f, item, c);
    hide Whole;
    if i < |c.kids| {
      SiblingsFrom(f, item, c, i + 1);
      assert f.kids[item][i] in f.nodes && f.content[f.kids[item][i]] == c.kids[i];
      assert c.kids[i..][1..] == c.kids[i + 1..];
    }
  }
}
