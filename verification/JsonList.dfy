/**
 * Tree nodes on the heap and the lists their children form: each child points to the next,
 * each but the first points back, and the first points back to the last.
 */
module JsonList {
  import opened Bytes

  datatype Kind = Invalid | FalseKind | TrueKind | NullKind | NumberKind | StringKind | RawKind | ArrayKind | ObjectKind

  /** The fields of a node other than its links; absent strings are null pointers. */
  datatype Data = Data(kind: Kind, valuestring: Option<Text>, valueint: int, valuedouble: real, key: Option<Text>)

  const ZEROED := Data(Invalid, None, 0, 0.0, None)

  class Node {
    var next: Node?
    var prev: Node?
    var child: Node?
    var data: Data

    /** A node as the allocator hands it out: every field zero. */
    constructor ()
      ensures next == null && prev == null && child == null && data == ZEROED
    {
      next, prev, child, data := null, null, null, ZEROED;
    }
  }

  // ----- well-formed lists -----

  function At(ks: seq<Node>, i: int): Node? {
    if 0 <= i < |ks| then ks[i] else null
  }

  /** `next` leads from each node to the one after it. */
  ghost predicate Forward(ks: seq<Node>)
    reads ks`next
  {
    forall i {:trigger ks[i].next} :: 0 <= i < |ks| ==> ks[i].next == At(ks, i + 1)
  }

  /** `prev` leads back, and from the first node to the last. */
  ghost predicate Backward(ks: seq<Node>)
    reads ks`prev
  {
    forall i {:trigger ks[i].prev} :: 0 <= i < |ks| ==> ks[i].prev == At(ks, if i == 0 then |ks| - 1 else i - 1)
  }

  /** `ks` are the children of `parent`. */
  ghost predicate Children(parent: Node, ks: seq<Node>)
    reads parent`child, ks`next, ks`prev
  {
    parent.child == At(ks, 0) && Forward(ks) && Backward(ks)
  }

  ghost predicate Distinct(ks: seq<Node>) {
    forall i, j :: 0 <= i < j < |ks| ==> ks[i] != ks[j]
  }

  /** A list that ends never comes back to a node. */
  lemma {:induction false} ForwardIsAcyclic(ks: seq<Node>, i: nat, j: nat)
    requires Forward(ks) && i < j < |ks|
    ensures ks[i] != ks[j]
    decreases |ks| - j
  {
    assert ks[i].next == ks[i + 1];
    if j + 1 < |ks| {
      ForwardIsAcyclic(ks, i + 1, j + 1);
      assert ks[j].next == ks[j + 1];
    } else {
      assert ks[j].next == null;
    }
  }

  lemma ChildrenAreDistinct(parent: Node, ks: seq<Node>)
    requires Children(parent, ks)
    ensures Distinct(ks)
  {
    forall i, j | 0 <= i < j < |ks| ensures ks[i] != ks[j] {
      ForwardIsAcyclic(ks, i, j);
    }
  }

  lemma {:induction false} SameFrom(ks: seq<Node>, ls: seq<Node>, i: nat)
    requires Forward(ks) && Forward(ls) && i <= |ks| && i <= |ls| && At(ks, i) == At(ls, i)
    ensures ks[i..] == ls[i..]
    decreases |ks| - i
  {
    if i < |ks| {
      assert i < |ls| && ks[i] == ls[i];
      assert ks[i].next == At(ks, i + 1) && ls[i].next == At(ls, i + 1);
      SameFrom(ks, ls, i + 1);
      assert ks[i..] == [ks[i]] + ks[i + 1..] && ls[i..] == [ls[i]] + ls[i + 1..];
    } else {
      assert i == |ls|;
    }
  }

  /** The links determine the children. */
  lemma ChildrenAreUnique(parent: Node, ks: seq<Node>, ls: seq<Node>)
    requires Children(parent, ks) && Children(parent, ls)
    ensures ks == ls
  {
    SameFrom(ks, ls, 0);
    assert ks[0..] == ks && ls[0..] == ls;
  }

  // ----- reading -----

  /** A parent that is given, with its children. */
  ghost predicate Known(list: Node?, ks: seq<Node>)
    reads if list == null then {} else {list}, ks`next, ks`prev
  {
    list != null ==> Children(list, ks)
  }

  method GetArraySize(list: Node?, ghost ks: seq<Node>) returns (size: nat)
    requires Known(list, ks)
    ensures size == if list == null then 0 else |ks|
  {
    if list == null {
      return 0;
    }
    var child := list.child;
    size := 0;
    while child != null
      invariant size <= |ks| && child == At(ks, size)
      decreases |ks| - size
    {
      assert child == ks[size];
      size := size + 1;
      child := child.next;
    }
  }

  method GetArrayItem(list: Node?, index: int, ghost ks: seq<Node>) returns (item: Node?)
    requires Known(list, ks)
    ensures item == if list == null then null else At(ks, index)
  {
    if index < 0 || list == null {
      return null;
    }
    var left := index;
    item := list.child;
    ghost var i := 0;
    while item != null && left > 0
      invariant 0 <= i <= |ks| && 0 <= left && i + left == index && item == At(ks, i)
      decreases left
    {
      assert item == ks[i];
      left := left - 1;
      item := item.next;
      i := i + 1;
    }
  }

  /**
   * The first child whose key counts as the same.  A child without a key ends the search
   * that minds the case; the other one passes over it.
   */
  ghost function Named(ks: seq<Node>, name: Text, caseSensitive: bool): Node?
    reads ks`data
  {
    if ks == [] then null
    else
      var key := ks[0].data.key;
      if key.Some? && Fold(key.value, caseSensitive) == Fold(name, caseSensitive) then ks[0]
      else if key.None? && caseSensitive then null
      else Named(ks[1..], name, caseSensitive)
  }

  /** The child has this key, up to the case of letters where that does not count. */
  predicate Bearing(k: Node, name: Text, caseSensitive: bool)
    reads k`data
  {
    k.data.key.Some? && Alike(k.data.key.value, name, caseSensitive)
  }

  /**
   * The child is the first to have the key; there is none when no child has it, or when one
   * without a key comes before and the case counts.
   */
  ghost predicate IsFirstBearing(ks: seq<Node>, name: Text, caseSensitive: bool, item: Node?)
    reads ks`data
  {
    exists n: nat {:trigger At(ks, n)} :: n <= |ks|
      && (forall m :: 0 <= m < n ==> !Bearing(ks[m], name, caseSensitive) && (caseSensitive ==> ks[m].data.key.Some?))
      && if n < |ks| && Bearing(ks[n], name, caseSensitive) then item == At(ks, n)
         else item == null && (n == |ks| || (caseSensitive && ks[n].data.key.None?))
  }

  lemma {:induction false} NamedIsFirst(ks: seq<Node>, name: Text, caseSensitive: bool, i: nat)
    requires i <= |ks|
    requires forall m :: 0 <= m < i ==>
      !Bearing(ks[m], name, caseSensitive) && (caseSensitive ==> ks[m].data.key.Some?)
    ensures IsFirstBearing(ks, name, caseSensitive, Named(ks[i..], name, caseSensitive))
    decreases |ks| - i
  {
    hide Fold;
    hide Alike;
    if i < |ks| {
      assert ks[i..][0] == ks[i] && ks[i..][1..] == ks[i + 1..] && At(ks, i) == ks[i];
      if ks[i].data.key.Some? {
        FoldsAgreeExactly(ks[i].data.key.value, name, caseSensitive);
      }
      if !Bearing(ks[i], name, caseSensitive) && (caseSensitive ==> ks[i].data.key.Some?) {
        NamedIsFirst(ks, name, caseSensitive, i + 1);
      }
    } else {
      assert At(ks, i) == null;
    }
  }

  method GetObjectItem(parent: Node?, name: Option<Text>, caseSensitive: bool, ghost ks: seq<Node>)
    returns (item: Node?)
    requires Known(parent, ks)
    ensures parent == null || name == None ==> item == null
    ensures parent != null && name.Some? ==>
      IsFirstBearing(ks, name.value, caseSensitive, item) && item == Named(ks, name.value, caseSensitive)
  {
    if parent == null || name == None {
      return null;
    }
    var current := parent.child;
    ghost var i := 0;
    assert ks[0..] == ks;
    if caseSensitive {
      while current != null && current.data.key.Some? && current.data.key.value != name.value
        invariant 0 <= i <= |ks| && current == At(ks, i)
        invariant Named(ks, name.value, true) == Named(ks[i..], name.value, true)
        decreases |ks| - i
      {
        assert current == ks[i] && ks[i..][1..] == ks[i + 1..];
        current := current.next;
        i := i + 1;
      }
    } else {
      while current != null && (current.data.key.None? || LowerAll(current.data.key.value) != LowerAll(name.value))
        invariant 0 <= i <= |ks| && current == At(ks, i)
        invariant Named(ks, name.value, false) == Named(ks[i..], name.value, false)
        decreases |ks| - i
      {
        assert current == ks[i] && ks[i..][1..] == ks[i + 1..];
        current := current.next;
        i := i + 1;
      }
    }
    item := if current == null || current.data.key.None? then null else current;
    NamedIsFirst(ks, name.value, caseSensitive, 0);
  }

  // ----- changing -----

  /** Where there are children, the first one's `prev` is the end of the list. */
  lemma ListEnds(parent: Node, ks: seq<Node>)
    requires Children(parent, ks) && ks != []
    ensures parent.child == ks[0] && ks[0].prev == ks[|ks| - 1] && ks[|ks| - 1].next == null
  {
  }

  /** A list whose last node still points on has no reading as a list of children. */
  lemma NoList(parent: Node)
    requires parent.child != null && parent.child.prev != null && parent.child.prev.next != null
    ensures !exists ls :: Children(parent, ls)
  {
    forall ls | Children(parent, ls) ensures false {
      ListEnds(parent, ls);
    }
  }

  /** Nodes that following `next` from the parent's first child leads through. */
  ghost predicate Path(parent: Node, ns: seq<Node>)
    reads parent`child, ns`next
  {
    ns != [] && parent.child == ns[0] && forall i {:trigger ns[i].next} :: 0 <= i < |ns| - 1 ==> ns[i].next == ns[i + 1]
  }

  lemma {:induction false} PathInList(parent: Node, ns: seq<Node>, ls: seq<Node>, i: nat)
    requires Path(parent, ns) && Children(parent, ls) && i < |ns|
    ensures i < |ls| && ls[i] == ns[i]
  {
    if i > 0 {
      PathInList(parent, ns, ls, i - 1);
      assert ns[i - 1].next == ns[i] && ls[i - 1].next == At(ls, i);
    }
  }

  /** Where the path comes back to a node there is no list. */
  lemma NoListOnCycle(parent: Node, ns: seq<Node>, i: nat, j: nat)
    requires Path(parent, ns) && i < j < |ns| && ns[i] == ns[j]
    ensures !exists ls :: Children(parent, ls)
  {
    forall ls | Children(parent, ls) ensures false {
      PathInList(parent, ns, ls, i);
      PathInList(parent, ns, ls, j);
      ForwardIsAcyclic(ls, i, j);
    }
  }

  /** A path to the end can be the only list. */
  lemma PathIsList(parent: Node, ns: seq<Node>, ls: seq<Node>)
    requires Path(parent, ns) && ns[|ns| - 1].next == null && Children(parent, ls)
    ensures ls == ns
  {
    forall i | 0 <= i < |ns| ensures i < |ls| && ls[i] == ns[i] {
      PathInList(parent, ns, ls, i);
    }
    assert ls[|ns| - 1].next == At(ls, |ns|);
  }

  /** Nor where the path ends, and a `prev` on it leads elsewhere. */
  lemma NoListOnWrongPrev(parent: Node, ns: seq<Node>, i: nat)
    requires Path(parent, ns) && ns[|ns| - 1].next == null && i < |ns|
    requires ns[i].prev != At(ns, if i == 0 then |ns| - 1 else i - 1)
    ensures !exists ls :: Children(parent, ls)
  {
    forall ls | Children(parent, ls) ensures false {
      PathIsList(parent, ns, ls);
    }
  }

  /** A parent, its children, and a node that comes to or leaves a place among them. */
  datatype Site = Site(list: Node, ks: seq<Node>, item: Node, at: nat)

  /** Before, `ks` were the children; now the last points on to the item, and the first back to it. */
  twostate lemma Appended(s: Site)
    requires s.ks != [] && old(Children(s.list, s.ks)) && s.item !in s.ks
    requires s.list.child == old(s.list.child)
    requires forall i {:trigger s.ks[i].next} :: 0 <= i < |s.ks| - 1 ==> s.ks[i].next == old(s.ks[i].next)
    requires forall i {:trigger s.ks[i].prev} :: 0 < i < |s.ks| ==> s.ks[i].prev == old(s.ks[i].prev)
    requires s.ks[|s.ks| - 1].next == s.item && s.item.prev == s.ks[|s.ks| - 1] && s.ks[0].prev == s.item
    requires s.item.next == null
    ensures Children(s.list, s.ks + [s.item])
  {
    var ks: seq<Node>, ls: seq<Node> := s.ks, s.ks + [s.item];
    forall i {:trigger ls[i].next} | 0 <= i < |ls| ensures ls[i].next == At(ls, i + 1) {
      assert i < |ks| - 1 ==> ls[i] == ks[i] && old(ks[i].next) == At(ks, i + 1);
    }
    forall i {:trigger ls[i].prev} | 0 <= i < |ls| ensures ls[i].prev == At(ls, if i == 0 then |ls| - 1 else i - 1) {
      assert 0 < i < |ks| ==> ls[i] == ks[i] && old(ks[i].prev) == At(ks, i - 1);
    }
  }

  /**
   * Appends an item; null arguments and a list put into itself are refused.  Behind other
   * children the item's own `next` is left as it was, so the list is well formed
   * afterwards exactly when the item was no child yet and its `next` was null, or there
   * were no children.
   */
  method AddItem(list: Node?, item: Node?, ghost ks: seq<Node>) returns (ok: bool)
    requires Known(list, ks)
    modifies {list}`child, {item}`prev, {item}`next, ks`prev, ks`next
    ensures ok <==> list != null && item != null && list != item
    ensures !ok ==> Known(list, ks)
    ensures ok && (ks == [] || (item !in ks && old(item.next) == null)) ==> Children(list, ks + [item])
    ensures ok ==> ((exists ls :: Children(list, ls)) <==> ks == [] || (item !in ks && old(item.next) == null))
  {
    if item == null || list == null || list == item {
      return false;
    }
    Append(list, item, ks);
    ok := true;
  }

  method Append(list: Node, item: Node, ghost ks: seq<Node>)
    requires Children(list, ks)
    modifies list`child, item`prev, item`next, ks`prev, ks`next
    ensures ks == [] || (item !in ks && old(item.next) == null) ==> Children(list, ks + [item])
    ensures (exists ls :: Children(list, ls)) <==> ks == [] || (item !in ks && old(item.next) == null)
  {
    NoChildren(list, ks);
    if list.child == null {
      list.child := item;
      item.prev := item;
      item.next := null;
      OneChild(list, item);
      assert ks + [item] == [item];
    } else {
      ListEnds(list, ks);
      ChildrenAreDistinct(list, ks);
      var last := list.child.prev;
      if last != null {
        last.next := item;
        item.prev := last;
        list.child.prev := item;
      }
      if item !in ks && item.next == null {
        Appended(Site(list, ks, item, |ks|));
      } else {
        assert item in ks ==> item.next != null;
        NoList(list);
      }
    }
  }

  lemma NoChildren(parent: Node, ks: seq<Node>)
    requires Children(parent, ks)
    ensures parent.child == null <==> ks == []
  {
  }

  lemma OneChild(parent: Node, item: Node)
    requires parent.child == item && item.next == null && item.prev == item
    ensures Children(parent, [item])
  {
  }

  function Without(ks: seq<Node>, k: nat): (r: seq<Node>)
    requires k < |ks|
    ensures |r| == |ks| - 1 && forall i :: 0 <= i < |r| ==> r[i] == ks[if i < k then i else i + 1]
  {
    ks[..k] + ks[k + 1..]
  }

  /** The item was the child at its place; now its neighbours are joined over it. */
  twostate lemma Unlinked(s: Site)
    requires s.at < |s.ks| && s.ks[s.at] == s.item && old(Children(s.list, s.ks)) && Distinct(s.ks)
    requires forall i {:trigger s.ks[i].next} :: 0 <= i < |s.ks| && i != s.at ==>
      s.ks[i].next == if i + 1 == s.at then old(s.item.next) else old(s.ks[i].next)
    requires forall i {:trigger s.ks[i].prev} :: 0 <= i < |s.ks| && i != s.at ==>
      s.ks[i].prev == if i == s.at + 1 || (i == 0 && s.at + 1 == |s.ks|) then old(s.item.prev) else old(s.ks[i].prev)
    requires s.list.child == if s.at == 0 then old(s.item.next) else old(s.list.child)
    ensures Children(s.list, Without(s.ks, s.at))
  {
    UnlinkedForward(s);
    UnlinkedBackward(s);
  }

  twostate lemma UnlinkedForward(s: Site)
    requires s.at < |s.ks| && s.ks[s.at] == s.item && old(Forward(s.ks))
    requires forall i {:trigger s.ks[i].next} :: 0 <= i < |s.ks| && i != s.at ==>
      s.ks[i].next == if i + 1 == s.at then old(s.item.next) else old(s.ks[i].next)
    ensures Forward(Without(s.ks, s.at))
  {
    var ks: seq<Node>, k := s.ks, s.at;
    var ls := Without(ks, k);
    forall i {:trigger ls[i].next} | 0 <= i < |ls| ensures ls[i].next == At(ls, i + 1) {
      var j := if i < k then i else i + 1;
      assert ls[i] == ks[j] && old(ks[j].next) == At(ks, j + 1);
    }
  }

  twostate lemma UnlinkedBackward(s: Site)
    requires s.at < |s.ks| && s.ks[s.at] == s.item && old(Backward(s.ks))
    requires forall i {:trigger s.ks[i].prev} :: 0 <= i < |s.ks| && i != s.at ==>
      s.ks[i].prev == if i == s.at + 1 || (i == 0 && s.at + 1 == |s.ks|) then old(s.item.prev) else old(s.ks[i].prev)
    ensures Backward(Without(s.ks, s.at))
  {
    var ks: seq<Node>, k := s.ks, s.at;
    var ls := Without(ks, k);
    forall i {:trigger ls[i].prev} | 0 <= i < |ls| ensures ls[i].prev == At(ls, if i == 0 then |ls| - 1 else i - 1) {
      var j := if i < k then i else i + 1;
      assert ls[i] == ks[j] && old(ks[j].prev) == At(ks, if j == 0 then |ks| - 1 else j - 1);
    }
  }

  /** Takes the child at `k` out of the list; null arguments are refused. */
  method DetachItemViaPointer(parent: Node?, item: Node?, ghost ks: seq<Node>, ghost k: nat) returns (detached: Node?)
    requires Known(parent, ks) && (parent != null && item != null ==> k < |ks| && ks[k] == item)
    modifies {parent}`child, ks`prev, ks`next
    ensures detached == if parent == null then null else item
    ensures detached != null ==> Children(parent, Without(ks, k)) && item.next == null && item.prev == null
    ensures detached == null ==> Known(parent, ks)
  {
    if parent == null || item == null {
      return null;
    }
    Unlink(parent, item, ks, k);
    detached := item;
  }

  method Unlink(parent: Node, item: Node, ghost ks: seq<Node>, ghost k: nat)
    requires Children(parent, ks) && k < |ks| && ks[k] == item
    modifies parent`child, ks`prev, ks`next
    ensures Children(parent, Without(ks, k))
    ensures item.next == null && item.prev == null
  {
    ChildrenAreDistinct(parent, ks);
    if item != parent.child {
      item.prev.next := item.next;
    }
    if item.next != null {
      item.next.prev := item.prev;
    }
    if item == parent.child {
      parent.child := item.next;
    } else if item.next == null {
      parent.child.prev := item.prev;
    }
    item.prev := null;
    item.next := null;
    Unlinked(Site(parent, ks, item, k));
  }

  method DetachItemFromArray(list: Node?, which: int, ghost ks: seq<Node>) returns (item: Node?)
    requires Known(list, ks)
    modifies {list}`child, ks`prev, ks`next
    ensures item == if list == null then null else At(ks, which)
    ensures item != null ==> Children(list, Without(ks, which)) && item.next == null && item.prev == null
    ensures item == null ==> Known(list, ks)
  {
    if which < 0 {
      return null;
    }
    item := GetArrayItem(list, which, ks);
    item := DetachItemViaPointer(list, item, ks, which);
  }

  /** The item now stands between the child at its place and the one before. */
  twostate lemma Inserted(s: Site)
    requires s.at < |s.ks| && s.item !in s.ks && old(Children(s.list, s.ks))
    requires forall i {:trigger s.ks[i].next} :: 0 <= i < |s.ks| ==>
      s.ks[i].next == if i + 1 == s.at then s.item else old(s.ks[i].next)
    requires forall i {:trigger s.ks[i].prev} :: 0 <= i < |s.ks| ==>
      s.ks[i].prev == if i == s.at then s.item else old(s.ks[i].prev)
    requires s.item.next == s.ks[s.at] && s.item.prev == old(s.ks[s.at].prev)
    requires s.list.child == if s.at == 0 then s.item else old(s.list.child)
    ensures Children(s.list, s.ks[..s.at] + [s.item] + s.ks[s.at..])
  {
    var ks: seq<Node>, k := s.ks, s.at;
    var ls: seq<Node> := s.ks[..s.at] + [s.item] + s.ks[s.at..];
    forall i {:trigger ls[i].next} | 0 <= i < |ls| ensures ls[i].next == At(ls, i + 1) {
      if i != k {
        var j := if i < k then i else i - 1;
        assert ls[i] == ks[j] && old(ks[j].next) == At(ks, j + 1);
      }
    }
    forall i {:trigger ls[i].prev} | 0 <= i < |ls| ensures ls[i].prev == At(ls, if i == 0 then |ls| - 1 else i - 1) {
      var j := if i <= k then i else i - 1;
      assert i < |ls| - 1 || i != k;
      assert old(ks[j].prev) == At(ks, if j == 0 then |ks| - 1 else j - 1);
      assert i != k ==> ls[i] == ks[j];
    }
  }

  predicate IsPosition(ks: seq<Node>, item: Node, m: nat) {
    if item in ks then m < |ks| && ks[m] == item else m == |ks|
  }

  /** Where a node stands among the children, or their number when it is none of them. */
  ghost function Position(ks: seq<Node>, item: Node): (m: nat)
    ensures m <= |ks| && IsPosition(ks, item, m)
  {
    if item in ks then var m :| 0 <= m < |ks| && ks[m] == item; m else |ks|
  }

  /** The links when a child has been inserted before a child, which may be itself. */
  ghost predicate ChildInserted(list: Node, ks: seq<Node>, m: nat, k: nat)
    reads list`child, ks`next, ks`prev
    requires m < |ks| && k < |ks|
  {
    && list.child == (if k == 0 then ks[m] else ks[0])
    && ks[m].next == (if m == k || m + 1 == k then ks[m] else ks[k])
    && (forall i {:trigger ks[i].next} :: 0 <= i < |ks| && i != m ==>
          ks[i].next == if i + 1 == k then ks[m] else At(ks, i + 1))
    && (m + 1 < k ==> ks[m].prev == ks[k - 1])
  }

  /** That leaves no list: a cycle, or a `prev` that leads elsewhere. */
  lemma InsertedChildBreaks(list: Node, ks: seq<Node>, m: nat, k: nat)
    requires m < |ks| && k < |ks| && Distinct(ks) && ChildInserted(list, ks, m, k)
    ensures !exists ls :: Children(list, ls)
  {
    var item := ks[m];
    if m == k || m + 1 == k {
      NoListOnCycle(list, ks[..m + 1] + [item], m, m + 1);
    } else if k < m {
      var ns := ks[..k] + [item] + ks[k..m + 1];
      NoListOnCycle(list, ns, k, m + 1);
    } else {
      var ns := ks[..m + 1] + ks[k..];
      assert ns[|ns| - 1] == ks[|ks| - 1];
      NoListOnWrongPrev(list, ns, m);
    }
  }

  /**
   * Inserts before the child at `which`, or at the end when there is none; a negative
   * index and null arguments are refused.  Putting a list into itself is refused at the
   * end only: before one of its children it becomes its own child.  Where there is a child
   * at the index, the list is well formed afterwards exactly when the item was no child.
   */
  method InsertItemInArray(list: Node?, which: int, item: Node?, ghost ks: seq<Node>) returns (ok: bool)
    requires Known(list, ks)
    modifies {list}`child, {item}`prev, {item}`next, ks`prev, ks`next
    ensures ok <==> which >= 0 && list != null && item != null && (which < |ks| || list != item)
    ensures !ok ==> Known(list, ks)
    ensures ok && which < |ks| && item !in ks ==> Children(list, ks[..which] + [item] + ks[which..])
    ensures ok && which < |ks| ==> ((exists ls :: Children(list, ls)) <==> item !in ks)
    ensures ok && which >= |ks| && (ks == [] || (item !in ks && old(item.next) == null)) ==> Children(list, ks + [item])
    ensures ok && which >= |ks| ==>
      ((exists ls :: Children(list, ls)) <==> ks == [] || (item !in ks && old(item.next) == null))
  {
    if which < 0 || item == null {
      return false;
    }
    var after := GetArrayItem(list, which, ks);
    if after == null {
      ok := AddItem(list, item, ks);
      return;
    }
    ok := InsertBefore(list, which, after, item, ks);
  }

  method InsertBefore(list: Node, ghost which: nat, after: Node, item: Node, ghost ks: seq<Node>) returns (ok: bool)
    requires Children(list, ks) && which < |ks| && ks[which] == after
    modifies list`child, item`prev, item`next, ks`prev, ks`next
    ensures ok && (item !in ks ==> Children(list, ks[..which] + [item] + ks[which..]))
    ensures (exists ls :: Children(list, ls)) <==> item !in ks
  {
    ChildrenAreDistinct(list, ks);
    if after != list.child && after.prev == null {
      return false;
    }
    hide ChildInserted;
    ghost var m := Position(ks, item);
    PutBefore(list, which, after, item, ks, m);
    if m == |ks| {
      Inserted(Site(list, ks, item, which));
    } else {
      InsertedChildBreaks(list, ks, m, which);
    }
    ok := true;
  }

  /** The assignments to the links around an inserted node. */
  method PutBefore(list: Node, ghost which: nat, after: Node, item: Node, ghost ks: seq<Node>, ghost m: nat)
    requires Children(list, ks) && Distinct(ks) && which < |ks| && ks[which] == after && IsPosition(ks, item, m)
    modifies list`child, item`prev, item`next, ks`prev, ks`next
    ensures m < |ks| ==> ChildInserted(list, ks, m, which)
    ensures item !in ks ==>
      && (forall i {:trigger ks[i].next} :: 0 <= i < |ks| ==>
            ks[i].next == if i + 1 == which then item else old(ks[i].next))
      && (forall i {:trigger ks[i].prev} :: 0 <= i < |ks| ==>
            ks[i].prev == if i == which then item else old(ks[i].prev))
      && item.next == ks[which] && item.prev == old(ks[which].prev)
      && list.child == if which == 0 then item else old(list.child)
  {
    item.next := after;
    item.prev := after.prev;
    after.prev := item;
    if after == list.child {
      list.child := item;
    } else {
      item.prev.next := item;
    }
  }

  /** The item has taken over the links of the child at its place. */
  twostate lemma Replaced(s: Site)
    requires s.at < |s.ks| && s.item !in s.ks && old(Children(s.list, s.ks))
    requires forall i {:trigger s.ks[i].next} :: 0 <= i < |s.ks| && i != s.at ==>
      s.ks[i].next == if i + 1 == s.at then s.item else old(s.ks[i].next)
    requires forall i {:trigger s.ks[i].prev} :: 0 <= i < |s.ks| && i != s.at ==>
      s.ks[i].prev == if i == s.at + 1 || (i == 0 && s.at + 1 == |s.ks|) then s.item else old(s.ks[i].prev)
    requires s.item.next == old(s.ks[s.at].next)
    requires s.item.prev == if |s.ks| == 1 then s.item else old(s.ks[s.at].prev)
    requires s.list.child == if s.at == 0 then s.item else old(s.list.child)
    ensures Children(s.list, s.ks[s.at := s.item])
  {
    var ks: seq<Node>, k := s.ks, s.at;
    var ls: seq<Node> := s.ks[s.at := s.item];
    forall i {:trigger ls[i].next} | 0 <= i < |ls| ensures ls[i].next == At(ls, i + 1) {
      assert old(ks[i].next) == At(ks, i + 1);
    }
    forall i {:trigger ls[i].prev} | 0 <= i < |ls| ensures ls[i].prev == At(ls, if i == 0 then |ls| - 1 else i - 1) {
      assert old(ks[i].prev) == At(ks, if i == 0 then |ks| - 1 else i - 1);
    }
  }

  /** The links when another child has been put in the place of a child. */
  ghost predicate ChildReplaced(parent: Node, ks: seq<Node>, m: nat, k: nat)
    reads parent`child, ks`next, ks`prev
    requires m < |ks| && k < |ks|
  {
    && parent.child == (if k == 0 then ks[m] else ks[0])
    && ks[m].next == (if m + 1 == k then ks[m] else At(ks, k + 1))
    && (forall i {:trigger ks[i].next} :: 0 <= i < |ks| && i != m && i != k ==>
          ks[i].next == if i + 1 == k && m != k + 1 then ks[m] else At(ks, i + 1))
    && (m == k + 1 && k > 0 ==> ks[0].prev == ks[|ks| - 1])
    && (m + 1 < k ==> ks[m].prev == if m == 0 && k + 1 == |ks| then ks[m] else ks[k - 1])
  }

  /** The first child in the place of the last of three or more. */
  predicate FirstForLast(ks: seq<Node>, k: nat, replacement: Node) {
    |ks| > 2 && k + 1 == |ks| && replacement == ks[0]
  }

  /** That leaves a list in one case only, the first child in the place of the last: it is then the only one. */
  lemma ReplacedChildBreaks(parent: Node, ks: seq<Node>, m: nat, k: nat)
    requires m < |ks| && k < |ks| && m != k && Distinct(ks) && ChildReplaced(parent, ks, m, k) && ks[k].next == null
    ensures FirstForLast(ks, k, ks[m]) ==> Children(parent, [ks[m]])
    ensures (exists ls :: Children(parent, ls)) <==> FirstForLast(ks, k, ks[m])
  {
    var item := ks[m];
    if FirstForLast(ks, k, item) {
      assert m == 0;
      assert Children(parent, [item]);
    } else if m + 1 == k {
      NoListOnCycle(parent, ks[..m + 1] + [item], m, m + 1);
    } else if m == k + 1 && k > 0 {
      NoListOnWrongPrev(parent, ks[..k + 1], 0);
    } else if k < m {
      NoListOnCycle(parent, ks[..k] + [item] + ks[k + 1..m + 1], k, m);
    } else {
      var ns := ks[..m + 1] + ks[k + 1..];
      assert ns[|ns| - 1] == if k + 1 == |ks| then ks[m] else ks[|ks| - 1];
      NoListOnWrongPrev(parent, ns, m);
    }
  }

  /**
   * Puts a node in the place of a child; null arguments are refused.  The list is well
   * formed afterwards exactly when the replacement was no other child, or was the first of
   * three or more put in the place of the last, which leaves it alone in the list.
   */
  method ReplaceItemViaPointer(parent: Node?, item: Node?, replacement: Node?, ghost ks: seq<Node>, ghost k: nat)
    returns (ok: bool)
    requires Known(parent, ks) && (parent != null && item != null ==> k < |ks| && ks[k] == item)
    modifies {parent}`child, {replacement}`prev, {replacement}`next, ks`prev, ks`next
    ensures ok <==> parent != null && item != null && replacement != null
    ensures ok && (replacement == item || replacement !in ks) ==> Children(parent, ks[k := replacement])
    ensures ok && FirstForLast(ks, k, replacement) ==> Children(parent, [replacement])
    ensures ok ==> ((exists ls :: Children(parent, ls)) <==>
      replacement == item || replacement !in ks || FirstForLast(ks, k, replacement))
    ensures ok && replacement != item ==> item.next == null && item.prev == null
    ensures !ok ==> Known(parent, ks)
  {
    if parent == null || parent.child == null || replacement == null || item == null {
      return false;
    }
    if replacement == item {
      assert ks[k := item] == ks;
      return true;
    }
    ChildrenAreDistinct(parent, ks);
    hide ChildReplaced;
    ghost var m := Position(ks, replacement);
    Relink(parent, item, replacement, ks, k, m);
    if m == |ks| {
      Replaced(Site(parent, ks, replacement, k));
    } else {
      ReplacedChildBreaks(parent, ks, m, k);
    }
    ok := true;
  }

  /** The assignments to the links around a replaced child. */
  method Relink(parent: Node, item: Node, replacement: Node, ghost ks: seq<Node>, ghost k: nat, ghost m: nat)
    requires Children(parent, ks) && Distinct(ks) && k < |ks| && ks[k] == item && replacement != item
    requires IsPosition(ks, replacement, m)
    modifies parent`child, replacement`prev, replacement`next, ks`prev, ks`next
    ensures m < |ks| ==> ChildReplaced(parent, ks, m, k)
    ensures item.next == null && item.prev == null
    ensures replacement !in ks ==>
      && (forall i {:trigger ks[i].next} :: 0 <= i < |ks| && i != k ==>
            ks[i].next == if i + 1 == k then replacement else old(ks[i].next))
      && (forall i {:trigger ks[i].prev} :: 0 <= i < |ks| && i != k ==>
            ks[i].prev == if i == k + 1 || (i == 0 && k + 1 == |ks|) then replacement else old(ks[i].prev))
      && replacement.next == old(item.next)
      && replacement.prev == (if |ks| == 1 then replacement else old(item.prev))
      && parent.child == if k == 0 then replacement else old(parent.child)
  {
    replacement.next := item.next;
    replacement.prev := item.prev;
    if replacement.next != null {
      replacement.next.prev := replacement;
    }
    if parent.child == item {
      if parent.child.prev == parent.child {
        replacement.prev := replacement;
      }
      parent.child := replacement;
    } else {
      if replacement.prev != null {
        replacement.prev.next := replacement;
      }
      if replacement.next == null {
        parent.child.prev := replacement;
      }
    }
    item.next := null;
    item.prev := null;
  }

  method ReplaceItemInArray(list: Node?, which: int, item: Node?, ghost ks: seq<Node>) returns (ok: bool)
    requires Known(list, ks)
    modifies {list}`child, {item}`prev, {item}`next, ks`prev, ks`next
    ensures ok <==> 0 <= which < |ks| && list != null && item != null
    ensures !ok ==> Known(list, ks)
    ensures ok && (item == ks[which] || item !in ks) ==> Children(list, ks[which := item])
    ensures ok && FirstForLast(ks, which, item) ==> Children(list, [item])
    ensures ok ==> ((exists ls :: Children(list, ls)) <==>
      item == ks[which] || item !in ks || FirstForLast(ks, which, item))
  {
    if which < 0 {
      return false;
    }
    var target := GetArrayItem(list, which, ks);
    ok := ReplaceItemViaPointer(list, target, item, ks, which);
  }

  /** A list may be inserted before one of its own children, and is then its own child. */
  method InsertIntoItself(list: Node, ghost ks: seq<Node>) returns (ok: bool)
    requires Children(list, ks) && ks != [] && list !in ks
    modifies list`child, list`prev, list`next, ks`prev, ks`next
    ensures ok && list.child == list && Children(list, [list] + ks)
  {
    ok := InsertItemInArray(list, 0, list, ks);
    assert ks[..0] + [list] + ks[0..] == [list] + ks;
  }

  /** Inserting and detaching again at the same place gives back the children there were. */
  method InsertThenDetach(list: Node, which: nat, item: Node, ghost ks: seq<Node>) returns (detached: Node?)
    requires Children(list, ks) && which < |ks| && item !in ks
    modifies list`child, item`prev, item`next, ks`prev, ks`next
    ensures detached == item && Children(list, ks) && item.next == null && item.prev == null
  {
    hide Children;
    hide Without;
    ghost var ls := ks[..which] + [item] + ks[which..];
    WithoutInserted(ks, which, item);
    var ok := InsertItemInArray(list, which, item, ks);
    detached := DetachItemFromArray(list, which, ls);
  }

  lemma WithoutInserted(ks: seq<Node>, k: nat, item: Node)
    requires k <= |ks|
    ensures var ls := ks[..k] + [item] + ks[k..]; |ls| == |ks| + 1 && ls[k] == item && Without(ls, k) == ks
  {
  }
}
