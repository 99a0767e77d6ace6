/** Comparing trees of nodes: the loops over children, and a copy against its original. */
module JsonNodeCompare {
  import opened Bytes
  import opened JsonValue
  import opened JsonList
  import opened JsonForest
  import opened JsonNodes
  import opened JsonCompare
  import D = JsonDuplicate

  // ----- the children of a node -----

  function Kids(f: Forest, n: Node): seq<Node> {
    if n in f.kids then f.kids[n] else []
  }

  /** Nodes of the forest, each linked to the next. */
  ghost predicate Linked(f: Forest, ks: seq<Node>)
    reads f.nodes, ks`next
  {
    Whole(f) && (forall k :: k in ks ==> k in f.nodes) && Forward(ks)
  }

  /** The children of a container bear its elements or members. */
  lemma KidsBear(f: Forest, item: Node, j: Json, key: Option<Text>)
    requires StandsFor(f, item, j, key)
    ensures var ks := Kids(f, item);
      && Linked(f, ks) && Children(item, ks)
      && (j.Array? ==> Bears(f, ks, BuiltElems(j.elems)))
      && (j.Object? ==> Bears(f, ks, BuiltMembers(j.members)))
  {
    hide Bears;
    hide Children;
    hide Forward;
    ChildrenOf(f, item);
    KidsBearAll(f, item, Built(j, key));
  }

  lemma ChildrenOf(f: Forest, item: Node)
    requires Whole(f) && item in f.nodes
    ensures item in f.kids && Children(item, f.kids[item]) && Forward(f.kids[item])
  {
  }

  lemma KidsBearAll(f: Forest, item: Node, c: Content)
    requires Whole(f) && item in f.nodes && f.content[item] == c
    ensures item in f.kids && Bears(f, f.kids[item], c.kids) && forall k :: k in f.kids[item] ==> k in f.nodes
  {
    hide Whole;
    hide Children;
    KidsOf(item.data, f, item, c);
  }

  lemma ElemBorne(f: Forest, ks: seq<Node>, es: Elems)
    requires Linked(f, ks) && Bears(f, ks, BuiltElems(es))
    ensures es.NoElem? <==> ks == []
    ensures es.Elem? ==> StandsFor(f, ks[0], es.head, None)
    ensures es.Elem? ==> Linked(f, ks[1..]) && Bears(f, ks[1..], BuiltElems(es.next)) && ks[0].next == At(ks[1..], 0)
  {
    hide Built;
    hide Whole;
    if es.Elem? {
      assert BuiltElems(es)[1..] == BuiltElems(es.next);
      assert ks[0] in ks && f.content[ks[0]] == BuiltElems(es)[0];
      LinkedRest(f, ks);
    }
  }

  lemma LinkedRest(f: Forest, ks: seq<Node>)
    requires Linked(f, ks) && ks != []
    ensures Linked(f, ks[1..]) && ks[0].next == At(ks[1..], 0)
  {
    hide Whole;
    assert ks[0].next == At(ks, 1);
    forall i {:trigger ks[1..][i].next} | 0 <= i < |ks[1..]| ensures ks[1..][i].next == At(ks[1..], i + 1) {
      assert ks[1..][i] == ks[i + 1] && ks[i + 1].next == At(ks, i + 2);
    }
  }

  lemma MemberBorne(f: Forest, ks: seq<Node>, ms: Members)
    requires ms.Member? && Bears(f, ks, BuiltMembers(ms))
    ensures ks != [] && Bears(f, ks[1..], BuiltMembers(ms.next))
    ensures ks[0] in f.content && f.content[ks[0]] == Built(ms.value, Some(ms.key))
  {
    hide Built;
    assert BuiltMembers(ms)[1..] == BuiltMembers(ms.next);
  }

  lemma FirstBorne(f: Forest, ks: seq<Node>, ms: Members)
    requires Linked(f, ks) && Bears(f, ks, BuiltMembers(ms))
    ensures ms.NoMember? <==> ks == []
    ensures ms.Member? ==> StandsFor(f, ks[0], ms.value, Some(ms.key)) && ks[0].data.key == Some(ms.key)
    ensures ms.Member? ==>
      Linked(f, ks[1..]) && Bears(f, ks[1..], BuiltMembers(ms.next)) && ks[0].next == At(ks[1..], 0)
  {
    hide Built;
    hide Whole;
    hide Forward;
    if ms.Member? {
      MemberBorne(f, ks, ms);
      assert ks[0] in ks;
      LinkedRest(f, ks);
      NodeHolds(f, ks[0], ms.value, Some(ms.key));
      BuiltKey(ms.value, Some(ms.key));
    }
  }

  // ----- looking up a member -----

  /** Where among the members the first with this key stands. */
  function Place(ms: Members, key: Text, cs: bool): nat {
    if ms.NoMember? || Fold(ms.key, cs) == Fold(key, cs) then 0 else 1 + Place(ms.next, key, cs)
  }

  /** The child that the search finds stands for the member that the lookup finds. */
  lemma {:induction false} NamedIsLookup(f: Forest, ks: seq<Node>, ms: Members, name: Text, cs: bool)
    returns (key: Text)
    requires Whole(f) && Bears(f, ks, BuiltMembers(ms)) && forall k :: k in ks ==> k in f.nodes
    ensures match Lookup(ms, name, cs)
      case None => Named(ks, name, cs) == null
      case Some(v) => Named(ks, name, cs) == At(ks, Place(ms, name, cs)) != null
                      && StandsFor(f, Named(ks, name, cs), v, Some(key))
    decreases ms
  {
    hide Whole;
    hide Built;
    hide Fold;
    key := [];
    if ms.Member? {
      assert ks[0] in ks && f.content[ks[0]] == BuiltMembers(ms)[0] == Built(ms.value, Some(ms.key));
      NodeHolds(f, ks[0], ms.value, Some(ms.key));
      BuiltKey(ms.value, Some(ms.key));
      if Fold(ms.key, cs) == Fold(name, cs) {
        key := ms.key;
      } else {
        MemberBorne(f, ks, ms);
        key := NamedIsLookup(f, ks[1..], ms.next, name, cs);
      }
    }
  }

  // ----- nodes that two forests share -----

  /** A node holds the same in whatever forest it is looked at. */
  lemma {:induction false} SameContent(f: Forest, g: Forest, n: Node)
    requires Whole(f) && Whole(g) && n in f.nodes && n in g.nodes
    ensures f.content[n] == g.content[n]
    decreases f.content[n]
  {
    var c, d := f.content[n], g.content[n];
    KidsOf(n.data, f, n, c);
    KidsOf(n.data, g, n, d);
    assert Children(n, f.kids[n]) && Children(n, g.kids[n]);
    hide Whole;
    ChildrenAreUnique(n, f.kids[n], g.kids[n]);
    forall i | 0 <= i < |c.kids| ensures c.kids[i] == d.kids[i] {
      assert f.kids[n][i] in f.nodes && g.kids[n][i] in g.nodes;
      SameContent(f, g, f.kids[n][i]);
    }
    assert c.kids == d.kids;
  }

  // ----- what the comparison answers -----

  /**
   * Whether two nodes compare as equal: as their values do, except that one and the same
   * node is equal to itself whatever it holds.
   */
  ghost predicate Same(f: Forest, g: Forest, a: Node, b: Node, i: Json, j: Json, cs: bool)
    decreases Size(i) + Size(j), 0
  {
    a == b ||
    match (i, j)
    case (Array(es), Array(fs)) => SameElems(f, g, Kids(f, a), Kids(g, b), es, fs, cs)
    case (Object(ms), Object(ns)) =>
      SameMembers(f, g, Kids(f, a), Kids(g, b), ms, ns, cs) && SameMembers(g, f, Kids(g, b), Kids(f, a), ns, ms, cs)
    case _ => Compare(i, j, cs)
  }

  ghost predicate SameElems(
    f: Forest, g: Forest, ks: seq<Node>, ls: seq<Node>, es: Elems, fs: Elems, cs: bool)
    decreases SizeElems(es) + SizeElems(fs), 1
  {
    match (es, fs)
    case (NoElem, NoElem) => true
    case (Elem(i, es'), Elem(j, fs')) =>
      ks != [] && ls != [] && Same(f, g, ks[0], ls[0], i, j, cs) && SameElems(f, g, ks[1..], ls[1..], es', fs', cs)
    case _ => false
  }

  /** Every member equals the first of the others with its key. */
  ghost predicate SameMembers(
    f: Forest, g: Forest, ks: seq<Node>, ls: seq<Node>, ms: Members, ns: Members, cs: bool)
    decreases SizeMembers(ms) + SizeMembers(ns), 1
  {
    ms.NoMember? ||
    (ks != [] && SameMember(f, g, ks[0], ls, ms, ns, cs) && SameMembers(f, g, ks[1..], ls, ms.next, ns, cs))
  }

  ghost predicate SameMember(
    f: Forest, g: Forest, a: Node, ls: seq<Node>, ms: Members, ns: Members, cs: bool)
    requires ms.Member?
    decreases SizeMembers(ms) + SizeMembers(ns), 0
  {
    var v := Lookup(ns, ms.key, cs);
    var b := At(ls, Place(ns, ms.key, cs));
    v.Some? && b != null && Same(f, g, a, b, ms.value, v.value, cs)
  }

  // ----- where that is comparing values -----

  /** Both are trees of 32-bit integers that repeat no key with a different meaning. */
  predicate Sound(i: Json, j: Json, cs: bool) {
    Integral(i) && Integral(j) && Consistent(i, cs) && Consistent(j, cs)
  }

  predicate SoundElems(es: Elems, fs: Elems, cs: bool) {
    IntegralElems(es) && IntegralElems(fs) && ConsistentElems(es, cs) && ConsistentElems(fs, cs)
  }

  predicate SoundMembers(ms: Members, ns: Members, cs: bool) {
    IntegralMembers(ms) && IntegralMembers(ns) && ValuesConsistent(ms, cs) && ValuesConsistent(ns, cs)
  }

  /**
   * An answer to a comparison: yes at least where the values compare as equal; and no more
   * than that where no node is shared, or where both values are sound.
   */
  predicate Answers(equal: bool, compared: bool, apart: bool, sound: bool) {
    (compared ==> equal) && (apart || sound ==> equal == compared)
  }

  lemma KindsDiffer(i: Json, j: Json, k: Option<Text>, l: Option<Text>, cs: bool)
    requires Built(i, k).data.kind != Built(j, l).data.kind
    ensures !Compare(i, j, cs)
  {
  }

  lemma SameValue(f: Forest, g: Forest, n: Node, i: Json, j: Json, k: Option<Text>, l: Option<Text>, cs: bool)
    requires StandsFor(f, n, i, k) && StandsFor(g, n, j, l)
    ensures i == j && (Sound(i, j, cs) ==> Compare(i, j, cs))
  {
    SameContent(f, g, n);
    BuiltInjective(i, j, k, l);
    if Integral(i) {
      CopyAccepted(i, cs);
    }
  }

  lemma ConsistentValues(ms: Members, cs: bool)
    ensures ConsistentMembers(ms, cs) ==> ValuesConsistent(ms, cs)
  {
    MatchedIsInside(ms, map[], cs);
  }

  /** The first member of `ms` equals the first member of `ns` with its key. */
  predicate Covers(ms: Members, ns: Members, cs: bool)
    requires ms.Member?
  {
    var v := Lookup(ns, ms.key, cs);
    v.Some? && Compare(ms.value, v.value, cs)
  }

  lemma CoveredStep(ms: Members, ns: Members, cs: bool)
    requires ms.Member?
    ensures Covered(ms, ns, cs) <==> Covers(ms, ns, cs) && Covered(ms.next, ns, cs)
    ensures SoundMembers(ms, ns, cs) ==> SoundMembers(ms.next, ns, cs)
  {
    hide Compare;
  }

  lemma CoveredEnd(ms: Members, ns: Members, cs: bool)
    ensures ms.NoMember? ==> Covered(ms, ns, cs)
  {
  }

  /**
   * Nodes of trees that share none are the same exactly when their values compare as equal,
   * and so are nodes of any trees whose values are sound; nodes that share more are the same
   * at least then.
   */
  lemma {:induction false} SameIsCompare(
    f: Forest, g: Forest, a: Node, b: Node, i: Json, j: Json, k: Option<Text>, l: Option<Text>, cs: bool)
    requires StandsFor(f, a, i, k) && StandsFor(g, b, j, l)
    ensures a != b ==> Answers(Same(f, g, a, b, i, j, cs), Compare(i, j, cs), f.nodes !! g.nodes, Sound(i, j, cs))
    ensures Sound(i, j, cs) ==> Compare(i, j, cs) == Same(f, g, a, b, i, j, cs)
    ensures a == b ==> Same(f, g, a, b, i, j, cs)
    decreases Size(i) + Size(j), 0
  {
    hide StandsFor;
    hide Whole;
    hide Linked;
    hide Bears;
    hide Children;
    hide Kids;
    hide Built;
    hide BuiltElems;
    hide BuiltMembers;
    hide Covered;
    hide ConsistentMembers;
    if a == b {
      SameValue(f, g, a, i, j, k, l, cs);
      return;
    }
    KidsBear(f, a, i, k);
    KidsBear(g, b, j, l);
    if i.Array? && j.Array? {
      ElemsSame(f, g, Kids(f, a), Kids(g, b), i.elems, j.elems, cs);
    } else if i.Object? && j.Object? {
      MembersSame(f, g, Kids(f, a), Kids(g, b), i.members, j.members, cs);
      MembersSame(g, f, Kids(g, b), Kids(f, a), j.members, i.members, cs);
      ConsistentValues(i.members, cs);
      ConsistentValues(j.members, cs);
    }
  }

  lemma {:induction false} ElemsSame(
    f: Forest, g: Forest, ks: seq<Node>, ls: seq<Node>, es: Elems, fs: Elems, cs: bool)
    requires Linked(f, ks) && Linked(g, ls) && Bears(f, ks, BuiltElems(es)) && Bears(g, ls, BuiltElems(fs))
    ensures Answers(SameElems(f, g, ks, ls, es, fs, cs), CompareElems(es, fs, cs), f.nodes !! g.nodes,
                    SoundElems(es, fs, cs))
    decreases SizeElems(es) + SizeElems(fs), 1
  {
    hide StandsFor;
    hide Linked;
    hide Bears;
    hide Same;
    hide Compare;
    hide BuiltElems;
    ElemBorne(f, ks, es);
    ElemBorne(g, ls, fs);
    if es.Elem? && fs.Elem? {
      SameIsCompare(f, g, ks[0], ls[0], es.head, fs.head, None, None, cs);
      NotShared(f, g, ks[0], ls[0], es.head, fs.head, None, None);
      ElemsSame(f, g, ks[1..], ls[1..], es.next, fs.next, cs);
    }
  }

  lemma NotShared(
    f: Forest, g: Forest, a: Node, b: Node, i: Json, j: Json, k: Option<Text>, l: Option<Text>)
    requires StandsFor(f, a, i, k) && StandsFor(g, b, j, l)
    ensures f.nodes !! g.nodes ==> a != b
  {
  }

  lemma {:induction false} MembersSame(
    f: Forest, g: Forest, ks: seq<Node>, ls: seq<Node>, ms: Members, ns: Members, cs: bool)
    requires Linked(f, ks) && Linked(g, ls) && Bears(f, ks, BuiltMembers(ms)) && Bears(g, ls, BuiltMembers(ns))
    ensures Answers(SameMembers(f, g, ks, ls, ms, ns, cs), Covered(ms, ns, cs), f.nodes !! g.nodes,
                    SoundMembers(ms, ns, cs))
    decreases SizeMembers(ms) + SizeMembers(ns), 1
  {
    hide StandsFor;
    hide Linked;
    hide Bears;
    hide Covered;
    hide Covers;
    hide SameMember;
    hide BuiltMembers;
    FirstBorne(f, ks, ms);
    if ms.Member? {
      MemberSame(f, g, ks[0], ls, ms, ns, cs);
      MembersSame(f, g, ks[1..], ls, ms.next, ns, cs);
      CoveredStep(ms, ns, cs);
    } else {
      CoveredEnd(ms, ns, cs);
    }
  }

  lemma {:induction false} MemberSame(
    f: Forest, g: Forest, a: Node, ls: seq<Node>, ms: Members, ns: Members, cs: bool)
    requires ms.Member? && StandsFor(f, a, ms.value, Some(ms.key))
    requires Linked(g, ls) && Bears(g, ls, BuiltMembers(ns))
    ensures Answers(SameMember(f, g, a, ls, ms, ns, cs), Covers(ms, ns, cs), f.nodes !! g.nodes,
                    SoundMembers(ms, ns, cs))
    decreases SizeMembers(ms) + SizeMembers(ns), 0
  {
    hide StandsFor;
    hide Whole;
    hide Forward;
    hide Bears;
    hide Same;
    hide Compare;
    hide Lookup;
    hide Place;
    hide BuiltMembers;
    var key := NamedIsLookup(g, ls, ns, ms.key, cs);
    LookupMeans(ns, ms.key, cs);
    var v := Lookup(ns, ms.key, cs);
    if v.Some? {
      var b := At(ls, Place(ns, ms.key, cs));
      SameIsCompare(f, g, a, b, ms.value, v.value, Some(ms.key), Some(key), cs);
      NotShared(f, g, a, b, ms.value, v.value, Some(ms.key), Some(key));
    }
  }

  // ----- comparing -----

  /**
   * Compares two nodes, which may be null: nothing is equal to a null pointer.  Where they
   * are not one and the same, and share no node below them or are sound, the answer is that
   * of their values.
   */
  method CompareItems(
    a: Node?, b: Node?, cs: bool, ghost i: Json, ghost j: Json, ghost k: Option<Text>, ghost l: Option<Text>,
    ghost f: Forest, ghost g: Forest)
    returns (equal: bool)
    requires a != null && b != null ==> StandsFor(f, a, i, k) && StandsFor(g, b, j, l)
    ensures equal <==> a != null && b != null && Same(f, g, a, b, i, j, cs)
    ensures a != null && b != null && a != b ==>
      Answers(equal, Compare(i, j, cs), f.nodes !! g.nodes, Sound(i, j, cs))
  {
    hide StandsFor;
    hide Same;
    hide Compare;
    if a == null || b == null {
      return false;
    }
    equal := CompareNodes(a, b, cs, i, j, k, l, f, g);
    SameIsCompare(f, g, a, b, i, j, k, l, cs);
  }

  /** Compares two nodes, in any trees. */
  method CompareNodes(
    a: Node, b: Node, cs: bool, ghost i: Json, ghost j: Json, ghost k: Option<Text>, ghost l: Option<Text>,
    ghost f: Forest, ghost g: Forest)
    returns (equal: bool)
    requires StandsFor(f, a, i, k) && StandsFor(g, b, j, l)
    ensures equal <==> Same(f, g, a, b, i, j, cs)
    decreases Size(i) + Size(j), 0
  {
    hide StandsFor;
    hide Whole;
    hide Siblings;
    hide Linked;
    hide Bears;
    hide Forward;
    hide Backward;
    hide SameElems;
    hide SameMembers;
    NodeHolds(f, a, i, k);
    NodeHolds(g, b, j, l);
    if a.data.kind != b.data.kind {
      KindsDiffer(i, j, k, l, cs);
      SameKind(f, g, a, b, i, j, k, l);
      return false;
    }
    if a == b {
      return true;
    }
    KidsBear(f, a, i, k);
    KidsBear(g, b, j, l);
    match a.data.kind {
      case FalseKind => equal := true;
      case TrueKind => equal := true;
      case NullKind => equal := true;
      case NumberKind => equal := CompareDouble(a.data.valuedouble, b.data.valuedouble);
      case StringKind => equal := a.data.valuestring == b.data.valuestring;
      case ArrayKind =>
        equal := CompareChildren(a.child, b.child, cs, Kids(f, a), Kids(g, b), i.elems, j.elems, f, g);
      case ObjectKind =>
        equal := CoverMembers(a.child, b, cs, Kids(f, a), Kids(g, b), i.members, j.members, f, g);
        if equal {
          equal := CoverMembers(b.child, a, cs, Kids(g, b), Kids(f, a), j.members, i.members, g, f);
        }
      case _ => equal := false;
    }
  }

  /** One and the same node is of one kind. */
  lemma SameKind(
    f: Forest, g: Forest, a: Node, b: Node, i: Json, j: Json, k: Option<Text>, l: Option<Text>)
    requires StandsFor(f, a, i, k) && StandsFor(g, b, j, l) && Built(i, k).data.kind != Built(j, l).data.kind
    ensures a != b && !(i.Array? && j.Array?) && !(i.Object? && j.Object?)
  {
    hide Whole;
    NodeHolds(f, a, i, k);
    NodeHolds(g, b, j, l);
  }

  /** The loop over the elements of two arrays. */
  method CompareChildren(
    child: Node?, other: Node?, cs: bool, ghost ks: seq<Node>, ghost ls: seq<Node>,
    ghost es: Elems, ghost fs: Elems, ghost f: Forest, ghost g: Forest)
    returns (equal: bool)
    requires child == At(ks, 0) && other == At(ls, 0) && Linked(f, ks) && Linked(g, ls)
    requires Bears(f, ks, BuiltElems(es)) && Bears(g, ls, BuiltElems(fs))
    ensures equal <==> SameElems(f, g, ks, ls, es, fs, cs)
    decreases SizeElems(es) + SizeElems(fs), 1
  {
    hide Linked;
    hide Bears;
    hide Same;
    hide StandsFor;
    hide BuiltElems;
    var a, b := child, other;
    ghost var m, n, i, j := ks, ls, es, fs;
    while a != null && b != null
      invariant a == At(m, 0) && b == At(n, 0) && Linked(f, m) && Linked(g, n)
      invariant Bears(f, m, BuiltElems(i)) && Bears(g, n, BuiltElems(j))
      invariant SameElems(f, g, ks, ls, es, fs, cs) == SameElems(f, g, m, n, i, j, cs)
      invariant SizeElems(i) <= SizeElems(es) && SizeElems(j) <= SizeElems(fs)
      decreases i
    {
      ElemBorne(f, m, i);
      ElemBorne(g, n, j);
      var same := CompareNodes(a, b, cs, i.head, j.head, None, None, f, g);
      if !same {
        return false;
      }
      a, b, m, n, i, j := a.next, b.next, m[1..], n[1..], i.next, j.next;
    }
    ElemBorne(f, m, i);
    ElemBorne(g, n, j);
    equal := a == null && b == null;
  }

  /** One of the two passes over the members of two objects. */
  method CoverMembers(
    child: Node?, b: Node, cs: bool, ghost ks: seq<Node>, ghost ls: seq<Node>,
    ghost ms: Members, ghost ns: Members, ghost f: Forest, ghost g: Forest)
    returns (covered: bool)
    requires child == At(ks, 0) && Linked(f, ks) && Bears(f, ks, BuiltMembers(ms))
    requires Children(b, ls) && Linked(g, ls) && Bears(g, ls, BuiltMembers(ns))
    ensures covered <==> SameMembers(f, g, ks, ls, ms, ns, cs)
    decreases SizeMembers(ms) + SizeMembers(ns), 1
  {
    hide Linked;
    hide Bears;
    hide Children;
    hide SameMember;
    hide StandsFor;
    hide BuiltMembers;
    var element := child;
    ghost var m, i := ks, ms;
    while element != null
      invariant element == At(m, 0) && Linked(f, m) && Bears(f, m, BuiltMembers(i))
      invariant SameMembers(f, g, ks, ls, ms, ns, cs) == SameMembers(f, g, m, ls, i, ns, cs)
      invariant SizeMembers(i) <= SizeMembers(ms)
      decreases i
    {
      FirstBorne(f, m, i);
      var same := CoverMember(element, b, cs, ls, i, ns, f, g);
      if !same {
        return false;
      }
      element, m, i := element.next, m[1..], i.next;
    }
    FirstBorne(f, m, i);
    covered := true;
  }

  /** Looks up one member in the other object and compares the two. */
  method CoverMember(
    element: Node, b: Node, cs: bool, ghost ls: seq<Node>, ghost ms: Members, ghost ns: Members,
    ghost f: Forest, ghost g: Forest)
    returns (same: bool)
    requires ms.Member? && StandsFor(f, element, ms.value, Some(ms.key)) && element.data.key == Some(ms.key)
    requires Children(b, ls) && Linked(g, ls) && Bears(g, ls, BuiltMembers(ns))
    ensures same <==> SameMember(f, g, element, ls, ms, ns, cs)
    decreases SizeMembers(ms) + SizeMembers(ns), 0
  {
    hide StandsFor;
    hide Whole;
    hide Forward;
    hide Bears;
    hide Children;
    hide Same;
    hide Lookup;
    hide Place;
    hide BuiltMembers;
    var found := GetObjectItem(b, element.data.key, cs, ls);
    ghost var key := NamedIsLookup(g, ls, ns, ms.key, cs);
    if found == null {
      return false;
    }
    LookupMeans(ns, ms.key, cs);
    ghost var v := Lookup(ns, ms.key, cs).value;
    same := CompareNodes(element, found, cs, ms.value, v, Some(ms.key), Some(key), f, g);
  }

  /**
   * Copies a tree of 32-bit integers and compares the copy with the original: they are
   * equal exactly when no key of the original is repeated with a different meaning.
   */
  method DuplicateAndCompare(item: Node, cs: bool, ghost j: Json, ghost key: Option<Text>, ghost f: Forest)
    returns (copy: Node, equal: bool, ghost g: Forest)
    requires StandsFor(f, item, j, key) && Integral(j)
    ensures fresh(g.nodes) && Tree(g, copy) && StandsFor(g, copy, j, key)
    ensures equal <==> Consistent(j, cs)
    ensures UniqueKeys(j, cs) ==> equal
  {
    hide Whole;
    hide Same;
    hide Compare;
    hide Built;
    copy, g := D.DuplicateNode(item, true, f, Built(j, key));
    CopyAccepted(j, cs);
    equal := CompareNodes(item, copy, cs, j, j, key, key, f, g);
    SameIsCompare(f, g, item, copy, j, j, key, key, cs);
  }
}
