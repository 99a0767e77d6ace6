/** What the nodes of a parsed text hold: trees of nodes for trees of values. */
module JsonNodes {
  import opened Bytes
  import opened JsonValue
  import opened JsonList
  import opened JsonForest

  /** A node of this kind under this key, its other fields zero. */
  function Blank(kind: Kind, key: Option<Text>): Data {
    Data(kind, None, 0, 0.0, key)
  }

  /** The node that stands for a value under a key, with everything below it. */
  function Built(j: Json, key: Option<Text>): Content {
    match j
    case Null => Content(Blank(NullKind, key), [])
    case False => Content(Blank(FalseKind, key), [])
    case True => Content(Blank(TrueKind, key).(valueint := 1), [])
    case Number(d) => Content(Blank(NumberKind, key).(valueint := ValueInt(d), valuedouble := d), [])
    case String(t) => Content(Blank(StringKind, key).(valuestring := Some(t)), [])
    case Array(es) => Content(Blank(ArrayKind, key), BuiltElems(es))
    case Object(ms) => Content(Blank(ObjectKind, key), BuiltMembers(ms))
  }

  function BuiltElems(es: Elems): seq<Content> {
    if es.NoElem? then [] else [Built(es.head, None)] + BuiltElems(es.next)
  }

  function BuiltMembers(ms: Members): seq<Content> {
    if ms.NoMember? then [] else [Built(ms.value, Some(ms.key))] + BuiltMembers(ms.next)
  }

  /** The node stands for the value. */
  ghost predicate StandsFor(f: Forest, item: Node, j: Json, key: Option<Text>)
    reads f.nodes
  {
    Whole(f) && item in f.nodes && f.content[item] == Built(j, key)
  }

  /** What the node of a value and the walk along its children have to show. */
  lemma NodeHolds(f: Forest, item: Node, j: Json, key: Option<Text>)
    requires StandsFor(f, item, j, key)
    ensures item.data == Built(j, key).data && Siblings(f, item.child, Built(j, key).kids)
  {
    KidsAreSiblings(f, item, Built(j, key));
  }

  lemma FirstElem(f: Forest, child: Node?, es: Elems)
    requires Whole(f) && Siblings(f, child, BuiltElems(es))
    ensures child == null <==> es.NoElem?
    ensures es.Elem? ==> StandsFor(f, child, es.head, None) && Siblings(f, child.next, BuiltElems(es.next))
  {
    hide Whole;
    hide Built;
    if es.Elem? {
      assert BuiltElems(es)[1..] == BuiltElems(es.next);
    }
  }

  lemma ContainerHolds(f: Forest, item: Node, j: Json, key: Option<Text>)
    requires StandsFor(f, item, j, key)
    ensures Whole(f)
    ensures j.Array? ==> Siblings(f, item.child, BuiltElems(j.elems))
    ensures j.Object? ==> Siblings(f, item.child, BuiltMembers(j.members))
  {
    hide Whole;
    hide Siblings;
    NodeHolds(f, item, j, key);
  }

  lemma FirstMember(f: Forest, child: Node?, ms: Members)
    requires Whole(f) && Siblings(f, child, BuiltMembers(ms))
    ensures child == null <==> ms.NoMember?
    ensures ms.Member? ==> StandsFor(f, child, ms.value, Some(ms.key)) && Siblings(f, child.next, BuiltMembers(ms.next))
    ensures ms.Member? ==> child.data.key == Some(ms.key)
  {
    hide Whole;
    hide Built;
    if ms.Member? {
      assert BuiltMembers(ms)[1..] == BuiltMembers(ms.next);
      NodeHolds(f, child, ms.value, Some(ms.key));
      BuiltKey(ms.value, Some(ms.key));
    }
  }

  lemma BuiltKey(j: Json, key: Option<Text>)
    ensures Built(j, key).data.key == key
  {
  }

  /** Different values have different nodes. */
  lemma {:induction false} BuiltInjective(i: Json, j: Json, k: Option<Text>, l: Option<Text>)
    requires Built(i, k) == Built(j, l)
    ensures i == j && k == l
    decreases i, 1
  {
    match (i, j)
    case (Array(es), Array(fs)) => ElemsInjective(es, fs);
    case (Object(ms), Object(ns)) => MembersInjective(ms, ns);
    case _ =>
  }

  lemma {:induction false} ElemsInjective(es: Elems, fs: Elems)
    requires BuiltElems(es) == BuiltElems(fs)
    ensures es == fs
    decreases es, 0
  {
    if es.Elem? {
      assert fs.Elem? && BuiltElems(fs)[0] == Built(es.head, None);
      BuiltInjective(es.head, fs.head, None, None);
      assert BuiltElems(es)[1..] == BuiltElems(es.next) && BuiltElems(fs)[1..] == BuiltElems(fs.next);
      ElemsInjective(es.next, fs.next);
    }
  }

  lemma {:induction false} MembersInjective(ms: Members, ns: Members)
    requires BuiltMembers(ms) == BuiltMembers(ns)
    ensures ms == ns
    decreases ms, 0
  {
    if ms.Member? {
      assert ns.Member? && BuiltMembers(ns)[0] == Built(ms.value, Some(ms.key));
      BuiltInjective(ms.value, ns.value, Some(ms.key), Some(ns.key));
      assert BuiltMembers(ms)[1..] == BuiltMembers(ms.next) && BuiltMembers(ns)[1..] == BuiltMembers(ns.next);
      MembersInjective(ms.next, ns.next);
    }
  }

  // ----- chains read one by one -----

  function Chain(items: seq<Json>, tail: Elems): Elems {
    if items == [] then tail else Elem(items[0], Chain(items[1..], tail))
  }

  lemma {:induction false} ChainLast(items: seq<Json>, j: Json, tail: Elems)
    ensures Chain(items + [j], tail) == Chain(items, Elem(j, tail))
    decreases items
  {
    if items == [] {
      assert [j][1..] == [];
      assert items + [j] == [j];
    } else {
      assert (items + [j])[1..] == items[1..] + [j];
      ChainLast(items[1..], j, tail);
    }
  }

  function ChainMembers(items: seq<(Text, Json)>, tail: Members): Members {
    if items == [] then tail else Member(items[0].0, items[0].1, ChainMembers(items[1..], tail))
  }

  lemma {:induction false} ChainMembersLast(items: seq<(Text, Json)>, key: Text, j: Json, tail: Members)
    ensures ChainMembers(items + [(key, j)], tail) == ChainMembers(items, Member(key, j, tail))
    decreases items
  {
    if items == [] {
      assert [(key, j)][1..] == [];
      assert items + [(key, j)] == [(key, j)];
    } else {
      assert (items + [(key, j)])[1..] == items[1..] + [(key, j)];
      ChainMembersLast(items[1..], key, j, tail);
    }
  }

  lemma {:induction false} BuiltChain(items: seq<Json>, j: Json)
    ensures BuiltElems(Chain(items + [j], NoElem)) == BuiltElems(Chain(items, NoElem)) + [Built(j, None)]
    decreases items
  {
    if items == [] {
      assert [j][1..] == [];
      assert items + [j] == [j];
    } else {
      assert (items + [j])[1..] == items[1..] + [j];
      BuiltChain(items[1..], j);
    }
  }

  lemma {:induction false} BuiltMemberChain(items: seq<(Text, Json)>, key: Text, j: Json)
    ensures BuiltMembers(ChainMembers(items + [(key, j)], NoMember)) ==
      BuiltMembers(ChainMembers(items, NoMember)) + [Built(j, Some(key))]
    decreases items
  {
    if items == [] {
      assert [(key, j)][1..] == [];
      assert items + [(key, j)] == [(key, j)];
    } else {
      assert (items + [(key, j)])[1..] == items[1..] + [(key, j)];
      BuiltMemberChain(items[1..], key, j);
    }
  }
}
