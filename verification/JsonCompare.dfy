/** Comparing two trees: equality up to the order of object members. */
module JsonCompare {
  import opened Bytes
  import opened JsonValue

  // ----- looking up a member -----

  function Size(j: Json): nat {
    match j
    case Array(es) => 1 + SizeElems(es)
    case Object(ms) => 1 + SizeMembers(ms)
    case _ => 1
  }

  function SizeElems(es: Elems): nat {
    if es.NoElem? then 0 else 1 + Size(es.head) + SizeElems(es.next)
  }

  function SizeMembers(ms: Members): nat {
    if ms.NoMember? then 0 else 1 + Size(ms.value) + SizeMembers(ms.next)
  }

  /** The first member with this key. */
  function Lookup(ms: Members, key: Text, cs: bool): (r: Option<Json>)
    ensures r.Some? ==> Size(r.value) < SizeMembers(ms)
  {
    if ms.NoMember? then None
    else if Fold(ms.key, cs) == Fold(key, cs) then Some(ms.value)
    else Lookup(ms.next, key, cs)
  }

  // ----- comparing -----

  function Abs(x: real): real {
    if x < 0.0 then -x else x
  }

  /** DBL_EPSILON, two to the power of minus 52. */
  const EPSILON: real := 1.0 / 4503599627370496.0

  function CompareDouble(a: real, b: real): bool {
    Abs(a - b) <= (if Abs(a) > Abs(b) then Abs(a) else Abs(b)) * EPSILON
  }

  /** Whether two distinct nodes compare as equal. */
  function Compare(a: Json, b: Json, cs: bool): bool
    decreases Size(a) + Size(b), 0
  {
    match (a, b)
    case (Null, Null) => true
    case (False, False) => true
    case (True, True) => true
    case (Number(x), Number(y)) => CompareDouble(x, y)
    case (String(t), String(u)) => t == u
    case (Array(es), Array(fs)) => CompareElems(es, fs, cs)
    case (Object(ms), Object(ns)) => Covered(ms, ns, cs) && Covered(ns, ms, cs)
    case _ => false
  }

  function CompareElems(es: Elems, fs: Elems, cs: bool): bool
    decreases SizeElems(es) + SizeElems(fs), 1
  {
    match (es, fs)
    case (NoElem, NoElem) => true
    case (Elem(a, es'), Elem(b, fs')) => Compare(a, b, cs) && CompareElems(es', fs', cs)
    case _ => false
  }

  /** Every member of `ms` equals the first member of `ns` with its key. */
  function Covered(ms: Members, ns: Members, cs: bool): bool
    decreases SizeMembers(ms) + SizeMembers(ns), 1
  {
    ms.NoMember? ||
    match Lookup(ns, ms.key, cs)
    case None => false
    case Some(v) => Compare(ms.value, v, cs) && Covered(ms.next, ns, cs)
  }

  // ----- the meaning of a tree -----

  /** A tree with member order, and all but the first member with a key, forgotten. */
  datatype Meaning =
    | Plain(json: Json)
    | Sequence(elems: seq<Meaning>)
    | Mapping(members: map<Text, Meaning>)

  function Mean(j: Json, cs: bool): Meaning {
    match j
    case Array(es) => Sequence(MeanElems(es, cs))
    case Object(ms) => Mapping(MeanMembers(ms, cs))
    case _ => Plain(j)
  }

  function MeanElems(es: Elems, cs: bool): seq<Meaning> {
    if es.NoElem? then [] else [Mean(es.head, cs)] + MeanElems(es.next, cs)
  }

  function MeanMembers(ms: Members, cs: bool): map<Text, Meaning> {
    if ms.NoMember? then map[] else MeanMembers(ms.next, cs)[Fold(ms.key, cs) := Mean(ms.value, cs)]
  }

  /** In every object, members with the same key have the same meaning. */
  predicate Consistent(j: Json, cs: bool) {
    match j
    case Array(es) => ConsistentElems(es, cs)
    case Object(ms) => ConsistentMembers(ms, cs)
    case _ => true
  }

  predicate ConsistentElems(es: Elems, cs: bool) {
    es.NoElem? || (Consistent(es.head, cs) && ConsistentElems(es.next, cs))
  }

  predicate ConsistentMembers(ms: Members, cs: bool) {
    ms.NoMember? ||
    (var others := MeanMembers(ms.next, cs);
     var key := Fold(ms.key, cs);
     && Consistent(ms.value, cs) && ConsistentMembers(ms.next, cs)
     && (key in others ==> others[key] == Mean(ms.value, cs)))
  }

  /** All numbers are 32-bit integers. */
  predicate Integral(j: Json) {
    match j
    case Number(d) => IsInt32(d)
    case Array(es) => IntegralElems(es)
    case Object(ms) => IntegralMembers(ms)
    case _ => true
  }

  predicate IntegralElems(es: Elems) {
    es.NoElem? || (Integral(es.head) && IntegralElems(es.next))
  }

  predicate IntegralMembers(ms: Members) {
    ms.NoMember? || (Integral(ms.value) && IntegralMembers(ms.next))
  }

  // ----- comparing is comparing meanings -----

  /** Equal up to one part in two to the power of 52 of the larger magnitude. */
  lemma CompareDoubleExactly(a: real, b: real)
    ensures var d := (if a < b then b - a else a - b) * 4503599627370496.0;
      CompareDouble(a, b) <==> d <= a || d <= -a || d <= b || d <= -b
  {
    var largest, d := if Abs(a) > Abs(b) then Abs(a) else Abs(b), Abs(a - b);
    assert largest * EPSILON * 4503599627370496.0 == largest;
  }

  lemma IntegersCompareExactly(x: real, y: real)
    requires IsInt32(x) && IsInt32(y)
    ensures CompareDouble(x, y) <==> x == y
  {
    var m, n := ValueInt(x), ValueInt(y);
    var largest := if Abs(x) > Abs(y) then Abs(x) else Abs(y);
    assert largest <= 2147483648.0;
    assert largest * EPSILON < 1.0;
    if x != y {
      assert m - n >= 1 || m - n <= -1;
      assert x - y == (m - n) as real;
    }
  }

  predicate SameMeaning(a: Json, b: Json, cs: bool) {
    Mean(a, cs) == Mean(b, cs) && Consistent(a, cs) && Consistent(b, cs)
  }

  /**
   * Two trees of 32-bit integers compare as equal exactly when they mean the same and
   * neither repeats a key with a different meaning.
   */
  lemma {:induction false} CompareIsSameMeaning(a: Json, b: Json, cs: bool)
    requires Integral(a) && Integral(b)
    ensures Compare(a, b, cs) <==> SameMeaning(a, b, cs)
    decreases Size(a) + Size(b), 0
  {
    match (a, b)
    case (Number(x), Number(y)) => IntegersCompareExactly(x, y);
    case (Array(es), Array(fs)) => ElemsSameMeaning(es, fs, cs);
    case (Object(ms), Object(ns)) =>
      CoveredIsMatched(ms, ns, cs);
      CoveredIsMatched(ns, ms, cs);
      if Covered(ms, ns, cs) && Covered(ns, ms, cs) {
        MatchedIsInside(ms, MeanMembers(ns, cs), cs);
        MatchedIsInside(ns, MeanMembers(ms, cs), cs);
        assert MeanMembers(ms, cs) == MeanMembers(ns, cs);
      }
      if SameMeaning(a, b, cs) {
        MatchedIsInside(ms, MeanMembers(ns, cs), cs);
        MatchedIsInside(ns, MeanMembers(ms, cs), cs);
      }
    case _ =>
  }

  lemma {:induction false} ElemsSameMeaning(es: Elems, fs: Elems, cs: bool)
    requires IntegralElems(es) && IntegralElems(fs)
    ensures CompareElems(es, fs, cs) <==>
      MeanElems(es, cs) == MeanElems(fs, cs) && ConsistentElems(es, cs) && ConsistentElems(fs, cs)
    decreases SizeElems(es) + SizeElems(fs), 1
  {
    if es.Elem? && fs.Elem? {
      CompareIsSameMeaning(es.head, fs.head, cs);
      ElemsSameMeaning(es.next, fs.next, cs);
      var s, t := MeanElems(es, cs), MeanElems(fs, cs);
      assert s[0] == Mean(es.head, cs) && s[1..] == MeanElems(es.next, cs);
      assert t[0] == Mean(fs.head, cs) && t[1..] == MeanElems(fs.next, cs);
    }
  }

  /** Every member is consistent and means what `others` has for its key. */
  predicate Matched(ms: Members, others: map<Text, Meaning>, cs: bool) {
    ms.NoMember? ||
    (var key := Fold(ms.key, cs);
     && Consistent(ms.value, cs) && key in others && others[key] == Mean(ms.value, cs)
     && Matched(ms.next, others, cs))
  }

  predicate ValuesConsistent(ms: Members, cs: bool) {
    ms.NoMember? || (Consistent(ms.value, cs) && ValuesConsistent(ms.next, cs))
  }

  lemma {:induction false} LookupMeans(ms: Members, key: Text, cs: bool)
    ensures var others := MeanMembers(ms, cs);
      match Lookup(ms, key, cs)
      case None => Fold(key, cs) !in others
      case Some(v) =>
        && Fold(key, cs) in others && others[Fold(key, cs)] == Mean(v, cs)
        && (ValuesConsistent(ms, cs) ==> Consistent(v, cs))
        && (IntegralMembers(ms) ==> Integral(v))
  {
    if ms.Member? {
      LookupMeans(ms.next, key, cs);
    }
  }

  lemma {:induction false} CoveredIsMatched(ms: Members, ns: Members, cs: bool)
    requires IntegralMembers(ms) && IntegralMembers(ns)
    ensures Covered(ms, ns, cs) ==> Matched(ms, MeanMembers(ns, cs), cs)
    ensures Matched(ms, MeanMembers(ns, cs), cs) && ValuesConsistent(ns, cs) ==> Covered(ms, ns, cs)
    decreases SizeMembers(ms) + SizeMembers(ns), 1
  {
    if ms.Member? {
      LookupMeans(ns, ms.key, cs);
      match Lookup(ns, ms.key, cs) {
        case None =>
        case Some(v) => CompareIsSameMeaning(ms.value, v, cs);
      }
      CoveredIsMatched(ms.next, ns, cs);
    }
  }

  /** `inner` says nothing that `outer` does not. */
  predicate Inside(inner: map<Text, Meaning>, outer: map<Text, Meaning>) {
    forall k :: k in inner ==> k in outer && outer[k] == inner[k]
  }

  lemma {:induction false} MatchedIsInside(ms: Members, others: map<Text, Meaning>, cs: bool)
    ensures Matched(ms, others, cs) <==> ConsistentMembers(ms, cs) && Inside(MeanMembers(ms, cs), others)
    ensures ConsistentMembers(ms, cs) ==> ValuesConsistent(ms, cs)
  {
    if ms.Member? {
      MatchedIsInside(ms.next, others, cs);
      var key, rest := Fold(ms.key, cs), MeanMembers(ms.next, cs);
      var whole := rest[key := Mean(ms.value, cs)];
      assert key in whole;
      if Inside(whole, others) && ConsistentMembers(ms, cs) {
        assert forall k :: k in rest ==> k in whole && whole[k] == rest[k];
      }
    }
  }

  // ----- consequences -----

  /** Every key occurs once. */
  predicate UniqueKeys(j: Json, cs: bool) {
    match j
    case Array(es) => UniqueElems(es, cs)
    case Object(ms) => UniqueMembers(ms, cs)
    case _ => true
  }

  predicate UniqueElems(es: Elems, cs: bool) {
    es.NoElem? || (UniqueKeys(es.head, cs) && UniqueElems(es.next, cs))
  }

  predicate UniqueMembers(ms: Members, cs: bool) {
    ms.NoMember? ||
    (UniqueKeys(ms.value, cs) && Lookup(ms.next, ms.key, cs) == None && UniqueMembers(ms.next, cs))
  }

  lemma {:induction false} UniqueIsConsistent(j: Json, cs: bool)
    requires UniqueKeys(j, cs)
    ensures Consistent(j, cs)
  {
    match j
    case Array(es) => UniqueElemsConsistent(es, cs);
    case Object(ms) => UniqueMembersConsistent(ms, cs);
    case _ =>
  }

  lemma {:induction false} UniqueElemsConsistent(es: Elems, cs: bool)
    requires UniqueElems(es, cs)
    ensures ConsistentElems(es, cs)
  {
    if es.Elem? {
      UniqueIsConsistent(es.head, cs);
      UniqueElemsConsistent(es.next, cs);
    }
  }

  lemma {:induction false} UniqueMembersConsistent(ms: Members, cs: bool)
    requires UniqueMembers(ms, cs)
    ensures ConsistentMembers(ms, cs)
  {
    if ms.Member? {
      UniqueIsConsistent(ms.value, cs);
      UniqueMembersConsistent(ms.next, cs);
      LookupMeans(ms.next, ms.key, cs);
    }
  }

  /** On trees with unique keys, comparing is equality up to member order. */
  lemma CompareUnique(a: Json, b: Json, cs: bool)
    requires Integral(a) && Integral(b) && UniqueKeys(a, cs) && UniqueKeys(b, cs)
    ensures Compare(a, b, cs) <==> Mean(a, cs) == Mean(b, cs)
  {
    CompareIsSameMeaning(a, b, cs);
    UniqueIsConsistent(a, cs);
    UniqueIsConsistent(b, cs);
  }

  /** A copy is accepted exactly when no key is repeated with a different meaning. */
  lemma CopyAccepted(j: Json, cs: bool)
    requires Integral(j)
    ensures Compare(j, j, cs) <==> Consistent(j, cs)
    ensures UniqueKeys(j, cs) ==> Compare(j, j, cs)
  {
    CompareIsSameMeaning(j, j, cs);
    if UniqueKeys(j, cs) {
      UniqueIsConsistent(j, cs);
    }
  }

  /** Comparing is symmetric and transitive on integer trees. */
  lemma CompareIsPartialEquivalence(a: Json, b: Json, c: Json, cs: bool)
    requires Integral(a) && Integral(b) && Integral(c)
    ensures Compare(a, b, cs) <==> Compare(b, a, cs)
    ensures Compare(a, b, cs) && Compare(b, c, cs) ==> Compare(a, c, cs)
  {
    CompareIsSameMeaning(a, b, cs);
    CompareIsSameMeaning(b, a, cs);
    CompareIsSameMeaning(b, c, cs);
    CompareIsSameMeaning(a, c, cs);
  }

  /** A repeated key with two values: the tree is not equal to its own copy. */
  lemma RepeatedKeyRejected()
    ensures var j := Object(Member([97], Null, Member([97], True, NoMember)));
      !Compare(j, j, true)
  {
    var j := Object(Member([97], Null, Member([97], True, NoMember)));
    var rest := Member([97], True, NoMember);
    assert Lookup(j.members, [97], true) == Some(Null);
    assert !Covered(rest, j.members, true);
  }

  /** Off the integers the tolerance makes comparing intransitive. */
  lemma ToleranceIsNotTransitive()
    ensures var a, b, c := Number(1.0), Number(1.0 + EPSILON), Number(1.0 + EPSILON + EPSILON);
      Compare(a, b, true) && Compare(b, c, true) && !Compare(a, c, true)
  {
  }
}
