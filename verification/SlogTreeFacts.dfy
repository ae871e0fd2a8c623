/** Properties of the emitted tree: nothing is lost, nothing is duplicated, and
    an exact account of when groups nest as documented. */
module SlogTreeFacts {
  import opened SlogTree

  /** Every attribute retained by the calls, in call order. */
  function AllAttrs(calls: seq<Call>): seq<KeyValue> {
    if calls == [] then []
    else (match calls[0] case WithAttrs(attrs) => RetainAll(attrs) case WithGroup(_) => []) + AllAttrs(calls[1..])
  }

  // ------------------------------------------------------------- conservation

  function LeavesOf(kv: KeyValue): seq<KeyValue>
    decreases kv, 1
  {
    match kv.value
    case OMap(kvs) => Leaves(kvs)
    case _ => [kv]
  }

  /** The non-group entries of a tree, from left to right. */
  function Leaves(kvs: seq<KeyValue>): seq<KeyValue>
    decreases kvs, 0
  {
    if kvs == [] then [] else LeavesOf(kvs[0]) + Leaves(kvs[1..])
  }

  lemma {:induction false} LeavesConcat(a: seq<KeyValue>, b: seq<KeyValue>)
    ensures Leaves(a + b) == Leaves(a) + Leaves(b)
    decreases |a|
  {
    if a == [] {
      assert a + b == b;
    } else {
      LeavesConcat(a[1..], b);
      assert (a + b)[1..] == a[1..] + b;
    }
  }

  lemma LeavesOfGroup(name: string, kvs: seq<KeyValue>)
    ensures Leaves([KeyValue(name, OMap(kvs))]) == Leaves(kvs)
  {
    var one := [KeyValue(name, OMap(kvs))];
    assert one[1..] == [] && Leaves(one) == LeavesOf(one[0]) + Leaves(one[1..]);
    assert Leaves(kvs) + [] == Leaves(kvs);
  }

  /** Conservation: whatever groups are kept or dropped, the leaves emitted are
      those of the WithAttrs attributes in call order, then of the record. */
  lemma {:induction false} LeavesConserved(calls: seq<Call>, r: seq<KeyValue>, hasAttrs: bool)
    ensures Leaves(Tree(calls, r, hasAttrs)) == Leaves(AllAttrs(calls) + r)
    decreases |calls|
  {
    if calls == [] {
      assert AllAttrs(calls) + r == r;
    } else {
      var inner, rest := Tree(calls[1..], r, hasAttrs), AllAttrs(calls[1..]);
      LeavesConserved(calls[1..], r, hasAttrs);
      match calls[0]
      case WithAttrs(attrs) =>
        LeavesConcat(RetainAll(attrs), inner);
        LeavesConcat(RetainAll(attrs), rest + r);
        assert AllAttrs(calls) + r == RetainAll(attrs) + (rest + r);
      case WithGroup(name) =>
        LeavesOfGroup(name, inner);
        assert AllAttrs(calls) + r == rest + r;
    }
  }

  // ---------------------------------------------------------------- two counts

  function EmptyMapsOf(kv: KeyValue): nat
    decreases kv, 1
  {
    match kv.value
    case OMap(kvs) => if kvs == [] then 1 else EmptyMaps(kvs)
    case _ => 0
  }

  /** The number of groups with nothing in them. */
  function EmptyMaps(kvs: seq<KeyValue>): nat
    decreases kvs, 0
  {
    if kvs == [] then 0 else EmptyMapsOf(kvs[0]) + EmptyMaps(kvs[1..])
  }

  function SizeOf(kv: KeyValue): nat
    decreases kv, 1
  {
    match kv.value
    case OMap(kvs) => 1 + Size(kvs)
    case _ => 1
  }

  function Size(kvs: seq<KeyValue>): nat
    decreases kvs, 0
  {
    if kvs == [] then 0 else SizeOf(kvs[0]) + Size(kvs[1..])
  }

  lemma {:induction false} CountsConcat(a: seq<KeyValue>, b: seq<KeyValue>)
    ensures EmptyMaps(a + b) == EmptyMaps(a) + EmptyMaps(b)
    ensures Size(a + b) == Size(a) + Size(b)
    decreases |a|
  {
    if a == [] {
      assert a + b == b;
    } else {
      CountsConcat(a[1..], b);
      assert (a + b)[1..] == a[1..] + b;
    }
  }

  lemma CountsOfGroup(name: string, kvs: seq<KeyValue>)
    ensures EmptyMaps([KeyValue(name, OMap(kvs))]) == if kvs == [] then 1 else EmptyMaps(kvs)
    ensures Size([KeyValue(name, OMap(kvs))]) == 1 + Size(kvs)
  {
    var one := [KeyValue(name, OMap(kvs))];
    assert one[1..] == [];
  }

  /** The record had attributes, all of them were discarded, and the innermost
      group has none of its own: the code emits that group with nothing in it. */
  predicate EmptyHead(calls: seq<Call>, r: seq<KeyValue>, hasAttrs: bool) {
    calls != [] &&
    if calls[0].WithGroup? && !HasGroup(calls[1..]) then hasAttrs && r == [] && Own(calls[1..]) == []
    else EmptyHead(calls[1..], r, hasAttrs)
  }

  lemma {:induction false} WithoutGroups(calls: seq<Call>, r: seq<KeyValue>, hasAttrs: bool)
    requires !HasGroup(calls)
    ensures Tree(calls, r, hasAttrs) == Documented(calls, r) == Own(calls) + r
    ensures AllAttrs(calls) == Own(calls) && !EmptyHead(calls, r, hasAttrs) && Faithful(calls, r, hasAttrs)
    decreases |calls|
  {
    if calls != [] {
      HasGroupCons(calls);
      WithoutGroups(calls[1..], r, hasAttrs);
    }
  }

  lemma AttrsFirst(calls: seq<Call>, r: seq<KeyValue>)
    requires calls != []
    ensures AllAttrs(calls) + r ==
            if calls[0].WithAttrs? then RetainAll(calls[0].attrs) + (AllAttrs(calls[1..]) + r)
            else AllAttrs(calls[1..]) + r
  {
    if calls[0].WithAttrs? {
      assert AllAttrs(calls) + r == RetainAll(calls[0].attrs) + (AllAttrs(calls[1..]) + r);
    }
  }

  /** Attributes added outside any further group are emitted. */
  lemma {:induction false} OwnEmitted(calls: seq<Call>, r: seq<KeyValue>, hasAttrs: bool)
    requires Own(calls) != []
    ensures Tree(calls, r, hasAttrs) != []
    decreases |calls|
  {
    if calls[0].WithAttrs? && RetainAll(calls[0].attrs) == [] {
      OwnEmitted(calls[1..], r, hasAttrs);
    }
  }

  lemma {:induction false} EmptyMapsTree(calls: seq<Call>, r: seq<KeyValue>, hasAttrs: bool)
    requires hasAttrs || r == []
    ensures EmptyMaps(Tree(calls, r, hasAttrs)) ==
            EmptyMaps(AllAttrs(calls) + r) + if EmptyHead(calls, r, hasAttrs) then 1 else 0
    decreases |calls|
  {
    if calls == [] {
      assert AllAttrs(calls) + r == r;
    } else {
      var inner := Tree(calls[1..], r, hasAttrs);
      EmptyMapsTree(calls[1..], r, hasAttrs);
      AttrsFirst(calls, r);
      match calls[0]
      case WithAttrs(attrs) =>
        CountsConcat(RetainAll(attrs), inner);
        CountsConcat(RetainAll(attrs), AllAttrs(calls[1..]) + r);
      case WithGroup(name) =>
        CountsOfGroup(name, inner);
        if Own(calls[1..]) != [] {
          OwnEmitted(calls[1..], r, hasAttrs);
        }
        if !HasGroup(calls[1..]) {
          WithoutGroups(calls[1..], r, hasAttrs);
        }
    }
  }

  lemma {:induction false} DocumentedEmpty(calls: seq<Call>, r: seq<KeyValue>)
    ensures Documented(calls, r) == [] <==> AllAttrs(calls) + r == []
    decreases |calls|
  {
    if calls == [] {
      assert AllAttrs(calls) + r == r;
    } else {
      DocumentedEmpty(calls[1..], r);
      AttrsFirst(calls, r);
    }
  }

  /** The documented tree adds no empty group, and is empty only if there is
      nothing to show. */
  lemma {:induction false} DocumentedCounts(calls: seq<Call>, r: seq<KeyValue>)
    ensures EmptyMaps(Documented(calls, r)) == EmptyMaps(AllAttrs(calls) + r)
    ensures Documented(calls, r) == [] <==> AllAttrs(calls) + r == []
    decreases |calls|
  {
    DocumentedEmpty(calls, r);
    if calls == [] {
      assert AllAttrs(calls) + r == r;
    } else {
      var inner := Documented(calls[1..], r);
      DocumentedCounts(calls[1..], r);
      AttrsFirst(calls, r);
      match calls[0]
      case WithAttrs(attrs) =>
        CountsConcat(RetainAll(attrs), inner);
        CountsConcat(RetainAll(attrs), AllAttrs(calls[1..]) + r);
      case WithGroup(name) =>
        CountsOfGroup(name, inner);
    }
  }

  /** Dropping groups only makes the tree smaller. */
  lemma {:induction false} TreeSmaller(calls: seq<Call>, r: seq<KeyValue>, hasAttrs: bool)
    requires (hasAttrs || r == []) && !EmptyHead(calls, r, hasAttrs)
    ensures Size(Tree(calls, r, hasAttrs)) <= Size(Documented(calls, r))
    decreases |calls|
  {
    if calls != [] {
      var inner, doc := Tree(calls[1..], r, hasAttrs), Documented(calls[1..], r);
      if !HasGroup(calls[1..]) {
        WithoutGroups(calls[1..], r, hasAttrs);
      }
      TreeSmaller(calls[1..], r, hasAttrs);
      match calls[0]
      case WithAttrs(attrs) =>
        CountsConcat(RetainAll(attrs), inner);
        CountsConcat(RetainAll(attrs), doc);
      case WithGroup(name) =>
        CountsOfGroup(name, inner);
        CountsOfGroup(name, doc);
        DocumentedCounts(calls[1..], r);
        if Own(calls[1..]) != [] {
          OwnIsContent(calls[1..], r);
        }
    }
  }

  lemma {:induction false} OwnIsContent(calls: seq<Call>, r: seq<KeyValue>)
    requires Own(calls) != []
    ensures AllAttrs(calls) + r != []
    decreases |calls|
  {
    if calls != [] && calls[0].WithAttrs? && RetainAll(calls[0].attrs) == [] {
      OwnIsContent(calls[1..], r);
    }
  }

  // ------------------------------------------------- as documented, exactly when

  /** Every group has attributes of its own, or has nothing in it at all, or is
      the innermost one and the record does not leave it empty. */
  predicate Faithful(calls: seq<Call>, r: seq<KeyValue>, hasAttrs: bool) {
    calls != [] ==>
      && Faithful(calls[1..], r, hasAttrs)
      && (calls[0].WithGroup? && Own(calls[1..]) == [] ==>
            if HasGroup(calls[1..]) then AllAttrs(calls[1..]) + r == [] else hasAttrs ==> r != [])
  }

  /** A group dropped around something to show is never what is documented. */
  lemma DroppedGroup(calls: seq<Call>, name: string, r: seq<KeyValue>, hasAttrs: bool)
    requires (hasAttrs || r == []) && AllAttrs(calls) + r != []
    ensures Tree(calls, r, hasAttrs) != [KeyValue(name, OMap(Documented(calls, r)))]
  {
    var doc := Documented(calls, r);
    CountsOfGroup(name, doc);
    DocumentedCounts(calls, r);
    if EmptyHead(calls, r, hasAttrs) {
      EmptyMapsTree(calls, r, hasAttrs);
    } else {
      TreeSmaller(calls, r, hasAttrs);
    }
  }

  lemma FaithfulGroup(calls: seq<Call>, r: seq<KeyValue>, hasAttrs: bool)
    requires calls != [] && calls[0].WithGroup? && (hasAttrs || r == [])
    requires Tree(calls[1..], r, hasAttrs) == Documented(calls[1..], r) <==> Faithful(calls[1..], r, hasAttrs)
    ensures Tree(calls, r, hasAttrs) == Documented(calls, r) <==> Faithful(calls, r, hasAttrs)
  {
    var rest, name := calls[1..], calls[0].name;
    DocumentedCounts(rest, r);
    if Own(rest) != [] {
      OwnIsContent(rest, r);
    } else if !HasGroup(rest) {
      WithoutGroups(rest, r, hasAttrs);
    } else if AllAttrs(rest) + r != [] {
      DroppedGroup(rest, name, r, hasAttrs);
    }
  }

  /** The emitted tree is the documented one exactly when the call history is
      faithful: a condition on the calls alone. */
  lemma {:induction false} DocumentedExact(calls: seq<Call>, r: seq<KeyValue>, hasAttrs: bool)
    requires hasAttrs || r == []
    ensures Tree(calls, r, hasAttrs) == Documented(calls, r) <==> Faithful(calls, r, hasAttrs)
    decreases |calls|
  {
    if calls != [] {
      DocumentedExact(calls[1..], r, hasAttrs);
      if calls[0].WithGroup? {
        FaithfulGroup(calls, r, hasAttrs);
      } else {
        SamePrefix(RetainAll(calls[0].attrs), Tree(calls[1..], r, hasAttrs), Documented(calls[1..], r));
      }
    }
  }

  lemma SamePrefix(p: seq<KeyValue>, a: seq<KeyValue>, b: seq<KeyValue>)
    ensures p + a == p + b <==> a == b
  {
    assert (p + a)[|p|..] == a && (p + b)[|p|..] == b;
  }

  /** WithGroup("G").WithGroup("H").Info("m", "k", 1) emits H at the top level:
      G, which the documentation draws around it, is gone. */
  lemma OuterGroupLost()
    ensures var calls := [WithGroup("G"), WithGroup("H")];
            var r := RetainAll([Attr("k", Leaf(1))]);
            && Tree(calls, r, true) == [KeyValue("H", OMap([KeyValue("k", OLeaf(1))]))]
            && Documented(calls, r) == [KeyValue("G", OMap([KeyValue("H", OMap([KeyValue("k", OLeaf(1))]))]))]
  {
    var none: seq<Call>, h, calls := [], [WithGroup("H")], [WithGroup("G"), WithGroup("H")];
    var r := RetainAll([Attr("k", Leaf(1))]);
    assert r == [KeyValue("k", OLeaf(1))] by {
      assert [Attr("k", Leaf(1))][1..] == [];
    }
    assert calls[1..] == h && h[1..] == none;
    assert h[0].WithGroup? && HasGroup(h) && !HasGroup(none);
    assert Tree(h, r, true) == [KeyValue("H", OMap(r))] == Documented(h, r);
  }
}
