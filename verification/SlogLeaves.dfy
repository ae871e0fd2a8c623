/** Attributes and records as lists of leaves with their key paths: what AddAttr
    keeps of an attribute, and where the record of a handler shows it. */
module SlogLeaves {
  import opened SlogTree

  /** An entry that is not a group, or an empty group, under the keys that lead to it. */
  datatype PathLeaf = PathLeaf(path: seq<string>, value: OValue)

  // -------------------------------------------------------- leaves of attributes

  function ValueLeaves(v: Value, path: seq<string>): (ls: seq<PathLeaf>)
    ensures ls != []
    decreases v, 1
  {
    match v
    case Leaf(id) => [PathLeaf(path, OLeaf(id))]
    case NilAny => [PathLeaf(path, OEmpty)]
    case Group(attrs) =>
      if AttrsLeaves(attrs, path) == [] then [PathLeaf(path, OMap([]))] else AttrsLeaves(attrs, path)
  }

  /** The members of a group without a key: each under its own key, whatever it is. */
  function MembersLeaves(attrs: seq<Attr>, path: seq<string>): seq<PathLeaf>
    decreases attrs, 0
  {
    if attrs == [] then []
    else ValueLeaves(attrs[0].value, path + [attrs[0].key]) + MembersLeaves(attrs[1..], path)
  }

  /** An attribute: without a key, nothing is left of a nil value and a group adds no
      step to the path. */
  function AttrLeaves(a: Attr, path: seq<string>): seq<PathLeaf>
    decreases a, 2
  {
    if a.key != "" || a.value.Leaf? then ValueLeaves(a.value, path + [a.key])
    else if a.value.Group? then MembersLeaves(a.value.attrs, path)
    else []
  }

  function AttrsLeaves(attrs: seq<Attr>, path: seq<string>): seq<PathLeaf>
    decreases attrs, 0
  {
    if attrs == [] then [] else AttrLeaves(attrs[0], path) + AttrsLeaves(attrs[1..], path)
  }

  // ----------------------------------------------------------- leaves of a record

  function FlatOf(kv: KeyValue, path: seq<string>): (ls: seq<PathLeaf>)
    ensures ls != []
    decreases kv, 1
  {
    match kv.value
    case OMap(kvs) => if kvs == [] then [PathLeaf(path + [kv.key], OMap([]))] else Flat(kvs, path + [kv.key])
    case v => [PathLeaf(path + [kv.key], v)]
  }

  function Flat(kvs: seq<KeyValue>, path: seq<string>): (ls: seq<PathLeaf>)
    ensures ls == [] <==> kvs == []
    decreases kvs, 0
  {
    if kvs == [] then [] else FlatOf(kvs[0], path) + Flat(kvs[1..], path)
  }

  lemma {:induction false} FlatConcat(a: seq<KeyValue>, b: seq<KeyValue>, path: seq<string>)
    ensures Flat(a + b, path) == Flat(a, path) + Flat(b, path)
    decreases |a|
  {
    if a == [] {
      assert a + b == b;
    } else {
      FlatConcat(a[1..], b, path);
      assert (a + b)[1..] == a[1..] + b;
    }
  }

  lemma FlatOne(kv: KeyValue, path: seq<string>)
    ensures Flat([kv], path) == FlatOf(kv, path)
  {
    assert [kv][1..] == [];
  }

  // ------------------------------------------------------ retention keeps leaves

  lemma {:induction false} ConvertedLeaves(key: string, v: Value, path: seq<string>)
    ensures FlatOf(KeyValue(key, Convert(v)), path) == ValueLeaves(v, path + [key])
    decreases v, 1
  {
    if v.Group? {
      RetainedLeaves(v.attrs, path + [key]);
    }
  }

  lemma {:induction false} InlinedLeaves(attrs: seq<Attr>, path: seq<string>)
    ensures Flat(Inline(attrs), path) == MembersLeaves(attrs, path)
    decreases attrs, 0
  {
    if attrs != [] {
      ConvertedLeaves(attrs[0].key, attrs[0].value, path);
      InlinedLeaves(attrs[1..], path);
      assert Inline(attrs)[1..] == Inline(attrs[1..]);
    }
  }

  lemma {:induction false} RetainedOne(a: Attr, path: seq<string>)
    ensures Flat(Retain(a), path) == AttrLeaves(a, path)
    decreases a, 2
  {
    if a.key == "" && a.value.Group? {
      InlinedLeaves(a.value.attrs, path);
    } else if !(a.key == "" && a.value.NilAny?) {
      ConvertedLeaves(a.key, a.value, path);
      FlatOne(KeyValue(a.key, Convert(a.value)), path);
    }
  }

  /** What AddAttrs keeps is exactly the leaves of the attributes, in order. */
  lemma {:induction false} RetainedLeaves(attrs: seq<Attr>, path: seq<string>)
    ensures Flat(RetainAll(attrs), path) == AttrsLeaves(attrs, path)
    decreases attrs, 0
  {
    if attrs != [] {
      RetainedOne(attrs[0], path);
      RetainedLeaves(attrs[1..], path);
      FlatConcat(Retain(attrs[0]), RetainAll(attrs[1..]), path);
    }
  }

  // --------------------------------------------------------- leaves of a handler

  /** Some attribute added before the next group is opened leaves something. */
  predicate OwnShown(calls: seq<Call>) {
    calls != [] && calls[0].WithAttrs? && (AttrsLeaves(calls[0].attrs, []) != [] || OwnShown(calls[1..]))
  }

  /** The leaves of a record, read off the calls and the record's own attributes: each
      stands under the groups around it that have attributes of their own, or are the
      innermost one of a record with attributes. Such an innermost group in which
      nothing is left is shown empty. */
  function HandlerLeaves(calls: seq<Call>, record: seq<Attr>, path: seq<string>): seq<PathLeaf>
    decreases |calls|
  {
    if calls == [] then AttrsLeaves(record, path)
    else
      match calls[0]
      case WithAttrs(attrs) => AttrsLeaves(attrs, path) + HandlerLeaves(calls[1..], record, path)
      case WithGroup(name) =>
        if OwnShown(calls[1..]) || (record != [] && !HasGroup(calls[1..])) then
          var inner := HandlerLeaves(calls[1..], record, path + [name]);
          if inner == [] then [PathLeaf(path + [name], OMap([]))] else inner
        else HandlerLeaves(calls[1..], record, path)
  }

  lemma {:induction false} OwnShownExact(calls: seq<Call>)
    ensures OwnShown(calls) <==> Own(calls) != []
  {
    if calls != [] && calls[0].WithAttrs? {
      OwnShownExact(calls[1..]);
      RetainedLeaves(calls[0].attrs, []);
    }
  }

  /** The record shows exactly these leaves, in this order and under these paths. */
  lemma {:induction false} TreeLeaves(calls: seq<Call>, record: seq<Attr>, path: seq<string>)
    ensures Flat(Tree(calls, RetainAll(record), record != []), path) == HandlerLeaves(calls, record, path)
    decreases |calls|
  {
    var r, has := RetainAll(record), record != [];
    if calls == [] {
      RetainedLeaves(record, path);
    } else {
      var inner := Tree(calls[1..], r, has);
      match calls[0]
      case WithAttrs(attrs) =>
        TreeLeaves(calls[1..], record, path);
        RetainedLeaves(attrs, path);
        FlatConcat(RetainAll(attrs), inner, path);
      case WithGroup(name) =>
        OwnShownExact(calls[1..]);
        TreeLeaves(calls[1..], record, if Kept(calls[1..], has) then path + [name] else path);
        FlatOne(KeyValue(name, OMap(inner)), path);
    }
  }

  /** The attributes of all calls and of the record, one after the other. */
  function Attributes(calls: seq<Call>, record: seq<Attr>): seq<Attr> {
    if calls == [] then record
    else (if calls[0].WithAttrs? then calls[0].attrs else []) + Attributes(calls[1..], record)
  }

  /** Leaves without their paths, and without empty groups. */
  function Values(ls: seq<PathLeaf>): seq<OValue> {
    if ls == [] then [] else ValueOf(ls[0]) + Values(ls[1..])
  }

  function ValueOf(l: PathLeaf): seq<OValue> {
    if l.value.OMap? then [] else [l.value]
  }

  lemma ThreeParts(a: seq<OValue>, b: seq<OValue>, c: seq<OValue>)
    ensures a + (b + c) == (a + b) + c
  {
  }

  lemma {:induction false} ValuesConcat(a: seq<PathLeaf>, b: seq<PathLeaf>)
    ensures Values(a + b) == Values(a) + Values(b)
  {
    if a == [] {
      assert a + b == b;
    } else {
      ValuesConcat(a[1..], b);
      assert (a + b)[0] == a[0] && (a + b)[1..] == a[1..] + b;
      ThreeParts(ValueOf(a[0]), Values(a[1..]), Values(b));
    }
  }

  lemma {:induction false} AttrsLeavesConcat(a: seq<Attr>, b: seq<Attr>, path: seq<string>)
    ensures AttrsLeaves(a + b, path) == AttrsLeaves(a, path) + AttrsLeaves(b, path)
  {
    if a == [] {
      assert a + b == b;
    } else {
      AttrsLeavesConcat(a[1..], b, path);
      assert (a + b)[0] == a[0] && (a + b)[1..] == a[1..] + b;
      ThreeLists(AttrLeaves(a[0], path), AttrsLeaves(a[1..], path), AttrsLeaves(b, path));
    }
  }

  lemma ThreeLists(a: seq<PathLeaf>, b: seq<PathLeaf>, c: seq<PathLeaf>)
    ensures a + (b + c) == (a + b) + c
  {
  }

  lemma {:induction false} ValuesOfMember(v: Value, p: seq<string>, q: seq<string>)
    ensures Values(ValueLeaves(v, p)) == Values(ValueLeaves(v, q))
    decreases v, 1
  {
    match v
    case Leaf(id) =>
    case NilAny =>
    case Group(attrs) => ValuesOfAttrs(attrs, p, q);
  }

  lemma {:induction false} ValuesOfMembers(attrs: seq<Attr>, p: seq<string>, q: seq<string>)
    ensures Values(MembersLeaves(attrs, p)) == Values(MembersLeaves(attrs, q))
    decreases attrs, 0
  {
    if attrs != [] {
      var a := attrs[0];
      ValuesOfMember(a.value, p + [a.key], q + [a.key]);
      ValuesOfMembers(attrs[1..], p, q);
      ValuesConcat(ValueLeaves(a.value, p + [a.key]), MembersLeaves(attrs[1..], p));
      ValuesConcat(ValueLeaves(a.value, q + [a.key]), MembersLeaves(attrs[1..], q));
    }
  }

  lemma {:induction false} ValuesOfAttr(a: Attr, p: seq<string>, q: seq<string>)
    ensures Values(AttrLeaves(a, p)) == Values(AttrLeaves(a, q))
    ensures AttrLeaves(a, p) == [] <==> AttrLeaves(a, q) == []
    decreases a, 2
  {
    ValuesOfMember(a.value, p + [a.key], q + [a.key]);
    if a.value.Group? {
      ValuesOfMembers(a.value.attrs, p, q);
    }
  }

  /** Where attributes stand does not change what they hold. */
  lemma {:induction false} ValuesOfAttrs(attrs: seq<Attr>, p: seq<string>, q: seq<string>)
    ensures Values(AttrsLeaves(attrs, p)) == Values(AttrsLeaves(attrs, q))
    ensures AttrsLeaves(attrs, p) == [] <==> AttrsLeaves(attrs, q) == []
    decreases attrs, 0
  {
    if attrs != [] {
      ValuesOfAttr(attrs[0], p, q);
      ValuesOfAttrs(attrs[1..], p, q);
      ValuesConcat(AttrLeaves(attrs[0], p), AttrsLeaves(attrs[1..], p));
      ValuesConcat(AttrLeaves(attrs[0], q), AttrsLeaves(attrs[1..], q));
    }
  }

  /** Conservation from the attributes given to the calls and the record: their values
      come out once each, in call order, whatever groups they were put into. */
  lemma {:induction false} ValuesConserved(calls: seq<Call>, record: seq<Attr>, path: seq<string>)
    ensures Values(HandlerLeaves(calls, record, path)) == Values(AttrsLeaves(Attributes(calls, record), []))
    decreases |calls|
  {
    if calls == [] {
      ValuesOfAttrs(record, path, []);
    } else {
      match calls[0]
      case WithAttrs(attrs) =>
        ValuesConserved(calls[1..], record, path);
        ValuesOfAttrs(attrs, path, []);
        ValuesConcat(AttrsLeaves(attrs, path), HandlerLeaves(calls[1..], record, path));
        AttrsLeavesConcat(attrs, Attributes(calls[1..], record), []);
        ValuesConcat(AttrsLeaves(attrs, []), AttrsLeaves(Attributes(calls[1..], record), []));
      case WithGroup(name) =>
        ValuesConserved(calls[1..], record, path);
        ValuesConserved(calls[1..], record, path + [name]);
        assert [] + Attributes(calls[1..], record) == Attributes(calls[1..], record);
    }
  }
}
