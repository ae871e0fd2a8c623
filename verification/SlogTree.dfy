/** What otelslog/handler.go emits for a handler built by WithAttrs and WithGroup
    calls: the attributes it retains, the tree it nests them into, and when that
    tree is the one its documentation draws. */
module SlogTree {

  /** slog values. A Leaf is any non-group value but the nil Any. */
  datatype Value = Leaf(id: int) | NilAny | Group(attrs: seq<Attr>)
  datatype Attr = Attr(key: string, value: Value)

  /** OpenTelemetry log values. */
  datatype OValue = OLeaf(id: int) | OEmpty | OMap(kvs: seq<KeyValue>)
  datatype KeyValue = KeyValue(key: string, value: OValue)

  /** The calls that made a handler, oldest first. */
  datatype Call = WithAttrs(attrs: seq<Attr>) | WithGroup(name: string)

  function Convert(v: Value): OValue
    decreases v, 1
  {
    match v
    case Leaf(id) => OLeaf(id)
    case NilAny => OEmpty
    case Group(attrs) => OMap(RetainAll(attrs))
  }

  /** The attributes of a group without a key, inlined. */
  function Inline(attrs: seq<Attr>): (kvs: seq<KeyValue>)
    ensures |kvs| == |attrs|
    decreases attrs, 0
  {
    if attrs == [] then []
    else [KeyValue(attrs[0].key, Convert(attrs[0].value))] + Inline(attrs[1..])
  }

  /** What AddAttr appends: an empty attribute is dropped and a group without a
      key is inlined. */
  function Retain(a: Attr): seq<KeyValue>
    decreases a, 2
  {
    if a.key == "" && a.value.Group? then Inline(a.value.attrs)
    else if a.key == "" && a.value.NilAny? then []
    else [KeyValue(a.key, Convert(a.value))]
  }

  function RetainAll(attrs: seq<Attr>): seq<KeyValue>
    decreases attrs, 0
  {
    if attrs == [] then [] else Retain(attrs[0]) + RetainAll(attrs[1..])
  }

  // -------------------------------------------- the handler's own data, as values

  datatype GroupView = GroupView(name: string, attrs: seq<KeyValue>)

  /** Top-level attributes, and the groups from the innermost outwards. */
  datatype View = View(top: seq<KeyValue>, groups: seq<GroupView>)

  const EMPTY_VIEW := View([], [])

  function AddAttrs(v: View, attrs: seq<Attr>): View {
    if v.groups == [] then v.(top := v.top + RetainAll(attrs))
    else v.(groups := v.groups[0 := v.groups[0].(attrs := v.groups[0].attrs + RetainAll(attrs))])
  }

  function AddGroup(v: View, name: string): View {
    v.(groups := [GroupView(name, [])] + v.groups)
  }

  function AddCall(v: View, c: Call): View {
    match c
    case WithAttrs(attrs) => AddAttrs(v, attrs)
    case WithGroup(name) => AddGroup(v, name)
  }

  function ViewFrom(v: View, calls: seq<Call>): View
    decreases |calls|
  {
    if calls == [] then v else ViewFrom(AddCall(v, calls[0]), calls[1..])
  }

  lemma {:induction false} ViewFromSnoc(v: View, calls: seq<Call>, c: Call)
    ensures ViewFrom(v, calls + [c]) == AddCall(ViewFrom(v, calls), c)
    decreases |calls|
  {
    if calls == [] {
      assert (calls + [c])[1..] == [];
    } else {
      ViewFromSnoc(AddCall(v, calls[0]), calls[1..], c);
      assert (calls + [c])[1..] == calls[1..] + [c];
    }
  }

  /** The loop of group.KeyValue: each enclosing group that has attributes wraps
      what has been built so far. */
  function Enclose(groups: seq<GroupView>, body: seq<KeyValue>): seq<KeyValue> {
    if groups == [] then body
    else if groups[0].attrs == [] then Enclose(groups[1..], body)
    else Enclose(groups[1..], [KeyValue(groups[0].name, OMap(groups[0].attrs + body))])
  }

  /** The record attributes of convertRecord, without the optional source location:
      r are the retained attributes of a record that had some iff hasAttrs. */
  function Emit(v: View, r: seq<KeyValue>, hasAttrs: bool): seq<KeyValue> {
    v.top + EmitGroups(v.groups, r, hasAttrs)
  }

  function EmitGroups(groups: seq<GroupView>, r: seq<KeyValue>, hasAttrs: bool): seq<KeyValue> {
    if groups == [] then r
    else if hasAttrs then Enclose(groups[1..], [KeyValue(groups[0].name, OMap(groups[0].attrs + r))])
    else Enclose(groups, [])
  }

  // --------------------------------------------------------- the emitted tree

  predicate HasGroup(calls: seq<Call>) {
    exists i | 0 <= i < |calls| :: calls[i].WithGroup?
  }

  /** The attributes added before the next group is opened. */
  function Own(calls: seq<Call>): seq<KeyValue> {
    if calls == [] || calls[0].WithGroup? then [] else RetainAll(calls[0].attrs) + Own(calls[1..])
  }

  /** Whether a group followed by these calls is kept: it has attributes of its
      own, or it is the innermost one and the record has attributes. */
  predicate Kept(calls: seq<Call>, hasAttrs: bool) {
    Own(calls) != [] || (hasAttrs && !HasGroup(calls))
  }

  /** The tree read off the calls from the outside in; the contents of a group
      that is not kept move up into the group around it. */
  function Tree(calls: seq<Call>, r: seq<KeyValue>, hasAttrs: bool): seq<KeyValue>
    decreases |calls|
  {
    if calls == [] then r
    else
      var inner := Tree(calls[1..], r, hasAttrs);
      match calls[0]
      case WithAttrs(attrs) => RetainAll(attrs) + inner
      case WithGroup(name) => if Kept(calls[1..], hasAttrs) then [KeyValue(name, OMap(inner))] else inner
  }

  /** The tree the documentation draws: every group nests, and only a group with
      nothing in it is left out. */
  function Documented(calls: seq<Call>, r: seq<KeyValue>): seq<KeyValue>
    decreases |calls|
  {
    if calls == [] then r
    else
      var inner := Documented(calls[1..], r);
      match calls[0]
      case WithAttrs(attrs) => RetainAll(attrs) + inner
      case WithGroup(name) => if inner == [] then [] else [KeyValue(name, OMap(inner))]
  }

  lemma HasGroupCons(calls: seq<Call>)
    requires calls != []
    ensures HasGroup(calls) <==> calls[0].WithGroup? || HasGroup(calls[1..])
  {
    if HasGroup(calls) && !calls[0].WithGroup? {
      var i :| 0 <= i < |calls| && calls[i].WithGroup?;
      assert calls[1..][i - 1].WithGroup?;
    }
    if HasGroup(calls[1..]) {
      var i :| 0 <= i < |calls[1..]| && calls[1..][i].WithGroup?;
      assert calls[i + 1].WithGroup?;
    }
  }

  /** What is emitted after more calls on a handler that may already be inside
      groups: the tree of those calls, put into the innermost group. */
  function Placed(v: View, calls: seq<Call>, r: seq<KeyValue>, hasAttrs: bool): seq<KeyValue> {
    var tree := Tree(calls, r, hasAttrs);
    if v.groups == [] then v.top + tree
    else v.top + PlacedIn(v.groups[0], v.groups[1..], Own(calls), tree, hasAttrs && !HasGroup(calls))
  }

  function PlacedIn(g: GroupView, outer: seq<GroupView>, own: seq<KeyValue>, tree: seq<KeyValue>, head: bool): seq<KeyValue> {
    Enclose(outer, if g.attrs + own != [] || head then [KeyValue(g.name, OMap(g.attrs + tree))] else tree)
  }

  lemma PlacedAttrs(v: View, calls: seq<Call>, r: seq<KeyValue>, hasAttrs: bool)
    requires calls != [] && calls[0].WithAttrs?
    ensures Placed(AddCall(v, calls[0]), calls[1..], r, hasAttrs) == Placed(v, calls, r, hasAttrs)
  {
    var added, inner := RetainAll(calls[0].attrs), Tree(calls[1..], r, hasAttrs);
    var w := AddCall(v, calls[0]);
    HasGroupCons(calls);
    if v.groups == [] {
      assert v.top + added + inner == v.top + (added + inner);
    } else {
      var g, h := v.groups[0], w.groups[0];
      assert w.groups[1..] == v.groups[1..];
      assert h.attrs + inner == g.attrs + (added + inner);
      assert h.attrs + Own(calls[1..]) == g.attrs + Own(calls);
      if g.attrs + Own(calls) == [] {
        assert added == [];
        assert added + inner == inner;
      }
    }
  }

  lemma PlacedGroup(v: View, calls: seq<Call>, r: seq<KeyValue>, hasAttrs: bool)
    requires calls != [] && calls[0].WithGroup?
    ensures Placed(AddCall(v, calls[0]), calls[1..], r, hasAttrs) == Placed(v, calls, r, hasAttrs)
  {
    var rest := calls[1..];
    var w, inner, tree := AddCall(v, calls[0]), Tree(rest, r, hasAttrs), Tree(calls, r, hasAttrs);
    HasGroupCons(calls);
    assert w.groups[0] == GroupView(calls[0].name, []) && w.groups[1..] == v.groups;
    assert [] + inner == inner && [] + Own(rest) == Own(rest);
    assert PlacedIn(w.groups[0], v.groups, Own(rest), inner, hasAttrs && !HasGroup(rest)) == Enclose(v.groups, tree);
    if v.groups != [] {
      assert v.groups[0].attrs + [] == v.groups[0].attrs;
    }
  }

  lemma {:induction false} EmitFrom(v: View, calls: seq<Call>, r: seq<KeyValue>, hasAttrs: bool)
    requires hasAttrs || r == []
    ensures Emit(ViewFrom(v, calls), r, hasAttrs) == Placed(v, calls, r, hasAttrs)
    decreases |calls|
  {
    if calls == [] {
      if v.groups != [] {
        assert v.groups[0].attrs + [] == v.groups[0].attrs;
      }
    } else {
      EmitFrom(AddCall(v, calls[0]), calls[1..], r, hasAttrs);
      if calls[0].WithAttrs? {
        PlacedAttrs(v, calls, r, hasAttrs);
      } else {
        PlacedGroup(v, calls, r, hasAttrs);
      }
    }
  }

  /** The refinement: a handler emits the tree of its call history. */
  lemma EmitIsTree(calls: seq<Call>, record: seq<Attr>)
    ensures Emit(ViewFrom(EMPTY_VIEW, calls), RetainAll(record), record != []) ==
            Tree(calls, RetainAll(record), record != [])
  {
    EmitFrom(EMPTY_VIEW, calls, RetainAll(record), record != []);
    assert [] + Tree(calls, RetainAll(record), record != []) == Tree(calls, RetainAll(record), record != []);
  }
}
