/** Handlers of otelslog/handler.go and growing families of them: the handlers
    that WithAttrs and WithGroup derive share buffers and groups, yet each keeps
    emitting exactly the tree of its own call history. */
module OtelFamily {
  import opened SlogTree
  import opened SlogLeaves
  import opened OtelHandler

  class Handler {
    const attrs: KvBuffer?
    const group: Group?
    const source: bool
    ghost const chain: seq<Group>

    constructor (attrs: KvBuffer?, group: Group?, source: bool, ghost chain: seq<Group>)
      ensures this.attrs == attrs && this.group == group && this.source == source && this.chain == chain
    {
      this.attrs, this.group, this.source, this.chain := attrs, group, source, chain;
    }

    /** The buffers a handler can reach. */
    ghost function Reach(): set<KvBuffer>
      reads chain
    {
      Buffered(chain) + if attrs == null then {} else {attrs}
    }

    ghost predicate Valid(bufs: set<KvBuffer>)
      reads chain
    {
      Linked(group, chain) && AllIn(chain, bufs) && (attrs != null ==> attrs in bufs)
    }

    /** What the handler holds: its attributes and those of its groups. */
    ghost function Holds(): View
      reads chain, Reach()
    {
      View(Attrs(attrs), Views(chain))
    }

    /** WithAttrs: the innermost group, or else the top-level buffer, is cloned
        and extended; nothing that exists already is written. */
    method WithAttrs(added: seq<Attr>, ghost bufs: set<KvBuffer>) returns (h: Handler, ghost b: KvBuffer)
      requires Buffers(bufs) && Valid(bufs)
      ensures fresh(h) && fresh(b) && fresh(b.data) && b.Ok()
      ensures forall g | g in h.chain :: g in chain || fresh(g)
      ensures h.Valid(bufs + {b}) && h.source == source
      ensures h.Holds() == AddAttrs(Holds(), added)
    {
      if group != null {
        h, b := ExtendGroup(added, bufs);
      } else {
        h, b := ExtendTop(added, bufs);
      }
    }

    method ExtendGroup(added: seq<Attr>, ghost bufs: set<KvBuffer>) returns (h: Handler, ghost b: KvBuffer)
      requires Buffers(bufs) && Valid(bufs) && group != null
      ensures fresh(h) && fresh(b) && fresh(b.data) && b.Ok()
      ensures forall g | g in h.chain :: g in chain || fresh(g)
      ensures h.Valid(bufs + {b}) && h.source == source
      ensures h.Holds() == AddAttrs(Holds(), added)
    {
      GroupLen(chain, 0, bufs);
      var g := group.Clone();
      g.AddAttrs(added);
      b := g.attrs;
      ghost var ch := [g] + chain[1..];
      h := new Handler(attrs, g, source, ch);
      ReplacedHead(chain, g, RetainAll(added), bufs);
      HeldBy(h, attrs, ch, bufs + {b});
    }

    method ExtendTop(added: seq<Attr>, ghost bufs: set<KvBuffer>) returns (h: Handler, ghost b: KvBuffer)
      requires Buffers(bufs) && Valid(bufs) && group == null
      ensures fresh(h) && fresh(b) && fresh(b.data) && b.Ok()
      ensures h.chain == chain
      ensures h.Valid(bufs + {b}) && h.source == source
      ensures h.Holds() == AddAttrs(Holds(), added)
    {
      var own;
      if attrs == null {
        own := new KvBuffer(|added|);
      } else {
        assert attrs in bufs;
        own := attrs.Clone();
      }
      own.AddAttrs(added);
      b := own;
      h := new Handler(own, group, source, chain);
    }

    /** WithGroup: a new group in front of the shared list. */
    method WithGroup(name: string, ghost bufs: set<KvBuffer>) returns (h: Handler)
      requires Buffers(bufs) && Valid(bufs)
      ensures fresh(h)
      ensures forall g | g in h.chain :: g in chain || fresh(g)
      ensures h.Valid(bufs) && h.source == source
      ensures h.Holds() == AddGroup(Holds(), name)
    {
      var g := new Group(name, null, group);
      AddedHead(chain, g, bufs);
      h := new Handler(attrs, g, source, [g] + chain);
    }

    /** convertRecord. Emitting writes spare capacity of shared arrays, and no more:
        every buffer still shows what it showed. */
    method ConvertRecord(record: seq<Attr>, location: seq<KeyValue>, ghost bufs: set<KvBuffer>)
        returns (out: seq<KeyValue>)
      requires Buffers(bufs) && Valid(bufs)
      modifies Arrays(bufs)
      ensures Buffers(bufs)
      ensures out == (if source then location else []) + old(Emit(Holds(), RetainAll(record), record != []))
    {
      out := if source then location else [];
      ghost var v := Holds();
      var top := TopPart(bufs);
      assert top == v.top && Views(chain) == v.groups;
      var tail := GroupPart(record, bufs);
      EmitParts(out, v, tail, RetainAll(record), record != []);
      out := out + top + tail;
    }

    method TopPart(ghost bufs: set<KvBuffer>) returns (top: seq<KeyValue>)
      requires Buffers(bufs) && Valid(bufs)
      modifies Arrays(bufs)
      ensures Buffers(bufs) && Arrays(bufs) == old(Arrays(bufs))
      ensures top == old(Attrs(attrs)) && Views(chain) == old(Views(chain))
    {
      top := [];
      if LenOf(attrs) > 0 {
        top := KeyValuesOf(attrs, [], bufs);
      } else if attrs != null {
        assert attrs.Ok();
      }
    }

    /** The part of convertRecord that looks at the record's own attributes. */
    method GroupPart(record: seq<Attr>, ghost bufs: set<KvBuffer>) returns (tail: seq<KeyValue>)
      requires Buffers(bufs) && Valid(bufs)
      modifies Arrays(bufs)
      ensures Buffers(bufs)
      ensures tail == old(EmitGroups(Views(chain), RetainAll(record), record != []))
    {
      ghost var vs := Views(chain);
      if group != null {
        if |record| > 0 {
          var r := Collect(record);
          assert Views(chain) == vs;
          var kv := WrapInGroups(group, r, chain, bufs);
          assert [kv] == Enclose(vs[1..], [KeyValue(vs[0].name, OMap(vs[0].attrs + r))]);
          tail := [kv];
          assert tail == EmitGroups(vs, RetainAll(record), record != []);
        } else {
          tail := GroupsOnly(bufs);
        }
      } else {
        assert chain == [] && Views(chain) == [];
        tail := Collect(record);
      }
    }

    /** A record without attributes shows the groups that have some. */
    method GroupsOnly(ghost bufs: set<KvBuffer>) returns (tail: seq<KeyValue>)
      requires Buffers(bufs) && Valid(bufs)
      modifies Arrays(bufs)
      ensures Buffers(bufs)
      ensures tail == old(Enclose(Views(chain), []))
    {
      tail := [];
      ghost var vs := Views(chain);
      var g, k := NextNonEmpty(group, chain, bufs);
      assert Views(chain) == vs;
      EncloseSkip(vs, k);
      if g == null {
        assert k == |chain| && vs[k..] == [];
        assert Enclose(vs[k..], []) == tail;
      } else {
        assert k < |chain|;
        RestViews(chain, k, bufs);
        assert Views(chain[k..]) == vs[k..];
        assert Enclose(vs[k..], []) == Enclose(vs[k..][1..], [KeyValue(vs[k..][0].name, OMap(vs[k..][0].attrs + []))]);
        var kv := WrapInGroups(g, [], chain[k..], bufs);
        assert [kv] == Enclose(vs[k..][1..], [KeyValue(vs[k..][0].name, OMap(vs[k..][0].attrs + []))]);
        tail := [kv];
        assert tail == Enclose(vs[k..], []);
      }
    }
  }

  lemma EmitParts(front: seq<KeyValue>, v: View, tail: seq<KeyValue>, r: seq<KeyValue>, hasAttrs: bool)
    requires tail == EmitGroups(v.groups, r, hasAttrs)
    ensures front + v.top + tail == front + Emit(v, r, hasAttrs)
  {
    assert front + v.top + tail == front + (v.top + tail);
  }

  /** The record's attributes, gathered in a buffer of their own. */
  method Collect(record: seq<Attr>) returns (r: seq<KeyValue>)
    ensures r == RetainAll(record)
  {
    var buf := new KvBuffer(|record|);
    var i := 0;
    while i < |record|
      invariant 0 <= i <= |record| && fresh(buf) && fresh(buf.data)
      invariant buf.Ok() && RetainAll(record) == buf.contents + RetainAll(record[i..])
    {
      ghost var one, rest := Retain(record[i]), RetainAll(record[i + 1..]);
      assert record[i..][1..] == record[i + 1..];
      assert buf.contents + (one + rest) == (buf.contents + one) + rest;
      buf.AddAttr(record[i]);
      i := i + 1;
    }
    r := buf.KeyValues([]);
  }

  lemma RestViews(chain: seq<Group>, k: nat, bufs: set<KvBuffer>)
    requires k < |chain| && AllIn(chain, bufs)
    ensures AllIn(chain[k..], bufs) && Views(chain[k..]) == Views(chain)[k..]
    ensures Attrs(chain[k].attrs) != [] ==>
      var vs := Views(chain);
      Enclose(vs[k..], []) == Enclose(vs[k..][1..], [KeyValue(vs[k].name, OMap(vs[k].attrs + []))])
  {
    assert forall i | 0 <= i < |chain| - k :: chain[k..][i] == chain[k + i];
  }

  lemma HeldBy(h: Handler, attrs: KvBuffer?, chain: seq<Group>, bufs: set<KvBuffer>)
    requires h.attrs == attrs && h.chain == chain && Linked(h.group, chain)
    requires AllIn(chain, bufs) && (attrs != null ==> attrs in bufs)
    ensures h.Holds() == View(Attrs(attrs), Views(chain))
    ensures h.Valid(bufs)
  {
  }

  lemma ReplacedHead(chain: seq<Group>, g: Group, added: seq<KeyValue>, bufs: set<KvBuffer>)
    requires AllIn(chain, bufs) && g.attrs != null && chain != [] && Linked(chain[0], chain)
    requires g.name == chain[0].name && g.next == chain[0].next
    requires Attrs(g.attrs) == Attrs(chain[0].attrs) + added
    ensures var ch, vs := [g] + chain[1..], Views(chain);
            && Linked(g, ch) && Views(ch) == vs[0 := vs[0].(attrs := vs[0].attrs + added)]
            && AllIn(ch, bufs + {g.attrs})
  {
    var ch := [g] + chain[1..];
    assert ch[1..] == chain[1..];
    assert forall i | 1 <= i < |ch| :: ch[i] == chain[i];
  }

  lemma AddedHead(chain: seq<Group>, g: Group, bufs: set<KvBuffer>)
    requires AllIn(chain, bufs) && Linked(g.next, chain) && g.attrs == null
    ensures var ch := [g] + chain;
            && Linked(g, ch) && Views(ch) == [GroupView(g.name, [])] + Views(chain)
            && AllIn(ch, bufs)
  {
    var ch := [g] + chain;
    assert ch[1..] == chain;
    assert forall i | 1 <= i < |ch| :: ch[i] == chain[i - 1];
  }

  /** A handler holds exactly what the calls of its history added. */
  ghost predicate Keeps(h: Handler, history: seq<Call>, bufs: set<KvBuffer>)
    reads h.chain, bufs
  {
    h.Valid(bufs) && h.Holds() == ViewFrom(EMPTY_VIEW, history)
  }

  lemma KeepsMore(h: Handler, history: seq<Call>, bufs: set<KvBuffer>, more: set<KvBuffer>)
    requires Keeps(h, history, bufs)
    ensures Keeps(h, history, bufs + more)
  {
  }

  /** A growing tree of handlers, each with the calls that made it. Any program
      that uses handlers is a sequence of calls to these methods. */
  class Family {
    var handlers: seq<Handler>
    ghost var calls: seq<seq<Call>>
    ghost var bufs: set<KvBuffer>

    ghost function Groups(): set<Group>
      reads this
    {
      set h, g | h in handlers && g in h.chain :: g
    }

    /** Buffers keep to themselves, and every handler holds its own history. */
    ghost predicate Valid()
      reads this, Groups(), bufs, set b | b in bufs :: b.data
    {
      && Buffers(bufs)
      && |handlers| == |calls|
      && forall j | 0 <= j < |handlers| ::
           (forall g | g in handlers[j].chain :: g in Groups()) && Keeps(handlers[j], calls[j], bufs)
    }

    /** NewHandler */
    constructor (source: bool)
      ensures Valid() && calls == [[]] && handlers[0].source == source
    {
      var h := new Handler(null, null, source, []);
      handlers := [h];
      calls := [[]];
      bufs := {};
      new;
      assert Views([]) == [];
    }

    /** Deriving a handler leaves all earlier ones, and what they hold, alone. */
    method WithAttrs(j: nat, attrs: seq<Attr>)
      requires Valid() && j < |handlers|
      modifies this
      ensures Valid()
      ensures calls == old(calls) + [old(calls[j]) + [Call.WithAttrs(attrs)]]
      ensures |handlers| == |calls| && handlers[..|old(handlers)|] == old(handlers)
    {
      assert Keeps(handlers[j], calls[j], bufs);
      var h, b := handlers[j].WithAttrs(attrs, bufs);
      ViewFromSnoc(EMPTY_VIEW, calls[j], Call.WithAttrs(attrs));
      forall i | 0 <= i < |handlers| ensures Keeps(handlers[i], calls[i], bufs) {
        assert old(Keeps(handlers[i], calls[i], bufs));
      }
      Adopt(h, calls[j] + [Call.WithAttrs(attrs)], {b});
    }

    /** A derived handler joins the family, with the buffer made for it. */
    method Adopt(h: Handler, ghost history: seq<Call>, ghost more: set<KvBuffer>)
      requires |handlers| == |calls| && forall j | 0 <= j < |handlers| :: Keeps(handlers[j], calls[j], bufs)
      requires Buffers(bufs + more) && Keeps(h, history, bufs + more)
      modifies this
      ensures Valid()
      ensures handlers == old(handlers) + [h] && calls == old(calls) + [history]
    {
      forall i | 0 <= i < |handlers| ensures Keeps(handlers[i], calls[i], bufs + more) {
        KeepsMore(handlers[i], calls[i], bufs, more);
      }
      handlers, calls, bufs := handlers + [h], calls + [history], bufs + more;
      InGroups();
    }

    lemma InGroups()
      ensures forall j | 0 <= j < |handlers| :: forall g | g in handlers[j].chain :: g in Groups()
    {
    }

    method WithGroup(j: nat, name: string)
      requires Valid() && j < |handlers|
      modifies this
      ensures Valid()
      ensures calls == old(calls) + [old(calls[j]) + [Call.WithGroup(name)]]
      ensures |handlers| == |calls| && handlers[..|old(handlers)|] == old(handlers)
    {
      assert Keeps(handlers[j], calls[j], bufs);
      var h := handlers[j].WithGroup(name, bufs);
      ViewFromSnoc(EMPTY_VIEW, calls[j], Call.WithGroup(name));
      forall i | 0 <= i < |handlers| ensures Keeps(handlers[i], calls[i], bufs) {
        assert old(Keeps(handlers[i], calls[i], bufs));
      }
      assert bufs + {} == bufs;
      Adopt(h, calls[j] + [Call.WithGroup(name)], {});
    }

    /** Handle emits the tree of the handler's own history, whatever was derived or
        emitted before, and changes neither a handler nor what it holds. */
    method Handle(j: nat, record: seq<Attr>, location: seq<KeyValue>) returns (out: seq<KeyValue>)
      requires Valid() && j < |handlers|
      modifies Arrays(bufs)
      ensures Valid()
      ensures out == (if handlers[j].source then location else []) +
                     Tree(calls[j], RetainAll(record), record != [])
      ensures Flat(Tree(calls[j], RetainAll(record), record != []), []) == HandlerLeaves(calls[j], record, [])
    {
      TreeLeaves(calls[j], record, []);
      assert Keeps(handlers[j], calls[j], bufs);
      EmitIsTree(calls[j], record);
      out := handlers[j].ConvertRecord(record, location, bufs);
      forall i | 0 <= i < |handlers| ensures Keeps(handlers[i], calls[i], bufs) {
        assert old(Keeps(handlers[i], calls[i], bufs));
      }
    }
  }
}
