/** The heap of otelslog/handler.go: attribute buffers with spare capacity,
    linked groups, and handlers that share both. Slices are a backing array and
    a length; appending within capacity writes to the shared array. */
module OtelHandler {
  import opened SlogTree

  /** A slice of log attributes. The ghost field is the part a reader may see. */
  class KvBuffer {
    var data: array<KeyValue>
    var len: nat
    ghost var contents: seq<KeyValue>

    ghost predicate Ok()
      reads this, data
    {
      len <= data.Length && data[..len] == contents
    }

    /** newKVBuffer */
    constructor (n: nat)
      ensures Ok() && fresh(data) && contents == [] && data.Length == n
    {
      data := new KeyValue[n];
      len := 0;
      contents := [];
    }

    /** append of one element; how much a full slice grows is left open. */
    method Append(kv: KeyValue)
      requires Ok()
      modifies this, data
      ensures Ok() && contents == old(contents) + [kv]
      ensures data == old(data) || fresh(data)
    {
      if len == data.Length {
        var more: nat :| more > 0;
        var bigger := new KeyValue[len + more];
        forall i | 0 <= i < len {
          bigger[i] := data[i];
        }
        data := bigger;
      }
      data[len] := kv;
      len := len + 1;
      contents := contents + [kv];
      assert data[..len] == data[..len - 1] + [kv];
    }

    /** slices.Grow: room for n more elements. */
    method Grow(n: nat)
      requires Ok()
      modifies this
      ensures Ok() && contents == old(contents) && len + n <= data.Length
      ensures data == old(data) || fresh(data)
    {
      if data.Length < len + n {
        var bigger := new KeyValue[len + n];
        forall i | 0 <= i < len {
          bigger[i] := data[i];
        }
        data := bigger;
        assert data[..len] == contents;
      }
    }

    /** AddAttr: an attribute without a key is inlined if it is a group and dropped if
        it is nil. */
    method AddAttr(attr: Attr)
      requires Ok()
      modifies this, data
      ensures Ok() && contents == old(contents) + Retain(attr)
      ensures data == old(data) || fresh(data)
      decreases attr, 2
    {
      if attr.key == "" {
        if attr.value.Group? {
          AddMembers(attr.value.attrs);
          return;
        }
        if attr.value.NilAny? {
          assert contents + [] == contents;
          return;
        }
      }
      var value := ConvertValue(attr.value);
      Append(KeyValue(attr.key, value));
    }

    /** The loop over the members of a group without a key. */
    method AddMembers(members: seq<Attr>)
      requires Ok()
      modifies this, data
      ensures Ok() && contents == old(contents) + Inline(members)
      ensures data == old(data) || fresh(data)
      decreases members, 0
    {
      var i := 0;
      while i < |members|
        invariant 0 <= i <= |members|
        invariant Ok() && old(contents) + Inline(members) == contents + Inline(members[i..])
        invariant data == old(data) || fresh(data)
      {
        ghost var rest := Inline(members[i + 1..]);
        assert members[i..][1..] == members[i + 1..];
        ghost var kv := KeyValue(members[i].key, Convert(members[i].value));
        assert contents + ([kv] + rest) == (contents + [kv]) + rest;
        var value := ConvertValue(members[i].value);
        Append(KeyValue(members[i].key, value));
        i := i + 1;
      }
      assert contents + [] == contents;
    }

    method AddAttrs(attrs: seq<Attr>)
      requires Ok()
      modifies this, data
      ensures Ok() && contents == old(contents) + RetainAll(attrs)
      ensures data == old(data) || fresh(data)
      decreases attrs, 0
    {
      Grow(|attrs|);
      var i := 0;
      while i < |attrs|
        invariant 0 <= i <= |attrs|
        invariant Ok() && old(contents) + RetainAll(attrs) == contents + RetainAll(attrs[i..])
        invariant data == old(data) || fresh(data)
      {
        ghost var one, rest := Retain(attrs[i]), RetainAll(attrs[i + 1..]);
        assert attrs[i..][1..] == attrs[i + 1..];
        assert contents + (one + rest) == (contents + one) + rest;
        AddAttr(attrs[i]);
        i := i + 1;
      }
      assert contents + [] == contents;
    }

    /** convert: a group is gathered in a buffer of its own. */
    static method ConvertValue(v: Value) returns (o: OValue)
      ensures o == Convert(v)
      decreases v, 1
    {
      match v
      case Leaf(id) =>
        return OLeaf(id);
      case NilAny =>
        return OEmpty;
      case Group(g) =>
        var buf := new KvBuffer(|g|);
        buf.AddAttrs(g);
        return OMap(buf.data[..buf.len]);
    }

    /** slices.Clone: a buffer with a backing array of its own. */
    method Clone() returns (b: KvBuffer)
      requires Ok()
      ensures fresh(b) && fresh(b.data) && b.Ok() && b.contents == contents
    {
      b := new KvBuffer(len);
      forall i | 0 <= i < len {
        b.data[i] := data[i];
      }
      b.len := len;
      b.contents := contents;
      assert b.data[..len] == contents;
    }

    /** append(b.data, kvs...) without storing the result: a slice of the shared array
        if that has room, written past the visible part, and else of a new array. */
    method AppendSlice(kvs: seq<KeyValue>) returns (arr: array<KeyValue>, n: nat)
      requires Ok()
      modifies data
      ensures Ok() && n == len + |kvs| <= arr.Length && arr[..n] == contents + kvs
      ensures if n <= data.Length then arr == data && data[n..] == old(data[n..])
              else fresh(arr) && data[..] == old(data[..])
    {
      n := len + |kvs|;
      if n <= data.Length {
        arr := data;
      } else {
        arr := new KeyValue[n];
        forall i | 0 <= i < len {
          arr[i] := data[i];
        }
      }
      forall i | 0 <= i < |kvs| {
        arr[len + i] := kvs[i];
      }
      assert data[..len] == contents && arr[..len] == contents && arr[len..n] == kvs;
      assert arr[..n] == arr[..len] + arr[len..n];
    }

    /** KeyValues, as the value the slice has when it is returned. */
    method KeyValues(kvs: seq<KeyValue>) returns (out: seq<KeyValue>)
      requires Ok()
      modifies data
      ensures Ok() && out == contents + kvs
    {
      var arr, n := AppendSlice(kvs);
      out := arr[..n];
    }

    /** Two emissions from one buffer, and what the first slice shows before and after
        the second. It changes exactly when the array had room for both and they
        differ somewhere in their common length. */
    method EmitTwice(first: seq<KeyValue>, second: seq<KeyValue>)
        returns (before: seq<KeyValue>, after: seq<KeyValue>)
      requires Ok()
      modifies data
      ensures Ok() && before == contents + first
      ensures before != after <==>
              len + |first| <= data.Length && len + |second| <= data.Length && Differ(first, second)
    {
      var arr, n := AppendSlice(first);
      before := arr[..n];
      ghost var was := arr[..];
      var arr2, n2 := AppendSlice(second);
      after := arr[..n];
      if n <= data.Length && n2 <= data.Length {
        Spliced(was, arr[..], contents, first, second);
        OverlayDiffers(contents, first, second);
      } else {
        assert arr[..] == was;
      }
    }
  }

  /** Somewhere in their common length the two differ. */
  predicate Differ(first: seq<KeyValue>, second: seq<KeyValue>) {
    exists i | 0 <= i < |first| && i < |second| :: first[i] != second[i]
  }

  /** The second written over the start of the first. */
  function Overlay(first: seq<KeyValue>, second: seq<KeyValue>): (s: seq<KeyValue>)
    ensures |s| == |first|
  {
    if |second| >= |first| then second[..|first|] else second + first[|second|..]
  }

  lemma Spliced(was: seq<KeyValue>, now: seq<KeyValue>, c: seq<KeyValue>, first: seq<KeyValue>, second: seq<KeyValue>)
    requires |was| == |now| >= |c| + |first| && |now| >= |c| + |second|
    requires was[..|c| + |first|] == c + first && now[..|c| + |second|] == c + second
    requires now[|c| + |second|..] == was[|c| + |second|..]
    ensures now[..|c| + |first|] == c + Overlay(first, second)
  {
    var n, m := |c| + |first|, |c| + |second|;
    if |second| >= |first| {
      assert now[..n] == now[..m][..n] == (c + second)[..n];
    } else {
      assert now[..n] == now[..m] + now[m..][..n - m];
      assert was[m..][..n - m] == was[..n][m..] == (c + first)[m..] == first[|second|..];
      assert c + second + first[|second|..] == c + (second + first[|second|..]);
    }
  }

  lemma OverlayDiffers(c: seq<KeyValue>, first: seq<KeyValue>, second: seq<KeyValue>)
    ensures c + Overlay(first, second) != c + first <==> Differ(first, second)
  {
    var o := Overlay(first, second);
    assert (c + o)[|c|..] == o && (c + first)[|c|..] == first;
    assert forall i | 0 <= i < |first| :: o[i] == if i < |second| then second[i] else first[i];
  }

  ghost function Attrs(b: KvBuffer?): seq<KeyValue>
    reads b
  {
    if b == null then [] else b.contents
  }

  /** A set of buffers, each in order and none sharing its array with another. */
  ghost predicate Buffers(bufs: set<KvBuffer>)
    reads bufs, set b | b in bufs :: b.data
  {
    && (forall b | b in bufs :: b.Ok())
    && (forall b, c | b in bufs && c in bufs && b != c :: b.data != c.data)
  }

  ghost function Arrays(bufs: set<KvBuffer>): set<array<KeyValue>>
    reads bufs
  {
    set b | b in bufs :: b.data
  }

  method KeyValuesOf(b: KvBuffer?, kvs: seq<KeyValue>, ghost bufs: set<KvBuffer>) returns (out: seq<KeyValue>)
    requires Buffers(bufs) && (b != null ==> b in bufs)
    modifies Arrays(bufs)
    ensures Buffers(bufs) && Arrays(bufs) == old(Arrays(bufs)) && out == Attrs(b) + kvs
  {
    if b == null {
      out := kvs;
    } else {
      out := b.KeyValues(kvs);
    }
  }

  // ------------------------------------------------------------------- groups

  class Group {
    const name: string
    var attrs: KvBuffer?
    const next: Group?

    constructor (name: string, attrs: KvBuffer?, next: Group?)
      ensures this.name == name && this.attrs == attrs && this.next == next
    {
      this.name, this.attrs, this.next := name, attrs, next;
    }

    /** Clone: a new group whose buffer is cloned and whose tail is shared. */
    method Clone() returns (g: Group)
      requires attrs != null ==> attrs.Ok()
      ensures fresh(g) && g.name == name && g.next == next && Attrs(g.attrs) == Attrs(attrs)
      ensures g.attrs != null ==> fresh(g.attrs) && fresh(g.attrs.data) && g.attrs.Ok()
    {
      var b: KvBuffer? := null;
      if attrs != null {
        b := attrs.Clone();
      }
      g := new Group(name, b, next);
    }

    method AddAttrs(added: seq<Attr>)
      requires attrs != null ==> attrs.Ok()
      modifies this, attrs, if attrs == null then {} else {attrs.data}
      ensures attrs != null && attrs.Ok() && attrs.contents == old(Attrs(attrs)) + RetainAll(added)
      ensures attrs == old(attrs) || fresh(attrs)
      ensures fresh(attrs.data) || (old(attrs) != null && attrs.data == old(attrs.data))
    {
      if attrs == null {
        attrs := new KvBuffer(|added|);
      }
      attrs.AddAttrs(added);
    }
  }

  /** The linked list that starts at a group, innermost first. */
  ghost predicate Linked(group: Group?, chain: seq<Group>) {
    if chain == [] then group == null else group == chain[0] && Linked(chain[0].next, chain[1..])
  }

  ghost function Buffered(chain: seq<Group>): set<KvBuffer>
    reads chain
  {
    set g | g in chain && g.attrs != null :: g.attrs
  }

  /** The buffers of all groups of a chain are among bufs. */
  ghost predicate AllIn(chain: seq<Group>, bufs: set<KvBuffer>)
    reads chain
  {
    forall i | 0 <= i < |chain| :: chain[i].attrs != null ==> chain[i].attrs in bufs
  }

  ghost function Views(chain: seq<Group>): (vs: seq<GroupView>)
    reads chain, Buffered(chain)
    ensures |vs| == |chain|
    ensures forall i | 0 <= i < |chain| :: vs[i] == GroupView(chain[i].name, Attrs(chain[i].attrs))
  {
    seq(|chain|, i requires 0 <= i < |chain| reads chain, Buffered(chain) =>
      GroupView(chain[i].name, Attrs(chain[i].attrs)))
  }

  function LenOf(b: KvBuffer?): nat
    reads b
  {
    if b == null then 0 else b.len
  }

  /** Len reads the visible length of a group's buffer. */
  lemma GroupLen(chain: seq<Group>, i: nat, bufs: set<KvBuffer>)
    requires Buffers(bufs) && i < |chain| && AllIn(chain, bufs)
    ensures var b := chain[i].attrs; (b != null ==> b in bufs && b.Ok()) && LenOf(b) == |Attrs(b)|
  {
    if chain[i].attrs != null {
      assert chain[i].attrs.Ok();
    }
  }

  /** One group around kvs. */
  method WrapInGroup(g: Group, kvs: seq<KeyValue>, ghost chain: seq<Group>, ghost i: nat, ghost bufs: set<KvBuffer>)
      returns (out: KeyValue)
    requires Buffers(bufs) && i < |chain| && g == chain[i] && AllIn(chain, bufs)
    modifies Arrays(bufs)
    ensures Buffers(bufs) && Arrays(bufs) == old(Arrays(bufs))
    ensures Views(chain) == old(Views(chain))
    ensures out == KeyValue(g.name, OMap(Attrs(g.attrs) + kvs))
  {
    GroupLen(chain, i, bufs);
    var own := KeyValuesOf(g.attrs, kvs, bufs);
    out := KeyValue(g.name, OMap(own));
  }

  /** group.KeyValue: wrap kvs in the group, then in each enclosing group that has
      attributes of its own. */
  method WrapInGroups(group: Group, kvs: seq<KeyValue>, ghost chain: seq<Group>, ghost bufs: set<KvBuffer>)
      returns (out: KeyValue)
    requires Buffers(bufs) && Linked(group, chain) && AllIn(chain, bufs)
    modifies Arrays(bufs)
    ensures Buffers(bufs)
    ensures var vs := old(Views(chain));
            [out] == Enclose(vs[1..], [KeyValue(vs[0].name, OMap(vs[0].attrs + kvs))])
  {
    ghost var vs := Views(chain);
    out := WrapInGroup(group, kvs, chain, 0, bufs);
    ghost var whole := Enclose(vs[1..], [out]);
    var g := group.next;
    ghost var rest := chain[1..];
    TailViews(chain, bufs);
    while g != null
      invariant Linked(g, rest) && AllIn(rest, bufs)
      invariant Buffers(bufs) && Arrays(bufs) == old(Arrays(bufs))
      invariant whole == Enclose(Views(rest), [out])
      decreases |rest|
    {
      GroupLen(rest, 0, bufs);
      TailViews(rest, bufs);
      if LenOf(g.attrs) > 0 {
        out := WrapInGroup(g, [out], rest, 0, bufs);
        TailViews(rest, bufs);
      }
      g, rest := g.next, rest[1..];
    }
  }

  lemma TailViews(chain: seq<Group>, bufs: set<KvBuffer>)
    requires chain != [] && AllIn(chain, bufs)
    ensures AllIn(chain[1..], bufs) && Views(chain[1..]) == Views(chain)[1..]
  {
  }

  /** NextNonEmpty: the first group of the list that has attributes, and how many
      groups without any it skips. */
  method NextNonEmpty(g: Group?, ghost chain: seq<Group>, ghost bufs: set<KvBuffer>) returns (r: Group?, ghost k: nat)
    requires Buffers(bufs) && Linked(g, chain) && AllIn(chain, bufs)
    ensures k <= |chain| && Linked(r, chain[k..])
    ensures forall i | 0 <= i < k :: Attrs(chain[i].attrs) == []
    ensures k < |chain| ==> Attrs(chain[k].attrs) != []
    ensures r == (if k < |chain| then chain[k] else null)
    ensures r == null <==> forall h | h in chain :: Attrs(h.attrs) == []
    decreases |chain|
  {
    r, k := g, 0;
    assert chain[0..] == chain;
    if g != null {
      GroupLen(chain, 0, bufs);
    }
    if g != null && LenOf(g.attrs) == 0 {
      r, k := NextNonEmpty(g.next, chain[1..], bufs);
      assert chain[1..][k..] == chain[1 + k..];
      assert forall i | 1 <= i <= k :: chain[i] == chain[1..][i - 1];
      k := k + 1;
    }
  }

  lemma {:induction false} EncloseSkip(vs: seq<GroupView>, k: nat)
    requires k <= |vs| && forall i | 0 <= i < k :: vs[i].attrs == []
    ensures Enclose(vs, []) == Enclose(vs[k..], [])
  {
    if k == 0 {
      assert vs[0..] == vs;
    } else {
      EncloseSkip(vs[1..], k - 1);
      assert vs[1..][k - 1..] == vs[k..];
    }
  }
}
