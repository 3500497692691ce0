/**
 * Day 8 (8/src/main.rs): the licence file is a tree written in prefix
 * form.  A node is a header (child count, metadata count), then its
 * children, then its metadata entries.  Part A sums every metadata entry
 * of the tree; part B computes a node's value: a leaf's metadata sum, or,
 * for a node with children, the values of the children its metadata
 * entries name (1-based; 0 or an index past the last child counts 0).
 */
module MemoryManeuver {
  import opened Wrappers

  datatype Node = Node(children: seq<Node>, metadata: seq<nat>)

  /** `iter().fold(0, |total, current| total + current)`. */
  function Sum(s: seq<nat>): nat
  {
    if s == [] then 0 else s[0] + Sum(s[1..])
  }

  lemma {:induction false} SumAppend(a: seq<nat>, b: seq<nat>)
    ensures Sum(a + b) == Sum(a) + Sum(b)
  {
    if a == [] {
      assert a + b == b;
    } else {
      assert (a + b)[0] == a[0];
      assert (a + b)[1..] == a[1..] + b;
      SumAppend(a[1..], b);
    }
  }

  // ---------------------------------------------------------------------
  // The encoding and its decoder
  // ---------------------------------------------------------------------

  /** The numbers that spell a node: header, children in order, metadata. */
  function Encode(n: Node): seq<nat>
    decreases n, 1
  {
    [|n.children|, |n.metadata|] + EncodeAll(n.children) + n.metadata
  }

  function EncodeAll(ns: seq<Node>): seq<nat>
    decreases ns, 0
  {
    if ns == [] then [] else Encode(ns[0]) + EncodeAll(ns[1..])
  }

  /**
   * The node spelled at `data[start..]` and the offset just past it, or
   * `None` where the numbers run out (where `parse_node` indexes past the
   * end and panics).
   */
  function Decode(data: seq<nat>, start: nat): (r: Option<(Node, nat)>)
    requires start <= |data|
    ensures r.Some? ==> start + 2 <= r.value.1 <= |data|
    ensures r.Some? ==> |r.value.0.children| == data[start] && |r.value.0.metadata| == data[start + 1]
    decreases |data| - start, 1
  {
    if start + 2 > |data| then None
    else
      match DecodeChildren(data, start + 2, data[start])
      case None => None
      case Some((children, offset)) =>
        var count := data[start + 1];
        if offset + count > |data| then None
        else Some((Node(children, data[offset..offset + count]), offset + count))
  }

  /** `count` nodes spelled one after the other from `offset`. */
  function DecodeChildren(data: seq<nat>, offset: nat, count: nat): (r: Option<(seq<Node>, nat)>)
    requires offset <= |data|
    ensures r.Some? ==> offset <= r.value.1 <= |data| && |r.value.0| == count
    decreases |data| - offset, 2
  {
    if count == 0 then Some(([], offset))
    else
      match Decode(data, offset)
      case None => None
      case Some((child, end)) =>
        match DecodeChildren(data, end, count - 1)
        case None => None
        case Some((rest, last)) => Some(([child] + rest, last))
  }

  /** `children` in front of whatever a decode of the remaining children gives. */
  function Prepend(children: seq<Node>, r: Option<(seq<Node>, nat)>): Option<(seq<Node>, nat)>
  {
    match r
    case None => None
    case Some((rest, end)) => Some((children + rest, end))
  }

  lemma PrependNil(r: Option<(seq<Node>, nat)>)
    ensures Prepend([], r) == r
  {
    match r
    case None =>
    case Some((rest, end)) => assert [] + rest == rest;
  }

  lemma PrependAssoc(a: seq<Node>, b: seq<Node>, r: Option<(seq<Node>, nat)>)
    ensures Prepend(a, Prepend(b, r)) == Prepend(a + b, r)
  {
    match r
    case None =>
    case Some((rest, end)) => assert a + (b + rest) == (a + b) + rest;
  }

  /** One step of `Decode`: the header, the children, then the metadata. */
  lemma DecodeStep(data: seq<nat>, start: nat, children: seq<Node>, offset: nat)
    requires start + 2 <= |data|
    requires DecodeChildren(data, start + 2, data[start]) == Some((children, offset))
    requires offset + data[start + 1] <= |data|
    ensures Decode(data, start) == Some((Node(children, data[offset..offset + data[start + 1]]), offset + data[start + 1]))
  {
  }

  /** One step of `DecodeChildren`: a first child, then the rest. */
  lemma DecodeChildrenStep(data: seq<nat>, offset: nat, count: nat, child: Node, end: nat, rest: seq<Node>, last: nat)
    requires offset <= |data| && count > 0
    requires Decode(data, offset) == Some((child, end))
    requires DecodeChildren(data, end, count - 1) == Some((rest, last))
    ensures DecodeChildren(data, offset, count) == Some(([child] + rest, last))
  {
  }

  /** A window of `data` spelling `a + b` spells `a`, then `b`. */
  lemma SplitWindow(data: seq<nat>, start: nat, a: seq<nat>, b: seq<nat>)
    requires start + |a| + |b| <= |data| && data[start..start + |a| + |b|] == a + b
    ensures data[start..start + |a|] == a
    ensures data[start + |a|..start + |a| + |b|] == b
  {
    var w := data[start..start + |a| + |b|];
    assert data[start..start + |a|] == a by {
      forall t | 0 <= t < |a| ensures data[start..start + |a|][t] == a[t] {
        assert w[t] == (a + b)[t];
      }
    }
    assert data[start + |a|..start + |a| + |b|] == b by {
      forall t | 0 <= t < |b| ensures data[start + |a|..start + |a| + |b|][t] == b[t] {
        assert w[|a| + t] == (a + b)[|a| + t];
      }
    }
  }

  /** A window spelling a two-number header and a tail spells each part. */
  lemma HeaderAt(data: seq<nat>, start: nat, x: nat, y: nat, tail: seq<nat>)
    requires start + 2 + |tail| <= |data| && data[start..start + 2 + |tail|] == [x, y] + tail
    ensures data[start] == x && data[start + 1] == y
    ensures data[start + 2..start + 2 + |tail|] == tail
  {
    var w := data[start..start + 2 + |tail|];
    assert data[start] == w[0] == x;
    assert data[start + 1] == w[1] == y;
    SplitWindow(data, start, [x, y], tail);
  }

  /** Decoding an encoding gives the node back and ends just past it, whatever surrounds it. */
  lemma {:induction false} DecodeEncode(n: Node, data: seq<nat>, start: nat)
    requires start + |Encode(n)| <= |data| && data[start..start + |Encode(n)|] == Encode(n)
    ensures Decode(data, start) == Some((n, start + |Encode(n)|))
    decreases n, 1
  {
    var kids := EncodeAll(n.children);
    var tail := kids + n.metadata;
    assert Encode(n) == [|n.children|, |n.metadata|] + tail;
    HeaderAt(data, start, |n.children|, |n.metadata|, tail);
    SplitWindow(data, start + 2, kids, n.metadata);
    DecodeEncodeAll(n.children, data, start + 2);
    DecodeStep(data, start, n.children, start + 2 + |kids|);
  }

  lemma {:induction false} DecodeEncodeAll(ns: seq<Node>, data: seq<nat>, offset: nat)
    requires offset + |EncodeAll(ns)| <= |data| && data[offset..offset + |EncodeAll(ns)|] == EncodeAll(ns)
    ensures DecodeChildren(data, offset, |ns|) == Some((ns, offset + |EncodeAll(ns)|))
    decreases ns, 0
  {
    if ns != [] {
      var first := Encode(ns[0]);
      var rest := EncodeAll(ns[1..]);
      assert EncodeAll(ns) == first + rest;
      SplitWindow(data, offset, first, rest);
      DecodeEncode(ns[0], data, offset);
      DecodeEncodeAll(ns[1..], data, offset + |first|);
      DecodeChildrenStep(data, offset, |ns|, ns[0], offset + |first|, ns[1..], offset + |first| + |rest|);
      assert [ns[0]] + ns[1..] == ns;
    }
  }

  /** Whatever decodes was spelled by exactly the numbers it consumed. */
  lemma {:induction false} EncodeDecode(data: seq<nat>, start: nat)
    requires start <= |data| && Decode(data, start).Some?
    ensures data[start..Decode(data, start).value.1] == Encode(Decode(data, start).value.0)
    decreases |data| - start, 1
  {
    var (n, end) := Decode(data, start).value;
    var (children, offset) := DecodeChildren(data, start + 2, data[start]).value;
    EncodeDecodeChildren(data, start + 2, data[start]);
    assert data[start..end] == [data[start], data[start + 1]] + data[start + 2..offset] + data[offset..end];
  }

  lemma {:induction false} EncodeDecodeChildren(data: seq<nat>, offset: nat, count: nat)
    requires offset <= |data| && DecodeChildren(data, offset, count).Some?
    ensures data[offset..DecodeChildren(data, offset, count).value.1] == EncodeAll(DecodeChildren(data, offset, count).value.0)
    decreases |data| - offset, 2
  {
    if count > 0 {
      var (child, end) := Decode(data, offset).value;
      var (rest, last) := DecodeChildren(data, end, count - 1).value;
      EncodeDecode(data, offset);
      EncodeDecodeChildren(data, end, count - 1);
      var kids := [child] + rest;
      assert kids[0] == child && kids[1..] == rest;
      assert data[offset..last] == data[offset..end] + data[end..last];
    }
  }

  /**
   * `parse_node`: reads the two counts, parses that many children one
   * after the other, then copies that many metadata entries.
   */
  method ParseNode(data: seq<nat>, start: nat) returns (r: Option<(Node, nat)>)
    requires start <= |data|
    ensures r == Decode(data, start)
    decreases |data| - start
  {
    if start + 2 > |data| {
      return None;
    }
    var offset := start;
    var childrenCount := data[offset];
    offset := offset + 1;
    var metadataCount := data[offset];
    offset := offset + 1;

    var children: seq<Node> := [];
    PrependNil(DecodeChildren(data, offset, childrenCount));
    for i := 0 to childrenCount
      invariant start + 2 <= offset <= |data|
      invariant DecodeChildren(data, start + 2, childrenCount) == Prepend(children, DecodeChildren(data, offset, childrenCount - i))
    {
      var parsed := ParseNode(data, offset);
      if parsed.None? {
        return None;
      }
      var (child, endOffset) := parsed.value;
      assert Prepend([child], DecodeChildren(data, endOffset, childrenCount - i - 1))
        == DecodeChildren(data, offset, childrenCount - i);
      PrependAssoc(children, [child], DecodeChildren(data, endOffset, childrenCount - i - 1));
      children := children + [child];
      offset := endOffset;
    }

    assert children + [] == children;
    var metadataStart := offset;
    var metadata: seq<nat> := [];
    for j := 0 to metadataCount
      invariant offset == metadataStart + j <= |data|
      invariant metadata == data[metadataStart..offset]
    {
      if offset >= |data| {
        return None;
      }
      metadata := metadata + [data[offset]];
      offset := offset + 1;
    }
    return Some((Node(children, metadata), offset));
  }

  // ---------------------------------------------------------------------
  // Part A
  // ---------------------------------------------------------------------

  /** `sum_metadata`: the children's sums folded, plus the node's own metadata sum. */
  function SumMetadata(n: Node): nat
    decreases n, 1
  {
    SumChildren(n.children) + Sum(n.metadata)
  }

  function SumChildren(ns: seq<Node>): nat
    decreases ns, 0
  {
    if ns == [] then 0 else SumMetadata(ns[0]) + SumChildren(ns[1..])
  }

  /** Every metadata entry of a node and its descendants, in encoding order. */
  function AllMetadata(n: Node): seq<nat>
    decreases n, 1
  {
    AllMetadataOf(n.children) + n.metadata
  }

  function AllMetadataOf(ns: seq<Node>): seq<nat>
    decreases ns, 0
  {
    if ns == [] then [] else AllMetadata(ns[0]) + AllMetadataOf(ns[1..])
  }

  /** Part A's answer is the sum of every metadata entry in the tree. */
  lemma {:induction false} SumMetadataIsTotal(n: Node)
    ensures SumMetadata(n) == Sum(AllMetadata(n))
    decreases n, 1
  {
    SumChildrenIsTotal(n.children);
    SumAppend(AllMetadataOf(n.children), n.metadata);
  }

  lemma {:induction false} SumChildrenIsTotal(ns: seq<Node>)
    ensures SumChildren(ns) == Sum(AllMetadataOf(ns))
    decreases ns, 0
  {
    if ns != [] {
      SumMetadataIsTotal(ns[0]);
      SumChildrenIsTotal(ns[1..]);
      SumAppend(AllMetadata(ns[0]), AllMetadataOf(ns[1..]));
    }
  }

  // ---------------------------------------------------------------------
  // Part B
  // ---------------------------------------------------------------------

  /** `sum_data`: a leaf's metadata sum; otherwise the named children's values. */
  function SumData(n: Node): nat
    decreases n, 1
  {
    if n.children == [] then Sum(n.metadata)
    else SumEntries(n, n.metadata)
  }

  /** The fold over metadata entries of a node with children. */
  function SumEntries(n: Node, entries: seq<nat>): nat
    requires forall i :: 0 <= i < |entries| ==> entries[i] in n.metadata
    decreases n, 0, |entries|
  {
    if entries == [] then 0
    else
      assert entries[0] in n.metadata;
      ChildValue(n, entries[0]) + SumEntries(n, entries[1..])
  }

  /** What one metadata entry contributes: the value of child `entry - 1`, if there is one. */
  function ChildValue(n: Node, entry: nat): nat
    requires entry in n.metadata
    decreases n, 0, 0
  {
    if entry > 0 && entry - 1 < |n.children| then SumData(n.children[entry - 1]) else 0
  }

  /**
   * The entries of a node with children contribute independently: an
   * entry appended to the metadata adds the value of the child it names,
   * and 0 when it is 0 or names no child.
   */
  lemma {:induction false} SumDataAppend(children: seq<Node>, metadata: seq<nat>, entry: nat)
    requires children != []
    ensures SumData(Node(children, metadata + [entry])) ==
      SumData(Node(children, metadata)) + (if 1 <= entry <= |children| then SumData(children[entry - 1]) else 0)
  {
    var n := Node(children, metadata);
    var m := Node(children, metadata + [entry]);
    EntriesSplit(n, m, metadata, entry);
  }

  lemma {:induction false} EntriesSplit(n: Node, m: Node, entries: seq<nat>, entry: nat)
    requires n.children == m.children
    requires forall i :: 0 <= i < |entries| ==> entries[i] in n.metadata && entries[i] in m.metadata
    requires entry in m.metadata
    ensures SumEntries(m, entries + [entry]) == SumEntries(n, entries) + ChildValue(m, entry)
    decreases |entries|
  {
    if entries == [] {
      assert [entry][1..] == [];
    } else {
      assert (entries + [entry])[1..] == entries[1..] + [entry];
      EntriesSplit(n, m, entries[1..], entry);
    }
  }

  /** A node whose entries name no child has value 0. */
  lemma {:induction false} NoNamedChild(n: Node, entries: seq<nat>)
    requires forall i :: 0 <= i < |entries| ==> entries[i] in n.metadata
    requires forall i :: 0 <= i < |entries| ==> entries[i] == 0 || entries[i] > |n.children|
    ensures SumEntries(n, entries) == 0
    decreases |entries|
  {
    if entries != [] {
      NoNamedChild(n, entries[1..]);
    }
  }

  /** A leaf's value is its metadata sum, which is also its part A sum. */
  lemma LeafValue(n: Node)
    requires n.children == []
    ensures SumData(n) == SumMetadata(n) == Sum(n.metadata)
  {
  }

  // ---------------------------------------------------------------------
  // The puzzle's example
  // ---------------------------------------------------------------------

  function Sample(): seq<nat>
  {
    [2, 3, 0, 3, 10, 11, 12, 1, 1, 0, 1, 99, 2, 1, 1, 2]
  }

  /** The example tree: A has children B (a leaf) and C, and C has child D. */
  function SampleTree(): Node
  {
    Node([Node([], [10, 11, 12]), Node([Node([], [99])], [2])], [1, 1, 2])
  }

  /** The example decodes to its tree. */
  lemma SampleDecodes()
    ensures Decode(Sample(), 0) == Some((SampleTree(), 16))
  {
    assert Encode(SampleTree()) == Sample();
    DecodeEncode(SampleTree(), Sample(), 0);
    assert Sample()[0..16] == Sample();
  }

  /** Its metadata sum is 138 and its value is 66. */
  lemma SampleAnswers()
    ensures SumMetadata(SampleTree()) == 138
    ensures SumData(SampleTree()) == 66
  {
    var b := Node([], [10, 11, 12]);
    var d := Node([], [99]);
    var c := Node([d], [2]);
    assert ChildValue(c, 2) == 0;
    assert [2][1..] == [];
    assert SumData(c) == SumEntries(c, [2]) == 0;
    assert SumData(b) == 33;
  }
}
