/** `Octree.get_data`: the flat integer encoding of an octree. Every node
    is summarised by a two-word header `[child_mask, data_offset]`; a node's
    own words are appended after those of its children (post-order), and the
    root's header comes last. A leaf has mask 0 and its words are the face
    count and the faces; an empty leaf has mask `0x100` and no words; an
    internal node's words are its eight child headers, and bit `i` of its
    mask says that child `i` is not an empty leaf. */
module OctreeData {
  import opened Wrappers
  import opened Octree

  const EmptyMask: int := 0x100

  datatype Header = Header(mask: int, offset: int)

  predicate IsEmptyLeaf(n: Node) {
    n.Leaf? && |n.faces| == 0
  }

  predicate AllEmptyLeaves(cs: seq<Node>) {
    forall k :: 0 <= k < |cs| ==> IsEmptyLeaf(cs[k])
  }

  // ---------------------------------------------------------------------
  // Child masks.

  /** The mask `child_mask | (0x1 << i)` accumulates over the children
      whose flag is set; the bits are distinct, so the OR is the sum. */
  function MaskValue(flags: seq<bool>): (m: int)
    ensures 0 <= m < Pow2(|flags|)
  {
    if |flags| == 0 then 0 else (if flags[0] then 1 else 0) + 2 * MaskValue(flags[1..])
  }

  function Pow2(n: nat): (p: int)
    ensures p >= 1
  {
    if n == 0 then 1 else 2 * Pow2(n - 1)
  }

  /** Bit `i` of a mask. */
  predicate MaskBit(m: int, i: nat)
    decreases i
  {
    if i == 0 then m % 2 == 1 else MaskBit(m / 2, i - 1)
  }

  /** Reading bit `i` of the accumulated mask gives back flag `i`. */
  lemma {:induction false} MaskBits(flags: seq<bool>, i: nat)
    requires i < |flags|
    ensures MaskBit(MaskValue(flags), i) == flags[i]
    decreases i
  {
    var m := MaskValue(flags);
    assert m / 2 == MaskValue(flags[1..]);
    if i > 0 {
      MaskBits(flags[1..], i - 1);
    }
  }

  /** The mask is zero exactly when no flag is set. */
  lemma {:induction false} MaskZero(flags: seq<bool>)
    ensures MaskValue(flags) == 0 <==> forall k :: 0 <= k < |flags| ==> !flags[k]
    decreases |flags|
  {
    if |flags| > 0 {
      MaskZero(flags[1..]);
      if MaskValue(flags) == 0 {
        forall k | 0 <= k < |flags|
          ensures !flags[k]
        {
          if k > 0 {
            assert flags[k] == flags[1..][k - 1];
          }
        }
      }
      assert (forall k :: 0 <= k < |flags[1..]| ==> !flags[1..][k]) <== (forall k :: 0 <= k < |flags| ==> !flags[k]);
    }
  }

  // ---------------------------------------------------------------------
  // Encoding.

  /** `write_node(node, tree_data)`: the data after the node's words are
      appended, and its header. With `collapse` an internal node whose
      children are all empty leaves is written as an empty leaf; without
      it the function is `write_node` as written, which gives such a node
      mask 0. */
  function WriteNode(n: Node, data: seq<int>, collapse: bool): (r: (seq<int>, Header))
    ensures data <= r.0 && 0 <= r.1.offset <= |r.0| && 0 <= r.1.mask
    decreases n, 1
  {
    match n
    case Leaf(fs) =>
      if |fs| == 0 then (data, Header(EmptyMask, |data|))
      else (data + ([|fs|] + fs), Header(0, |data|))
    case Internal(cs) =>
      if collapse && AllEmptyLeaves(cs) then (data, Header(EmptyMask, |data|))
      else
        var w := WriteChildren(n, 0, data, collapse);
        (w.0 + w.1, Header(MaskValue(w.2), |w.0|))
  }

  /** The loop over the children from `i` on: the data after their words,
      the headers written for them, and their mask flags. */
  function WriteChildren(p: Node, i: nat, data: seq<int>, collapse: bool): (r: (seq<int>, seq<int>, seq<bool>))
    requires p.Internal? && i <= |p.children|
    ensures data <= r.0
    ensures |r.1| == 2 * (|p.children| - i) && |r.2| == |p.children| - i
    ensures forall k :: 0 <= k < |r.2| ==> r.2[k] == !IsEmptyLeaf(p.children[i + k])
    decreases p, 0, |p.children| - i
  {
    if i == |p.children| then (data, [], [])
    else
      var c := p.children[i];
      if IsEmptyLeaf(c) then
        var rest := WriteChildren(p, i + 1, data, collapse);
        (rest.0, [EmptyMask, 0] + rest.1, [false] + rest.2)
      else
        var (d1, h) := WriteNode(c, data, collapse);
        var rest := WriteChildren(p, i + 1, d1, collapse);
        (rest.0, [h.mask, h.offset] + rest.1, [true] + rest.2)
  }

  /** `get_data`'s tree part: the words of the tree, then the root header,
      whose position is `root_data_offset`. */
  function Encode(root: Node, collapse: bool): (r: (seq<int>, nat))
    ensures |r.0| == r.1 + 2
  {
    var (d, h) := WriteNode(root, [], collapse);
    (d + [h.mask, h.offset], |d|)
  }

  /** `get_data` as written. */
  function EncodeAsWritten(root: Node): (r: (seq<int>, nat))
    ensures |r.0| == r.1 + 2
  {
    Encode(root, false)
  }

  // ---------------------------------------------------------------------
  // Decoding.

  /** Reads the node whose header is `(m, off)`. Mask `0x100` is an empty
      leaf, mask 0 a leaf whose count is at `off`, and a mask below 256
      an internal node with its child headers at `off`. A child's words
      precede its parent's, so decoding follows strictly smaller offsets. */
  function Decode(D: seq<int>, m: int, off: nat): Option<Node>
    decreases off, 1, 0
  {
    if m == EmptyMask then Some(Leaf([]))
    else if m == 0 then
      if off < |D| && 0 <= D[off] && off + 1 + D[off] <= |D| && forall k :: off + 1 <= k < off + 1 + D[off] ==> D[k] >= 0 then
        Some(Leaf(Nats(D[off + 1..off + 1 + D[off]])))
      else None
    else if 0 < m < 256 && off + 16 <= |D| then
      var cs := DecodeChildren(D, m, off, 0);
      if cs.Some? then Some(Internal(cs.value)) else None
    else None
  }

  function Nats(s: seq<int>): (r: seq<nat>)
    requires forall k :: 0 <= k < |s| ==> s[k] >= 0
    ensures r == s
  {
    seq(|s|, k requires 0 <= k < |s| => s[k] as nat)
  }

  /** The children from `i` on of the internal node at `off`. */
  function DecodeChildren(D: seq<int>, m: int, off: nat, i: nat): (r: Option<seq<Node>>)
    requires off + 16 <= |D| && i <= 8
    ensures r.Some? ==> |r.value| == 8 - i
    decreases off, 0, 8 - i
  {
    if i == 8 then Some([])
    else
      var c := DecodeChild(D, MaskBit(m, i), D[off + 2 * i], D[off + 2 * i + 1], off);
      var rest := DecodeChildren(D, m, off, i + 1);
      if c.Some? && rest.Some? then Some([c.value] + rest.value) else None
  }

  /** One child: an unset bit, or a set bit with header `0x100`, is an
      empty leaf; otherwise the child's words lie before the parent's. */
  function DecodeChild(D: seq<int>, bit: bool, cm: int, co: int, bound: nat): Option<Node>
    decreases bound, 0, 0
  {
    if !bit || cm == EmptyMask then Some(Leaf([]))
    else if 0 <= co < bound then Decode(D, cm, co)
    else None
  }

  /** Reads the tree back from `get_data`'s words and `root_data_offset`. */
  function DecodeTree(words: seq<int>, rootOffset: nat): Option<Node> {
    if rootOffset + 2 <= |words| && words[rootOffset + 1] >= 0 then
      Decode(words, words[rootOffset], words[rootOffset + 1])
    else None
  }

  // ---------------------------------------------------------------------
  // Round trip.

  /** The tree the corrected encoding reads back as: an internal node whose
      children are all empty leaves becomes an empty leaf. */
  function Collapse(n: Node): Node
    decreases n, 1, 0
  {
    match n
    case Leaf(fs) => n
    case Internal(cs) =>
      if AllEmptyLeaves(cs) then Leaf([]) else Internal(CollapsedChildren(n, 0))
  }

  /** The collapsed children of `p` from `i` on. */
  function CollapsedChildren(p: Node, i: nat): (r: seq<Node>)
    requires p.Internal?
    ensures |r| == if i <= |p.children| then |p.children| - i else 0
    decreases p, 0, |p.children| - i
  {
    if i >= |p.children| then [] else [Collapse(p.children[i])] + CollapsedChildren(p, i + 1)
  }

  /** No internal node has only empty leaves as children. */
  predicate NoHollowNode(n: Node)
    decreases n
  {
    n.Internal? ==> !AllEmptyLeaves(n.children) && forall k :: 0 <= k < |n.children| ==> NoHollowNode(n.children[k])
  }

  /** Without hollow nodes there is nothing to collapse. */
  lemma {:induction false} CollapseNoHollow(n: Node)
    requires NoHollowNode(n)
    ensures Collapse(n) == n
    decreases n, 1, 0
  {
    if n.Internal? {
      CollapsedChildrenNoHollow(n, 0);
      assert n.children[0..] == n.children;
    }
  }

  lemma {:induction false} CollapsedChildrenNoHollow(p: Node, i: nat)
    requires p.Internal? && NoHollowNode(p) && i <= |p.children|
    ensures CollapsedChildren(p, i) == p.children[i..]
    decreases p, 0, |p.children| - i
  {
    if i < |p.children| {
      CollapseNoHollow(p.children[i]);
      CollapsedChildrenNoHollow(p, i + 1);
      assert p.children[i..] == [p.children[i]] + p.children[i + 1..];
    }
  }

  /** Decoding a node written by `WriteNode` from any data that extends
      what was written gives the node back, collapsed; as written this
      holds for trees without hollow nodes. A header other than `0x100`
      points strictly before the end of the written data. */
  lemma {:induction false} WriteNodeRoundTrip(n: Node, data: seq<int>, collapse: bool, D: seq<int>)
    requires WellFormed(n) && (collapse || NoHollowNode(n))
    requires WriteNode(n, data, collapse).0 <= D
    ensures var (d, h) := WriteNode(n, data, collapse);
      (h.mask != EmptyMask ==> h.offset < |d| && h.mask < 256)
      && Decode(D, h.mask, h.offset) == Some(Collapse(n))
    decreases n, 1
  {
    match n
    case Leaf(fs) =>
      if |fs| > 0 {
        var d := WriteNode(n, data, collapse).0;
        assert d == data + ([|fs|] + fs);
        assert D[|data|] == |fs|;
        assert D[|data| + 1..|data| + 1 + |fs|] == fs;
      }
    case Internal(cs) =>
      if !(collapse && AllEmptyLeaves(cs)) {
        InternalWritten(n, data, collapse);
        InternalRoundTrip(n, data, collapse, D);
      }
  }

  lemma {:induction false} InternalRoundTrip(n: Node, data: seq<int>, collapse: bool, D: seq<int>)
    requires n.Internal? && WellFormed(n) && (collapse || NoHollowNode(n))
    requires !(collapse && AllEmptyLeaves(n.children))
    requires var w := WriteChildren(n, 0, data, collapse); w.0 + w.1 <= D
    ensures var w := WriteChildren(n, 0, data, collapse);
      0 < MaskValue(w.2) < 256 && Decode(D, MaskValue(w.2), |w.0|) == Some(Collapse(n))
    decreases n, 0
  {
    var w := WriteChildren(n, 0, data, collapse);
    InternalMask(n, w.2);
    InternalDecodes(n, data, collapse, D);
  }

  /** The header of an internal node that is not collapsed decodes to the
      collapsed node. */
  lemma InternalDecodes(n: Node, data: seq<int>, collapse: bool, D: seq<int>)
    requires n.Internal? && WellFormed(n) && (collapse || NoHollowNode(n))
    requires !(collapse && AllEmptyLeaves(n.children))
    requires var w := WriteChildren(n, 0, data, collapse); w.0 + w.1 <= D
    ensures var w := WriteChildren(n, 0, data, collapse); Decode(D, MaskValue(w.2), |w.0|) == Some(Collapse(n))
    decreases n, 0, 9
  {
    var w := WriteChildren(n, 0, data, collapse);
    var off := |w.0|;
    PrefixTrans(w.0, w.0 + w.1, D);
    InternalMask(n, w.2);
    SliceOfPrefix(w.0, w.1, D);
    var m := MaskValue(w.2);
    assert |n.children| == 8 && |w.2| == 8 && |w.1| == 16;
    assert off + 16 <= |D| && D[off..off + 16] == w.1;
    assert 0 < m < 256 && forall i :: 0 <= i < 8 - 0 ==> MaskBit(m, 0 + i) == w.2[i];
    assert !AllEmptyLeaves(n.children);
    WriteChildrenRoundTrip(n, 0, data, collapse, D, off);
    DecodeWritten(D, n, w.1, w.2, off, MaskValue(w.2));
  }

  lemma SliceOfPrefix(a: seq<int>, b: seq<int>, D: seq<int>)
    requires a + b <= D
    ensures D[|a|..|a| + |b|] == b
  {
    assert D[..|a + b|] == a + b;
  }

  /** The headers of a node's children, when each decodes, decode to the
      collapsed node. */
  lemma DecodeWritten(D: seq<int>, n: Node, words: seq<int>, flags: seq<bool>, off: nat, m: int)
    requires n.Internal? && |n.children| == 8 && |flags| == 8 && |words| == 16
    requires off + 16 <= |D| && D[off..off + 16] == words
    requires 0 < m < 256 && forall i :: 0 <= i < 8 - 0 ==> MaskBit(m, 0 + i) == flags[i]
    requires ChildrenDecode(D, words, flags, n, 0, off)
    requires !AllEmptyLeaves(n.children)
    ensures Decode(D, m, off) == Some(Collapse(n))
  {
    assert D[off + 2 * 0..off + 16] == words;
    DecodeChildrenAll(D, m, off, flags, words, n, 0);
    DecodeInternal(D, m, off, CollapsedChildren(n, 0));
  }

  /** An internal node that is not collapsed is written as its children
      followed by their headers. */
  lemma InternalWritten(n: Node, data: seq<int>, collapse: bool)
    requires n.Internal? && !(collapse && AllEmptyLeaves(n.children))
    ensures var w := WriteChildren(n, 0, data, collapse);
      WriteNode(n, data, collapse) == (w.0 + w.1, Header(MaskValue(w.2), |w.0|))
  {
  }

  lemma InternalMask(n: Node, flags: seq<bool>)
    requires n.Internal? && |n.children| == 8 && |flags| == 8
    requires forall k :: 0 <= k < 8 ==> flags[k] == !IsEmptyLeaf(n.children[k])
    requires !AllEmptyLeaves(n.children)
    ensures 0 < MaskValue(flags) < 256 && MaskValue(flags) != EmptyMask
    ensures forall i :: 0 <= i < 8 - 0 ==> MaskBit(MaskValue(flags), 0 + i) == flags[i]
  {
    var k :| 0 <= k < 8 && !IsEmptyLeaf(n.children[k]);
    assert flags[k];
    MaskZero(flags);
    assert Pow2(8) == 256;
    forall i | 0 <= i < 8
      ensures MaskBit(MaskValue(flags), 0 + i) == flags[i]
    {
      MaskBits(flags, i);
    }
  }

  lemma DecodeInternal(D: seq<int>, m: int, off: nat, cs: seq<Node>)
    requires 0 < m < 256 && off + 16 <= |D|
    requires DecodeChildren(D, m, off, 0) == Some(cs)
    ensures Decode(D, m, off) == Some(Internal(cs))
  {
  }

  /** The headers `words` and flags written for the children from `i` on
      decode, one by one, to the collapsed children, with every child's
      words before `bound`. */
  ghost predicate ChildrenDecode(D: seq<int>, words: seq<int>, flags: seq<bool>, p: Node, i: nat, bound: nat)
    decreases 8 - i
  {
    p.Internal? && i < 8 && i < |p.children| ==>
      |words| >= 2 && |flags| >= 1
      && DecodeChild(D, flags[0], words[0], words[1], bound) == Some(Collapse(p.children[i]))
      && ChildrenDecode(D, words[2..], flags[1..], p, i + 1, bound)
  }

  /** The children loop writes, for each child from `i` on, a header that
      decodes to the collapsed child from any extension of the written
      data, against the parent's offset `bound`. */
  lemma {:induction false} WriteChildrenRoundTrip(p: Node, i: nat, data: seq<int>, collapse: bool, D: seq<int>,
                                                  bound: nat)
    requires p.Internal? && WellFormed(p) && i <= 8
    requires collapse || NoHollowNode(p)
    requires WriteChildren(p, i, data, collapse).0 <= D && |WriteChildren(p, i, data, collapse).0| <= bound
    ensures var w := WriteChildren(p, i, data, collapse); ChildrenDecode(D, w.1, w.2, p, i, bound)
    decreases p, 0, 8 - i
  {
    if i < 8 {
      var w := WriteChildren(p, i, data, collapse);
      var c := p.children[i];
      assert WellFormed(c) && (collapse || NoHollowNode(c));
      if IsEmptyLeaf(c) {
        var rest := WriteChildren(p, i + 1, data, collapse);
        assert w == (rest.0, [EmptyMask, 0] + rest.1, [false] + rest.2);
        WriteChildrenRoundTrip(p, i + 1, data, collapse, D, bound);
        assert w.1[2..] == rest.1 && w.2[1..] == rest.2;
      } else {
        var r1 := WriteNode(c, data, collapse);
        var rest := WriteChildren(p, i + 1, r1.0, collapse);
        assert w == (rest.0, [r1.1.mask, r1.1.offset] + rest.1, [true] + rest.2);
        PrefixTrans(r1.0, rest.0, D);
        WriteNodeRoundTrip(c, data, collapse, D);
        WriteChildrenRoundTrip(p, i + 1, r1.0, collapse, D, bound);
        assert w.1[2..] == rest.1 && w.2[1..] == rest.2;
      }
    }
  }

  lemma PrefixTrans(a: seq<int>, b: seq<int>, c: seq<int>)
    requires a <= b && b <= c
    ensures a <= c && |a| <= |b|
  {
    assert a == b[..|a|];
  }

  /** With every child header decoding to the collapsed child, the child
      list decodes to the collapsed children. */
  lemma {:induction false} DecodeChildrenAll(D: seq<int>, m: int, off: nat, flags: seq<bool>, words: seq<int>,
                                             p: Node, i: nat)
    requires p.Internal? && |p.children| == 8 && i <= 8
    requires |flags| == 8 - i && |words| == 2 * (8 - i)
    requires off + 16 <= |D| && D[off + 2 * i..off + 16] == words
    requires forall k :: 0 <= k < 8 - i ==> MaskBit(m, i + k) == flags[k]
    requires ChildrenDecode(D, words, flags, p, i, off)
    ensures DecodeChildren(D, m, off, i) == Some(CollapsedChildren(p, i))
    decreases 8 - i
  {
    if i < 8 {
      assert D[off + 2 * i] == words[0] && D[off + 2 * i + 1] == words[1];
      assert MaskBit(m, i + 0) == flags[0];
      assert D[off + 2 * (i + 1)..off + 16] == words[2..];
      forall k | 0 <= k < 8 - (i + 1)
        ensures MaskBit(m, (i + 1) + k) == flags[1..][k]
      {
        assert MaskBit(m, i + (k + 1)) == flags[k + 1];
      }
      DecodeChildrenAll(D, m, off, flags[1..], words[2..], p, i + 1);
      var c := DecodeChild(D, MaskBit(m, i), D[off + 2 * i], D[off + 2 * i + 1], off);
      assert c == Some(Collapse(p.children[i]));
    }
  }

  /** The corrected encoding reads back as the collapsed tree. */
  lemma EncodeRoundTrip(root: Node)
    requires WellFormed(root)
    ensures var (words, off) := Encode(root, true); DecodeTree(words, off) == Some(Collapse(root))
  {
    var (d, h) := WriteNode(root, [], true);
    var words := d + [h.mask, h.offset];
    WriteNodeRoundTrip(root, [], true, words);
  }

  /** As written, trees without hollow nodes read back exactly. */
  lemma EncodeAsWrittenRoundTrip(root: Node)
    requires WellFormed(root) && NoHollowNode(root)
    ensures var (words, off) := EncodeAsWritten(root); DecodeTree(words, off) == Some(root)
  {
    var (d, h) := WriteNode(root, [], false);
    var words := d + [h.mask, h.offset];
    WriteNodeRoundTrip(root, [], false, words);
    CollapseNoHollow(root);
  }

  /** Children that are all empty leaves add no data and only `0x100`
      headers. */
  lemma {:induction false} WriteEmptyChildren(p: Node, i: nat, data: seq<int>, collapse: bool)
    requires p.Internal? && i <= |p.children|
    requires forall k :: i <= k < |p.children| ==> IsEmptyLeaf(p.children[k])
    ensures var w := WriteChildren(p, i, data, collapse);
      w.0 == data && forall k :: 0 <= k < |w.2| ==> w.1[2 * k] == EmptyMask
    decreases |p.children| - i
  {
    if i < |p.children| {
      WriteEmptyChildren(p, i + 1, data, collapse);
      var w := WriteChildren(p, i, data, collapse);
      var rest := WriteChildren(p, i + 1, data, collapse);
      assert w.1 == [EmptyMask, 0] + rest.1;
      forall k | 0 <= k < |w.2|
        ensures w.1[2 * k] == EmptyMask
      {
        if k > 0 {
          assert w.1[2 * k] == rest.1[2 * (k - 1)];
        }
      }
    }
  }

  /** A hollow node, written as it is, has mask 0 and eight `0x100`
      child headers. */
  lemma HollowWritten(hollow: Node)
    requires hollow == Internal(seq(8, k => Leaf([])))
    ensures var hw := WriteChildren(hollow, 0, [], false);
      WriteNode(hollow, [], false) == (hw.1, Header(0, 0))
      && |hw.1| == 16 && hw.1[0] == EmptyMask
  {
    assert forall k :: 0 <= k < 8 ==> hollow.children[k] == Leaf([]);
    WriteEmptyChildren(hollow, 0, [], false);
    var hw := WriteChildren(hollow, 0, [], false);
    assert hw.0 == [];
    assert forall k :: 0 <= k < |hw.2| ==> !hw.2[k];
    MaskZero(hw.2);
    InternalWritten(hollow, [], false);
    assert hw.0 + hw.1 == hw.1;
  }

  /** As written, the root whose first child is hollow: that child's
      header is `(0, 0)` though the word at offset 0 is a `0x100` header,
      and the root's header is `(m, 16)` with bit 0 of `m` set. */
  lemma HollowRootWritten(hollow: Node, root: Node) returns (words: seq<int>, m: int)
    requires hollow == Internal(seq(8, k => Leaf([])))
    requires root == Internal([hollow] + seq(7, k => Leaf([])))
    ensures EncodeAsWritten(root) == (words, 32)
    ensures |words| == 34 && words[32] == m && words[33] == 16
    ensures words[16] == 0 && words[17] == 0 && words[0] == EmptyMask
    ensures 0 < m < 256 && MaskBit(m, 0)
  {
    var hw := WriteChildren(hollow, 0, [], false);
    HollowWritten(hollow);
    assert !AllEmptyLeaves(root.children) by {
      assert !IsEmptyLeaf(root.children[0]);
    }
    WriteEmptyChildren(root, 1, hw.1, false);
    var rest := WriteChildren(root, 1, hw.1, false);
    var w := WriteChildren(root, 0, [], false);
    assert w == (hw.1, [0, 0] + rest.1, [true] + rest.2);
    m := MaskValue(w.2);
    MaskBits(w.2, 0);
    assert m < 256 by {
      assert Pow2(8) == 256;
    }
    assert WriteNode(root, [], false) == (hw.1 + w.1, Header(m, 16));
    words := hw.1 + w.1 + [m, 16];
  }

  /** As written, a hollow child is given mask 0, the mask of a non-empty
      leaf: the tree whose first child is hollow does not read back,
      while the corrected encoding reads it back collapsed. */
  lemma HollowChildMisread()
    ensures var hollow := Internal(seq(8, k => Leaf([])));
      var root := Internal([hollow] + seq(7, k => Leaf([])));
      WellFormed(root)
      && WriteNode(hollow, [], false).1 == Header(0, 0)
      && DecodeTree(EncodeAsWritten(root).0, EncodeAsWritten(root).1) == None
      && DecodeTree(Encode(root, true).0, Encode(root, true).1) == Some(Collapse(root))
  {
    var hollow := Internal(seq(8, k => Leaf([])));
    var root := Internal([hollow] + seq(7, k => Leaf([])));
    assert WellFormed(hollow);
    assert WellFormed(root);
    EncodeRoundTrip(root);

    HollowWritten(hollow);
    var words, m := HollowRootWritten(hollow, root);
    assert Decode(words, 0, 0) == None;
    assert DecodeChild(words, MaskBit(m, 0), words[16], words[17], 16) == None;
    assert DecodeChildren(words, m, 16, 0) == None;
    assert Decode(words, m, 16) == None;
  }
}
