/** The optional value of the model (serializer.cpp's nullable pointer). */
module Wrappers {
  datatype Option<+T> = None | Some(value: T)
}

/**
 The labelled tree that the serializer stores, and the sizes it computes for it
 (`Serializer::size`, `Serializer::getDataSize`).
 */
module Tree {
  /** One byte of a buffer or of a label. */
  newtype uint8 = x: int | 0 <= x < 0x100

  /** Bytes of every record besides its label and content:
      layer (1), label length (1), content size (4), payload flag (1). */
  const HeaderSize: nat := 7

  /** The longest label the one-byte length field can describe. */
  const MaxName: nat := 0xFF

  /** Content sizes must be below this to fit the four-byte size field. */
  const SizeLimit: nat := 0x1_0000_0000

  /** A node holds a label (field `name`, as `label` is a Dafny keyword) and either
      a payload (a leaf: serializer.cpp's `data` is non-null) or an ordered list of
      children (an internal node: `data` is null). A node with neither payload nor
      children is `Internal(name, [])`. */
  datatype Node =
    | Leaf(name: seq<uint8>, payload: seq<uint8>)
    | Internal(name: seq<uint8>, children: seq<Node>)

  /** `getDataSize`: the payload length of a leaf, the sum of the full sizes of the
      children of an internal node. */
  function ContentSize(n: Node): nat
    decreases n, 0
  {
    match n
    case Leaf(_, payload) => |payload|
    case Internal(_, children) => SumSizes(children)
  }

  /** `size`: the number of bytes of the node's whole record. */
  function Size(n: Node): (r: nat)
    ensures r >= HeaderSize + |n.name|
    decreases n, 1
  {
    HeaderSize + |n.name| + ContentSize(n)
  }

  /** The summed full sizes of a list of sibling nodes. */
  function SumSizes(cs: seq<Node>): nat
    decreases cs
  {
    if cs == [] then 0 else Size(cs[0]) + SumSizes(cs[1..])
  }

  /** A node the format can represent: every label fits the one-byte length field
      and every content size fits the four-byte size field. */
  predicate WellFormed(n: Node) {
    && |n.name| <= MaxName
    && ContentSize(n) < SizeLimit
    && (n.Internal? ==> forall c :: c in n.children ==> WellFormed(c))
  }

  /** Sizes add up over concatenated sibling lists. */
  lemma {:induction false} SumSizesConcat(a: seq<Node>, b: seq<Node>)
    ensures SumSizes(a + b) == SumSizes(a) + SumSizes(b)
    decreases a
  {
    if a != [] {
      assert (a + b)[1..] == a[1..] + b;
      SumSizesConcat(a[1..], b);
    } else {
      assert a + b == b;
    }
  }

  /** The size of a list extended by one node. */
  lemma SumSizesSnoc(cs: seq<Node>, c: Node)
    ensures SumSizes(cs + [c]) == SumSizes(cs) + Size(c)
  {
    SumSizesConcat(cs, [c]);
    assert [c][1..] == [];
  }

  /** The size of the first `i + 1` nodes of a list. */
  lemma SumSizesTake(cs: seq<Node>, i: nat)
    requires i < |cs|
    ensures SumSizes(cs[..i + 1]) == SumSizes(cs[..i]) + Size(cs[i])
  {
    var before := cs[..i];
    assert cs[..i + 1] == before + [cs[i]];
    SumSizesSnoc(before, cs[i]);
  }

  /** A prefix of a sibling list never needs more room than the whole list. */
  lemma SumSizesPrefix(cs: seq<Node>, i: nat)
    requires i <= |cs|
    ensures SumSizes(cs[..i]) + SumSizes(cs[i..]) == SumSizes(cs)
  {
    SumSizesConcat(cs[..i], cs[i..]);
    assert cs[..i] + cs[i..] == cs;
  }

  /** Every sibling takes at least a header's worth of bytes. */
  lemma {:induction false} SumSizesAtLeast(cs: seq<Node>)
    ensures SumSizes(cs) >= HeaderSize * |cs|
    decreases cs
  {
    if cs != [] {
      SumSizesAtLeast(cs[1..]);
    }
  }

  /** A non-empty list is its first node followed by the others. */
  lemma SplitFirst(cs: seq<Node>)
    requires cs != []
    ensures [cs[0]] + cs[1..] == cs
  {
  }
}
