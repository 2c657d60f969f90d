/**
 The wire format of one node, as `Serializer::write` lays it out and
 `Serializer::read` takes it apart:

   layer (1) | label length (1) | label | content size (4) | flag (1) | content

 The content is the payload (flag 1) or the records of the children, one after
 the other, each written one layer deeper (flag 0). The four-byte size is
 stored little-endian here; serializer.cpp stores it in the host's byte order.
 */
module Wire {
  import opened Wrappers
  import opened Tree

  /** The four bytes of the content-size field, least significant first. */
  function LittleEndian32(x: nat): (b: seq<uint8>)
    requires x < SizeLimit
    ensures |b| == 4
  {
    [(x % 0x100) as uint8,
     (x / 0x100 % 0x100) as uint8,
     (x / 0x1_0000 % 0x100) as uint8,
     (x / 0x100_0000) as uint8]
  }

  /** The number a four-byte content-size field holds. */
  function FromLittleEndian32(b: seq<uint8>): (x: nat)
    requires |b| == 4
    ensures x < SizeLimit
  {
    b[0] as nat + 0x100 * b[1] as nat + 0x1_0000 * b[2] as nat + 0x100_0000 * b[3] as nat
  }

  /** Reading back a written size field gives the size. */
  lemma SizeFieldRoundTrip(x: nat)
    requires x < SizeLimit
    ensures FromLittleEndian32(LittleEndian32(x)) == x
  {
    var q1 := x / 0x100;
    var q2 := q1 / 0x100;
    var q3 := q2 / 0x100;
    assert x == x % 0x100 + 0x100 * q1;
    assert q1 == q1 % 0x100 + 0x100 * q2;
    assert q2 == q2 % 0x100 + 0x100 * q3;
    DivUnique(x, 0x1_0000, q2, x % 0x100 + 0x100 * (q1 % 0x100));
    DivUnique(x, 0x100_0000, q3, x % 0x100 + 0x100 * (q1 % 0x100) + 0x1_0000 * (q2 % 0x100));
  }

  /** Every four bytes are the field of exactly one size. */
  lemma SizeFieldBytesRoundTrip(b: seq<uint8>)
    requires |b| == 4
    ensures LittleEndian32(FromLittleEndian32(b)) == b
  {
    var x := FromLittleEndian32(b);
    var b0, b1, b2, b3 := b[0] as int, b[1] as int, b[2] as int, b[3] as int;
    DivUnique(x, 0x100, b1 + 0x100 * b2 + 0x1_0000 * b3, b0);
    DivUnique(x / 0x100, 0x100, b2 + 0x100 * b3, b1);
    DivUnique(x, 0x1_0000, b2 + 0x100 * b3, b0 + 0x100 * b1);
    DivUnique(x / 0x1_0000, 0x100, b3, b2);
    DivUnique(x, 0x100_0000, b3, b0 + 0x100 * b1 + 0x1_0000 * b2);
  }

  /** Quotient and remainder are the only ones with the remainder in range. */
  lemma DivUnique(x: int, d: int, q: int, r: int)
    requires d > 0 && 0 <= r < d && x == d * q + r
    ensures x / d == q && x % d == r
  {
    var k := q - x / d;
    assert d * k == x % d - r;
    MulAwayFromZero(d, k);
  }

  /** A positive number times a non-zero integer is at least that number away
      from zero. */
  lemma MulAwayFromZero(d: int, k: int)
    ensures d > 0 && k > 0 ==> d * k >= d
    ensures d > 0 && k < 0 ==> d * k <= -d
  {
  }

  /** The layer of a child record: `layer + 1` passed on as an `unsigned char`. */
  function NextLayer(layer: uint8): (r: uint8)
    ensures r as int == (layer as int + 1) % 0x100
  {
    if layer == 0xFF then 0 else layer + 1
  }

  /** The payload flag: 1 exactly when the node holds a payload. */
  function Flag(n: Node): (r: uint8)
    ensures r == 1 <==> n.Leaf?
    ensures r == 0 <==> n.Internal?
  {
    if n.Leaf? then 1 else 0
  }

  /** The seven-byte header with the label spliced in. The label length and the
      content size are narrowed to their fields as serializer.cpp's casts do. */
  function Header(n: Node, layer: uint8): (h: seq<uint8>)
    ensures |h| == HeaderSize + |n.name|
  {
    [layer, (|n.name| % 0x100) as uint8] + n.name
      + LittleEndian32(ContentSize(n) % SizeLimit) + [Flag(n)]
  }

  /** The record `write` produces for `n` at depth `layer`; it is exactly `size()`
      bytes long. */
  function Encode(n: Node, layer: uint8): (e: seq<uint8>)
    ensures |e| == Size(n)
    decreases n, 1
  {
    Header(n, layer) + Content(n, layer)
  }

  /** The content part of a record: the payload, or the children one layer deeper. */
  function Content(n: Node, layer: uint8): (c: seq<uint8>)
    ensures |c| == ContentSize(n)
    decreases n, 0
  {
    match n
    case Leaf(_, payload) => payload
    case Internal(_, children) => EncodeSeq(children, NextLayer(layer))
  }

  /** The records of sibling nodes, in list order. */
  function EncodeSeq(cs: seq<Node>, layer: uint8): (e: seq<uint8>)
    ensures |e| == SumSizes(cs)
    decreases cs
  {
    if cs == [] then [] else Encode(cs[0], layer) + EncodeSeq(cs[1..], layer)
  }

  /** `read`: one record from the start of `s`, with the number of bytes it takes,
      or None when `s` ends too early. The label length is read as unsigned (see
      `SignedLabelLength` for what serializer.cpp does instead). Every record takes
      at least seven bytes, so serializer.cpp's zero-consumption error cannot occur,
      and the bytes taken are always the size of the node read. */
  function Decode(s: seq<uint8>): (r: Option<(Node, nat)>)
    ensures r.Some? ==> HeaderSize <= r.value.1 <= |s|
    ensures r.Some? ==> r.value.1 == Size(r.value.0)
    decreases |s|, 1
  {
    if |s| < 2 then None
    else
      var sizeAt := 2 + s[1] as nat;
      if |s| < sizeAt + 5 then None
      else
        var name := s[2..sizeAt];
        var contentSize := FromLittleEndian32(s[sizeAt..sizeAt + 4]);
        var start := sizeAt + 5;
        if s[sizeAt + 4] != 0 then
          if |s| < start + contentSize then None
          else Some((Leaf(name, s[start..start + contentSize]), start + contentSize))
        else DecodeInternal(s, name, start, contentSize)
  }

  /** The rest of `read` for a record whose flag is 0: its children, read from
      `start`, where the header ends. */
  function DecodeInternal(s: seq<uint8>, name: seq<uint8>, start: nat, contentSize: nat): (r: Option<(Node, nat)>)
    requires start == HeaderSize + |name| <= |s|
    ensures r.Some? ==> r.value.0.Internal? && r.value.0.name == name
    ensures r.Some? ==> HeaderSize <= r.value.1 <= |s| && r.value.1 == Size(r.value.0)
    decreases |s|, 0
  {
    match DecodeChildren(s[start..], contentSize)
    case None => None
    case Some((children, used)) => Some((Internal(name, children), start + used))
  }

  /** The children of an internal record, read from the start of `t` while fewer
      than `left` bytes of the declared content have been consumed, with the bytes
      they take. Each child is read from the rest of the whole buffer, as in
      serializer.cpp, so the last one may run past the declared content. */
  function DecodeChildren(t: seq<uint8>, left: int): (r: Option<(seq<Node>, nat)>)
    ensures r.Some? ==> left <= r.value.1 <= |t|
    ensures r.Some? ==> r.value.1 == SumSizes(r.value.0)
    decreases |t|, 2
  {
    if left <= 0 then Some(([], 0))
    else
      match Decode(t)
      case None => None
      case Some((child, used)) => Prepend([child], used, DecodeChildren(t[used..], left - used))
  }

  /** Each child record takes at least the seven header bytes, so the children
      loop reads at most one child per seven bytes of its buffer. */
  lemma {:induction false} DecodeChildrenCount(t: seq<uint8>, left: int)
    requires DecodeChildren(t, left).Some?
    ensures HeaderSize * |DecodeChildren(t, left).value.0| <= |t|
  {
    SumSizesAtLeast(DecodeChildren(t, left).value.0);
  }

  /** The children already read, taking `k` bytes, in front of the outcome of
      reading the others. */
  function Prepend(done: seq<Node>, k: nat, rest: Option<(seq<Node>, nat)>): (r: Option<(seq<Node>, nat)>)
    ensures r.Some? <==> rest.Some?
    ensures r.Some? ==> r.value == (done + rest.value.0, k + rest.value.1)
  {
    match rest
    case None => None
    case Some((more, m)) => Some((done + more, k + m))
  }

  /** The decode constructor: one record that must take the whole buffer. */
  function DecodeExact(s: seq<uint8>): (r: Option<Node>)
    ensures r.Some? ==> Size(r.value) == |s|
  {
    match Decode(s)
    case Some((n, used)) => if used == |s| then Some(n) else None
    case None => None
  }

  /** Records of siblings concatenate like the lists of siblings. */
  lemma {:induction false} EncodeSeqConcat(a: seq<Node>, b: seq<Node>, layer: uint8)
    ensures EncodeSeq(a + b, layer) == EncodeSeq(a, layer) + EncodeSeq(b, layer)
    decreases a
  {
    if a == [] {
      assert a + b == b;
    } else {
      assert (a + b)[0] == a[0];
      assert (a + b)[1..] == a[1..] + b;
      EncodeSeqConcat(a[1..], b, layer);
    }
  }

  /** The seven header bytes of a record whose label and content size fit their
      fields: the layer, the label length, the label, the size field, the flag. */
  lemma HeaderLayout(n: Node, layer: uint8)
    requires |n.name| <= MaxName && ContentSize(n) < SizeLimit
    ensures var h, k := Header(n, layer), |n.name|;
      && |h| == HeaderSize + k
      && h[0] == layer
      && h[1] as int == k
      && h[2..2 + k] == n.name
      && h[2 + k..6 + k] == LittleEndian32(ContentSize(n))
      && h[6 + k] == Flag(n)
  {
    var c := ContentSize(n);
    assert c % SizeLimit == c;
    FieldsLayout(layer, n.name, LittleEndian32(c), Flag(n));
  }

  /** Where each field of a header lies, for any label and size field. */
  lemma FieldsLayout(layer: uint8, name: seq<uint8>, field: seq<uint8>, flag: uint8)
    requires |field| == 4
    ensures var h, k := [layer, (|name| % 0x100) as uint8] + name + field + [flag], |name|;
      && |h| == HeaderSize + k
      && h[0] == layer
      && h[1] as int == k % 0x100
      && h[2..2 + k] == name
      && h[2 + k..6 + k] == field
      && h[6 + k] == flag
  {
    var k := |name|;
    var front := [layer, (k % 0x100) as uint8] + name;
    var h := front + (field + [flag]);
    assert [layer, (k % 0x100) as uint8] + name + field + [flag] == h;
    assert h[2..2 + k] == front[2..] == name;
    assert h[2 + k..6 + k] == (field + [flag])[..4] == field;
  }

  /** The byte layout of a well-formed record, whatever follows it: the layer,
      the label length, the label, the content size, a flag that is 1 exactly for
      a leaf, then the content. */
  lemma EncodeLayout(n: Node, layer: uint8, rest: seq<uint8>)
    requires WellFormed(n)
    ensures var e, k := Encode(n, layer) + rest, |n.name|;
      && |e| >= HeaderSize + k
      && e[0] == layer
      && e[1] as int == k
      && e[2..2 + k] == n.name
      && FromLittleEndian32(e[2 + k..6 + k]) == ContentSize(n)
      && (e[6 + k] == 1 <==> n.Leaf?)
      && (e[6 + k] == 0 <==> n.Internal?)
      && e[HeaderSize + k..] == Content(n, layer) + rest
  {
    var h, tail := Header(n, layer), Content(n, layer) + rest;
    HeaderLayout(n, layer);
    assert Encode(n, layer) + rest == h + tail;
    HeaderThenContent(h, |n.name|, tail);
    SizeFieldRoundTrip(ContentSize(n));
  }

  /** A header followed by anything keeps its fields where they were. */
  lemma HeaderThenContent(h: seq<uint8>, k: nat, tail: seq<uint8>)
    requires |h| == HeaderSize + k
    ensures var e := h + tail;
      && e[0] == h[0] && e[1] == h[1] && e[6 + k] == h[6 + k]
      && e[2..2 + k] == h[2..2 + k]
      && e[2 + k..6 + k] == h[2 + k..6 + k]
      && e[HeaderSize + k..] == tail
  {
  }

  /** Round trip: `read` on the output of `write`, followed by anything, gives
      back the node (label, payload or children, at every depth) and takes
      exactly `size()` bytes. */
  lemma {:induction false} DecodeEncode(n: Node, layer: uint8, rest: seq<uint8>)
    requires WellFormed(n)
    ensures Decode(Encode(n, layer) + rest) == Some((n, Size(n)))
    decreases n
  {
    var s, k := Encode(n, layer) + rest, |n.name|;
    EncodeLayout(n, layer, rest);
    var start := HeaderSize + k;
    match n
    case Leaf(_, payload) =>
      assert s[start..start + |payload|] == payload;
    case Internal(name, children) =>
      DecodeChildrenEncode(children, NextLayer(layer), rest);
  }

  /** Reading the children back from their concatenated records. */
  lemma {:induction false} DecodeChildrenEncode(cs: seq<Node>, layer: uint8, rest: seq<uint8>)
    requires forall c :: c in cs ==> WellFormed(c)
    ensures DecodeChildren(EncodeSeq(cs, layer) + rest, SumSizes(cs)) == Some((cs, SumSizes(cs)))
    decreases cs
  {
    if cs != [] {
      var t, u := EncodeSeq(cs, layer) + rest, EncodeSeq(cs[1..], layer) + rest;
      DecodeFirstRecord(cs, layer, rest);
      DecodeChildrenEncode(cs[1..], layer, rest);
      DecodeChildrenFirst(t, SumSizes(cs), cs[0], Size(cs[0]), u, SumSizes(cs[1..]));
      SplitFirst(cs);
    }
  }

  /** The first of several sibling records decodes, and the others follow it. */
  lemma DecodeFirstRecord(cs: seq<Node>, layer: uint8, rest: seq<uint8>)
    requires cs != [] && WellFormed(cs[0])
    ensures var t := EncodeSeq(cs, layer) + rest;
      && Decode(t) == Some((cs[0], Size(cs[0])))
      && t[Size(cs[0])..] == EncodeSeq(cs[1..], layer) + rest
  {
    var first, tail := Encode(cs[0], layer), EncodeSeq(cs[1..], layer) + rest;
    assert EncodeSeq(cs, layer) + rest == first + tail;
    DecodeEncode(cs[0], layer, tail);
  }

  /** `DecodeChildren` reads the first child, then the others after it. */
  lemma DecodeChildrenFirst(t: seq<uint8>, left: int, child: Node, used: nat, t': seq<uint8>, left': int)
    requires left > 0 && Decode(t) == Some((child, used))
    requires t' == t[used..] && left' == left - used
    ensures DecodeChildren(t, left) == Prepend([child], used, DecodeChildren(t', left'))
  {
  }

  /** Truncation detection: no strict prefix of a record decodes. */
  lemma DecodeTruncated(n: Node, layer: uint8, k: nat)
    requires WellFormed(n)
    requires k < Size(n)
    ensures Decode(Encode(n, layer)[..k]) == None
  {
    var e := Encode(n, layer);
    EncodeLayout(n, layer, []);
    assert e + [] == e;
    var s, l := e[..k], |n.name|;
    var start := HeaderSize + l;
    if k >= start {
      PrefixSlice(e, k, 2, 2 + l);
      PrefixSlice(e, k, 2 + l, 6 + l);
      match n
      case Leaf(_, _) =>
      case Internal(_, children) =>
        var content := EncodeSeq(children, NextLayer(layer));
        assert s[start..] == content[..k - start];
        DecodeChildrenTruncated(children, NextLayer(layer), k - start);
    }
  }

  /** A slice of a prefix is the same slice of the whole. */
  lemma PrefixSlice(e: seq<uint8>, k: nat, i: nat, j: nat)
    requires i <= j <= k <= |e|
    ensures e[..k][i..j] == e[i..j]
  {
  }

  /** Reading children from a strict prefix of their records fails: a
      corollary of `DecodeChildren`'s bounds, since the children read take at
      least the declared size, which is more than the prefix holds. */
  lemma DecodeChildrenTruncated(cs: seq<Node>, layer: uint8, m: nat)
    requires m < SumSizes(cs)
    ensures DecodeChildren(EncodeSeq(cs, layer)[..m], SumSizes(cs)) == None
  {
  }

  /** The decode constructor accepts a record exactly when nothing follows it,
      and then gives back the node that was written. */
  lemma DecodeExactEncode(n: Node, layer: uint8, rest: seq<uint8>)
    requires WellFormed(n)
    ensures DecodeExact(Encode(n, layer) + rest) == if rest == [] then Some(n) else None
  {
    DecodeEncode(n, layer, rest);
  }

  /** The decode constructor rejects a record cut short by any number of bytes. */
  lemma DecodeExactTruncated(n: Node, layer: uint8, k: nat)
    requires WellFormed(n)
    requires k < Size(n)
    ensures DecodeExact(Encode(n, layer)[..k]) == None
  {
    DecodeTruncated(n, layer, k);
  }

  /** The label-length byte as serializer.cpp's `read` holds it: in a plain `char`,
      which is signed on common platforms, so that 128 to 255 become negative. */
  function SignedLabelLength(b: uint8): (r: int)
    ensures -0x80 <= r < 0x80
    ensures r % 0x100 == b as int
  {
    if b < 0x80 then b as int else b as int - 0x100
  }

  /** The label serializer.cpp's `read` obtains from a record: its copy loop runs
      while the loop index is below the signed length, so not at all when that
      length is negative. */
  function LabelAsWritten(s: seq<uint8>): (r: seq<uint8>)
    requires |s| >= 2 && 2 + SignedLabelLength(s[1]) <= |s|
    ensures |r| < 0x80 && 2 + |r| <= |s| && r == s[2..2 + |r|]
    ensures s[1] < 0x80 ==> |r| == s[1] as int
    ensures s[1] >= 0x80 ==> r == []
  {
    var length := SignedLabelLength(s[1]);
    if length > 0 then s[2..2 + length] else []
  }

  /** The C++ code's label read gives back exactly the labels shorter than 128
      bytes; a label of 128 bytes or more comes back empty, while `Decode`, which
      reads the length unsigned, restores every label (see `DecodeEncode`). */
  lemma LabelAsWrittenRoundTrip(n: Node, layer: uint8)
    requires WellFormed(n)
    ensures var e := Encode(n, layer);
      && |e| >= 2 && 2 + SignedLabelLength(e[1]) <= |e|
      && (LabelAsWritten(e) == n.name <==> |n.name| < 0x80)
    ensures |n.name| >= 0x80 ==> LabelAsWritten(Encode(n, layer)) == []
  {
    EncodeLayout(n, layer, []);
    assert Encode(n, layer) + [] == Encode(n, layer);
  }
}
