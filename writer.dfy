/**
 `Serializer::write`: the records of a tree stored into a caller's buffer, from
 a start position, with a cursor that advances byte by byte.
 */
module Writer {
  import opened Wrappers
  import opened Tree
  import opened Wire

  /** The buffer `s` after `bytes` are stored one by one from position `at`. */
  function Splice(s: seq<uint8>, at: nat, bytes: seq<uint8>): (r: seq<uint8>)
    requires at + |bytes| <= |s|
    ensures |r| == |s|
    decreases |bytes|
  {
    if bytes == [] then s
    else Splice(s, at, bytes[..|bytes| - 1])[at + |bytes| - 1 := bytes[|bytes| - 1]]
  }

  /** A splice holds `bytes` from `at` and the old buffer everywhere else. */
  lemma {:induction false} SpliceAt(s: seq<uint8>, at: nat, bytes: seq<uint8>, j: nat)
    requires at + |bytes| <= |s| && j < |s|
    ensures Splice(s, at, bytes)[j] == if at <= j < at + |bytes| then bytes[j - at] else s[j]
    decreases |bytes|
  {
    if bytes != [] {
      var front := bytes[..|bytes| - 1];
      SpliceAt(s, at, front, j);
    }
  }

  /** The same, for the three parts of the buffer at once. */
  lemma SpliceParts(s: seq<uint8>, at: nat, bytes: seq<uint8>)
    requires at + |bytes| <= |s|
    ensures Splice(s, at, bytes)[at..at + |bytes|] == bytes
    ensures Splice(s, at, bytes)[..at] == s[..at]
    ensures Splice(s, at, bytes)[at + |bytes|..] == s[at + |bytes|..]
  {
    var r := Splice(s, at, bytes);
    forall j | 0 <= j < |s|
      ensures r[j] == if at <= j < at + |bytes| then bytes[j - at] else s[j]
    {
      SpliceAt(s, at, bytes, j);
    }
  }

  /** Storing one more byte after the bytes stored so far. */
  lemma SpliceExtend(s: seq<uint8>, at: nat, bytes: seq<uint8>, b: uint8)
    requires at + |bytes| < |s|
    ensures Splice(s, at, bytes)[at + |bytes| := b] == Splice(s, at, bytes + [b])
  {
    assert (bytes + [b])[..|bytes|] == bytes;
  }

  /** Storing `x` and then `y` right after it is storing `x + y`. */
  lemma {:induction false} SpliceSplice(s: seq<uint8>, at: nat, x: seq<uint8>, y: seq<uint8>)
    requires at + |x| + |y| <= |s|
    ensures Splice(Splice(s, at, x), at + |x|, y) == Splice(s, at, x + y)
    decreases |y|
  {
    if y == [] {
      assert x + y == x;
    } else {
      var front, b := y[..|y| - 1], y[|y| - 1];
      SpliceSplice(s, at, x, front);
      assert (x + y)[..|x + y| - 1] == x + front;
    }
  }

  /** Storing nothing changes nothing. */
  lemma SpliceEmpty(s: seq<uint8>, at: nat)
    requires at <= |s|
    ensures Splice(s, at, []) == s
  {
  }

  /** Stores `bytes` at `place[at..]` one byte at a time (the label loop and the
      payload `memcpy` of `write`) and leaves every other byte alone. */
  method CopyInto(place: array<uint8>, at: nat, bytes: seq<uint8>)
    requires at + |bytes| <= place.Length
    modifies place
    ensures place[..] == Splice(old(place[..]), at, bytes)
  {
    SpliceEmpty(place[..], at);
    for i := 0 to |bytes|
      invariant place[..] == Splice(old(place[..]), at, bytes[..i])
    {
      SpliceExtend(old(place[..]), at, bytes[..i], bytes[i]);
      assert bytes[..i] + [bytes[i]] == bytes[..i + 1];
      place[at + i] := bytes[i];
    }
    assert bytes[..|bytes|] == bytes;
  }

  /** Stores the header of `n` at `place[start..]` field by field: layer, label
      length, label, content size and payload flag, the two numbers narrowed to
      their fields as serializer.cpp's casts do. */
  method WriteHeader(n: Node, place: array<uint8>, start: nat, layer: uint8)
    requires start + HeaderSize + |n.name| <= place.Length
    modifies place
    ensures place[..] == Splice(old(place[..]), start, Header(n, layer))
  {
    ghost var s := place[..];
    var k := |n.name|;
    var lengths := [layer, (k % 0x100) as uint8];
    var field := LittleEndian32(ContentSize(n) % SizeLimit);
    CopyInto(place, start, lengths);
    ghost var s1 := place[..];
    CopyInto(place, start + 2, n.name);
    ghost var s2 := place[..];
    CopyInto(place, start + 2 + k, field);
    ghost var s3 := place[..];
    CopyInto(place, start + 6 + k, [Flag(n)]);
    FourSplices(s, start, lengths, n.name, field, [Flag(n)], s1, s2, s3, place[..]);
  }

  /** Storing four pieces one after the other stores their concatenation. */
  lemma FourSplices(s: seq<uint8>, at: nat, a: seq<uint8>, b: seq<uint8>, c: seq<uint8>, d: seq<uint8>,
                    s1: seq<uint8>, s2: seq<uint8>, s3: seq<uint8>, s4: seq<uint8>)
    requires at + |a| + |b| + |c| + |d| <= |s|
    requires s1 == Splice(s, at, a)
    requires s2 == Splice(s1, at + |a|, b)
    requires s3 == Splice(s2, at + |a| + |b|, c)
    requires s4 == Splice(s3, at + |a| + |b| + |c|, d)
    ensures s4 == Splice(s, at, a + b + c + d)
  {
    SpliceSplice(s, at, a, b);
    SpliceSplice(s, at, a + b, c);
    SpliceSplice(s, at, a + b + c, d);
  }

  /** Writes the record of `n` at depth `layer` into `place[start..start + size]`.
      When `size` is below `Size(n)` nothing is written and 0 is returned;
      otherwise exactly `Encode(n, layer)` is written and its length returned. */
  method WriteNode(n: Node, place: array<uint8>, start: nat, size: nat, layer: uint8)
    returns (written: nat)
    requires start + size <= place.Length
    modifies place
    ensures size < Size(n) ==> written == 0 && place[..] == old(place[..])
    ensures size >= Size(n) ==> written == Size(n)
    ensures size >= Size(n) ==> place[..] == Splice(old(place[..]), start, Encode(n, layer))
    decreases n, 1
  {
    if size < Size(n) {
      return 0;
    }
    ghost var s := place[..];
    RecordParts(n, layer);
    WriteHeader(n, place, start, layer);
    var ptr := start + HeaderSize + |n.name|;
    var used: nat;
    match n {
      case Leaf(_, payload) =>
        CopyInto(place, ptr, payload);
        used := |payload|;
      case Internal(_, children) =>
        used := WriteChildren(children, place, ptr, start + size - ptr, NextLayer(layer));
    }
    SpliceSplice(s, start, Header(n, layer), Content(n, layer));
    written := ptr + used - start;
  }

  /** How a record is assembled: its header, then its content. */
  lemma RecordParts(n: Node, layer: uint8)
    ensures Encode(n, layer) == Header(n, layer) + Content(n, layer)
    ensures |Header(n, layer)| == HeaderSize + |n.name|
    ensures Size(n) == HeaderSize + |n.name| + ContentSize(n)
    ensures n.Leaf? ==> Content(n, layer) == n.payload && ContentSize(n) == |n.payload|
    ensures n.Internal? ==> Content(n, layer) == EncodeSeq(n.children, NextLayer(layer))
    ensures n.Internal? ==> ContentSize(n) == SumSizes(n.children)
  {
  }

  /** The loop of `write` over the children: each child's record in list order,
      each written into the room left after the ones before it. That room always
      suffices, so serializer.cpp's error for a child that reports 0 bytes cannot
      occur. */
  method WriteChildren(children: seq<Node>, place: array<uint8>, start: nat, room: nat, layer: uint8)
    returns (written: nat)
    requires SumSizes(children) <= room && start + room <= place.Length
    modifies place
    ensures written == SumSizes(children)
    ensures place[..] == Splice(old(place[..]), start, EncodeSeq(children, layer))
    decreases children, 0
  {
    ghost var s := place[..];
    SpliceEmpty(s, start);
    var ptr := start;
    for i := 0 to |children|
      invariant SumSizes(children[..i]) <= SumSizes(children)
      invariant ptr == start + SumSizes(children[..i])
      invariant place[..] == Splice(s, start, EncodeSeq(children[..i], layer))
    {
      WriteChildStep(children, i);
      ghost var before := place[..];
      var w := WriteNode(children[i], place, ptr, start + room - ptr, layer);
      // `write` throws here when a child reports 0 bytes; it never does.
      assert w != 0;
      ChildSplice(s, start, children, i, layer, before, ptr, place[..]);
      ptr := ptr + w;
    }
    assert children[..|children|] == children;
    written := ptr - start;
  }

  /** The room arithmetic of one turn of the children loop. */
  lemma WriteChildStep(children: seq<Node>, i: nat)
    requires i < |children|
    ensures SumSizes(children[..i + 1]) == SumSizes(children[..i]) + Size(children[i])
    ensures SumSizes(children[..i + 1]) <= SumSizes(children)
  {
    SumSizesTake(children, i);
    SumSizesPrefix(children, i + 1);
  }

  /** Writing the record of child `i` after the records of the children before
      it writes the records of the children up to and including it. */
  lemma ChildSplice(s: seq<uint8>, start: nat, children: seq<Node>, i: nat, layer: uint8,
                    before: seq<uint8>, ptr: nat, after: seq<uint8>)
    requires i < |children| && start + SumSizes(children[..i + 1]) <= |s|
    requires ptr == start + SumSizes(children[..i]) && ptr + Size(children[i]) <= |s|
    requires before == Splice(s, start, EncodeSeq(children[..i], layer))
    requires after == Splice(before, ptr, Encode(children[i], layer))
    ensures after == Splice(s, start, EncodeSeq(children[..i + 1], layer))
  {
    EncodeSeqSnoc(children, i, layer);
    SpliceSplice(s, start, EncodeSeq(children[..i], layer), Encode(children[i], layer));
  }

  /** What `write` leaves in a buffer reads back: `read` from the start of the
      buffer gives the node and its size, and the decode constructor accepts the
      first `size()` bytes, whatever else the buffer held. */
  lemma WrittenReadsBack(s: seq<uint8>, n: Node, layer: uint8)
    requires WellFormed(n) && Size(n) <= |s|
    ensures Decode(Splice(s, 0, Encode(n, layer))) == Some((n, Size(n)))
    ensures DecodeExact(Splice(s, 0, Encode(n, layer))[..Size(n)]) == Some(n)
  {
    var e := Encode(n, layer);
    SpliceFront(s, e);
    DecodeEncode(n, layer, s[|e|..]);
    assert (e + s[|e|..])[..|e|] == e + [];
    DecodeExactEncode(n, layer, []);
  }

  /** Storing bytes at the start of a buffer puts them in front of the rest. */
  lemma SpliceFront(s: seq<uint8>, bytes: seq<uint8>)
    requires |bytes| <= |s|
    ensures Splice(s, 0, bytes) == bytes + s[|bytes|..]
  {
    SpliceParts(s, 0, bytes);
    var r := Splice(s, 0, bytes);
    assert r == r[..|bytes|] + r[|bytes|..];
  }

  /** The records of one more child extend the records written so far. */
  lemma EncodeSeqSnoc(children: seq<Node>, i: nat, layer: uint8)
    requires i < |children|
    ensures EncodeSeq(children[..i + 1], layer) == EncodeSeq(children[..i], layer) + Encode(children[i], layer)
  {
    assert children[..i + 1] == children[..i] + [children[i]];
    EncodeSeqConcat(children[..i], [children[i]], layer);
    assert EncodeSeq([children[i]], layer) == Encode(children[i], layer) + EncodeSeq([], layer);
  }
}
