/**
 The `Serializer` object: a label, an optional payload buffer and a list of
 child objects, with the operations that build, inspect, write and read it.
 The children are held as `Node` values: the list owns them exclusively and
 nothing else refers to them.
 */
module SerializerClass {
  import opened Wrappers
  import opened Tree
  import opened Wire
  import opened Writer

  /** `size()` of a node: header, label and content, the children's sizes summed
      by a loop as `getDataSize` does. */
  method MeasureNode(n: Node) returns (total: nat)
    ensures total == Size(n)
    decreases n, 1
  {
    var content: nat;
    match n {
      case Leaf(_, payload) =>
        content := |payload|;
      case Internal(_, children) =>
        content := MeasureChildren(children);
    }
    total := HeaderSize + |n.name| + content;
  }

  /** The loop of `getDataSize` over the children: the sum of their `size()`. */
  method MeasureChildren(children: seq<Node>) returns (total: nat)
    ensures total == SumSizes(children)
    decreases children, 0
  {
    total := 0;
    for i := 0 to |children|
      invariant total == SumSizes(children[..i])
    {
      var size := MeasureNode(children[i]);
      assert children[..i + 1] == children[..i] + [children[i]];
      SumSizesSnoc(children[..i], children[i]);
      total := total + size;
    }
    assert children[..|children|] == children;
  }

  /** One turn of the children loop of `read`: the child read from the start of
      `t` joins the children already read, and reading goes on after it. */
  lemma ChildrenStep(t: seq<uint8>, done: seq<Node>, k: nat, left: int, child: Node, used: nat,
                     done': seq<Node>, k': nat, t': seq<uint8>, left': int)
    requires left > 0 && Decode(t) == Some((child, used))
    requires done' == done + [child] && k' == k + used && t' == t[used..] && left' == left - used
    ensures Prepend(done, k, DecodeChildren(t, left)) == Prepend(done', k', DecodeChildren(t', left'))
  {
    DecodeChildrenFirst(t, left, child, used, t', left');
    PrependPrepend(done, k, child, used, DecodeChildren(t', left'));
  }

  /** Children already read in two batches are the children read in one. */
  lemma PrependPrepend(done: seq<Node>, k: nat, child: Node, used: nat, rest: Option<(seq<Node>, nat)>)
    ensures Prepend(done, k, Prepend([child], used, rest)) == Prepend(done + [child], k + used, rest)
  {
    if rest.Some? {
      assert done + ([child] + rest.value.0) == done + [child] + rest.value.0;
    }
  }

  /** With nothing read yet, the loop's outcome is the outcome of reading them all. */
  lemma PrependNothing(r: Option<(seq<Node>, nat)>)
    ensures Prepend([], 0, r) == r
  {
    if r.Some? {
      assert [] + r.value.0 == r.value.0;
    }
  }

  /** The label loop of `read`: `count` bytes from position `from`, appended one
      at a time. */
  method CopyLabel(s: seq<uint8>, from: nat, count: nat) returns (tag: seq<uint8>)
    requires from + count <= |s|
    ensures tag == s[from..from + count]
  {
    tag := [];
    for i := 0 to count
      invariant tag == s[from..from + i]
    {
      tag := tag + [s[from + i]];
    }
  }

  /** `Decode` of a buffer too short for the header it starts. */
  lemma DecodeShortRecord(s: seq<uint8>)
    requires |s| < 2 || |s| < 2 + s[1] as nat + 5
    ensures Decode(s).None?
  {
  }

  /** `Decode` of a record whose flag is not 0 and whose payload is cut short. */
  lemma DecodeLeafShort(s: seq<uint8>, sizeAt: nat, start: nat, size: nat)
    requires |s| >= 2 && sizeAt == 2 + s[1] as nat && start == sizeAt + 5 && |s| >= start
    requires s[sizeAt + 4] != 0 && size == FromLittleEndian32(s[sizeAt..sizeAt + 4])
    requires |s| < start + size
    ensures Decode(s).None?
  {
  }

  /** `Decode` of a record whose flag is not 0, in terms of its payload. */
  lemma DecodeLeafRecord(s: seq<uint8>, sizeAt: nat, start: nat, size: nat, name: seq<uint8>, payload: seq<uint8>)
    requires |s| >= 2 && sizeAt == 2 + s[1] as nat && start == sizeAt + 5 && |s| >= start
    requires s[sizeAt + 4] != 0 && size == FromLittleEndian32(s[sizeAt..sizeAt + 4])
    requires |s| >= start + size && name == s[2..sizeAt] && payload == s[start..start + size]
    ensures Decode(s) == Some((Leaf(name, payload), start + size))
  {
  }

  /** `Decode` of a record whose flag is 0, in terms of its children. */
  lemma DecodeInternalRecord(s: seq<uint8>, sizeAt: nat, start: nat, size: nat)
    requires |s| >= 2 && sizeAt == 2 + s[1] as nat && start == sizeAt + 5 && |s| >= start
    requires s[sizeAt + 4] == 0 && size == FromLittleEndian32(s[sizeAt..sizeAt + 4])
    ensures DecodeChildren(s[start..], size).None? ==> Decode(s).None?
    ensures DecodeChildren(s[start..], size).Some? ==>
      var (children, used) := DecodeChildren(s[start..], size).value;
      Decode(s) == Some((Internal(s[2..sizeAt], children), start + used))
  {
  }

  class Serializer {
    /** `label`. */
    var name: seq<uint8>
    /** `data` with `data_size`: None for the null pointer, else the buffer. */
    var data: Option<seq<uint8>>
    /** `objects`, in list order. */
    var objects: seq<Node>

    /** The node this object stands for, as `size`, `write` and `getDataSize`
        see it: a leaf whenever a payload is present, whatever `objects` holds. */
    function Value(): (n: Node)
      reads this
      ensures n.name == name
      ensures n.Leaf? <==> data.Some?
    {
      if data.Some? then Leaf(name, data.value) else Internal(name, objects)
    }

    /** `data_size`: the payload length, 0 without a payload. */
    function PayloadLength(): (r: nat)
      reads this
      ensures data.None? ==> r == 0
      ensures data.Some? ==> r == |data.value|
    {
      if data.Some? then |data.value| else 0
    }

    /** The default constructor: no label, no payload, no children. */
    constructor ()
      ensures name == [] && data.None? && objects == []
      ensures Value() == Internal([], [])
    {
      name, data, objects := [], None, [];
    }

    /** The constructor from a label and a possibly null buffer, whose bytes are
        copied in. A null buffer gives a node with no payload. */
    constructor WithData(tag: seq<uint8>, buffer: Option<seq<uint8>>)
      ensures name == tag && data == buffer && objects == []
      ensures buffer.Some? ==> Value() == Leaf(tag, buffer.value)
      ensures buffer.None? ==> Value() == Internal(tag, [])
    {
      name, data, objects := tag, buffer, [];
    }

    /** The move constructor. The new object gets the label (copied: serializer.cpp
        moves from a const reference) and either the payload, or, without one,
        the children. The object moved from loses what was taken: its payload,
        or else its children. */
    constructor Move(other: Serializer)
      modifies other
      ensures name == old(other.name) && data == old(other.data)
      ensures objects == if old(other.data).Some? then [] else old(other.objects)
      ensures Value() == old(other.Value())
      ensures other.name == old(other.name) && other.data.None?
      ensures other.objects == if old(other.data).Some? then old(other.objects) else []
    {
      name := other.name;
      data := other.data;
      objects := if other.data.Some? then [] else other.objects;
      new;
      if other.data.Some? {
        other.data := None;
      } else {
        other.objects := [];
      }
    }

    /** `append`: the object moved to the end of the children; the children
        before it, the label and the payload stay as they were. */
    method Append(obj: Serializer)
      requires obj != this
      modifies this, obj
      ensures objects == old(objects) + [old(obj.Value())]
      ensures name == old(name) && data == old(data)
      ensures obj.name == old(obj.name) && obj.data.None?
      ensures obj.objects == if old(obj.data).Some? then old(obj.objects) else []
    {
      var moved := new Serializer.Move(obj);
      objects := objects + [moved.Value()];
    }

    /** `unload`: copies the first `min(size, data_size)` payload bytes to the
        start of `place` and returns their number; the rest of `place` is left
        alone. */
    method Unload(place: array<uint8>, size: nat) returns (n: nat)
      requires Min(size, PayloadLength()) <= place.Length
      modifies place
      ensures n == Min(size, PayloadLength())
      ensures data.Some? ==> place[..] == Splice(old(place[..]), 0, data.value[..n])
      ensures data.None? ==> place[..] == old(place[..])
    {
      n := if size < PayloadLength() then size else PayloadLength();
      if data.Some? {
        CopyInto(place, 0, data.value[..n]);
      }
    }

    /** `getObject`: the position of the first child whose label equals `tag`,
        None when no child has that label. */
    method GetObject(tag: seq<uint8>) returns (r: Option<nat>)
      ensures r.Some? ==> r.value < |objects| && objects[r.value].name == tag
      ensures r.Some? ==> forall j :: 0 <= j < r.value ==> objects[j].name != tag
      ensures r.None? <==> forall j :: 0 <= j < |objects| ==> objects[j].name != tag
    {
      for i := 0 to |objects|
        invariant forall j :: 0 <= j < i ==> objects[j].name != tag
      {
        if objects[i].name == tag {
          return Some(i);
        }
      }
      return None;
    }

    /** `getDataSize`: the payload length with a payload, else the summed sizes
        of the children. */
    method GetDataSize() returns (r: nat)
      ensures r == ContentSize(Value())
    {
      if data.Some? {
        r := |data.value|;
      } else {
        r := MeasureChildren(objects);
      }
    }

    /** `size`: the length of the record `write` produces. */
    method SizeOf() returns (r: nat)
      ensures r == Size(Value())
    {
      var content := GetDataSize();
      r := HeaderSize + |name| + content;
    }

    /** `write`: 0 and nothing written when `size` is below `size()`, else the
        record of the node at depth `layer` stored at the start of `place`, its
        length returned and nothing after it touched. */
    method Write(place: array<uint8>, size: nat, layer: uint8) returns (written: nat)
      requires size <= place.Length
      modifies place
      ensures size < Size(Value()) ==> written == 0 && place[..] == old(place[..])
      ensures size >= Size(Value()) ==> written == Size(Value())
      ensures size >= Size(Value()) ==> place[..] == Splice(old(place[..]), 0, Encode(Value(), layer))
    {
      written := WriteNode(Value(), place, 0, size, layer);
    }

    /** `read`: discards the old contents, then reads one record from the start
        of `s` into this object and returns the bytes it took, or None when `s`
        ends before the record does. It succeeds exactly when `Decode` does, with
        the same node and byte count; a leaf read has no children. */
    method Read(s: seq<uint8>) returns (r: Option<nat>)
      modifies this
      ensures Decode(s).None? ==> r.None?
      ensures Decode(s).Some? ==> r == Some(Decode(s).value.1) && Value() == Decode(s).value.0
      ensures r.Some? && data.Some? ==> objects == []
      decreases |s|, 0
    {
      name, data, objects := [], None, [];
      if |s| < 2 || |s| < 2 + s[1] as nat + 5 {
        DecodeShortRecord(s);
        return None;
      }
      var sizeAt := 2 + s[1] as nat;
      name := CopyLabel(s, 2, s[1] as nat);
      var contentSize := FromLittleEndian32(s[sizeAt..sizeAt + 4]);
      var start := sizeAt + 5;
      if s[sizeAt + 4] != 0 {
        if |s| < start + contentSize {
          DecodeLeafShort(s, sizeAt, start, contentSize);
          return None;
        }
        DecodeLeafRecord(s, sizeAt, start, contentSize, name, s[start..start + contentSize]);
        data := Some(s[start..start + contentSize]);
        return Some(start + contentSize);
      }
      var used := ReadChildren(s[start..], contentSize);
      DecodeInternalRecord(s, sizeAt, start, contentSize);
      if used.None? {
        return None;
      }
      return Some(start + used.value);
    }

    /** The children loop of `read`, on the window `t` of the buffer that starts
        at the first child: records are read back to back, each from the rest of
        the window, while fewer than `size` bytes have been taken, and appended in
        order. Succeeds exactly when `DecodeChildren` does, with the same children
        and byte count. */
    method ReadChildren(t: seq<uint8>, size: nat) returns (r: Option<nat>)
      requires objects == []
      modifies this
      ensures name == old(name) && data == old(data)
      ensures DecodeChildren(t, size).None? ==> r.None?
      ensures DecodeChildren(t, size).Some? ==>
        r == Some(DecodeChildren(t, size).value.1) && objects == DecodeChildren(t, size).value.0
      decreases |t|, 2
    {
      // The bytes taken so far, the window after them, and what is left of the
      // declared content.
      var taken, rest, left := 0, t, size as int;
      var children: seq<Node> := [];
      ghost var whole := DecodeChildren(t, size);
      PrependNothing(whole);
      while taken < size
        invariant |rest| == |t| - taken && left == size - taken
        invariant name == old(name) && data == old(data) && objects == children
        invariant Prepend(children, taken, DecodeChildren(rest, left)) == whole
        decreases |rest|
      {
        var record := ReadRecord(rest);
        // A record that does not decode ends the read; one that does takes at
        // least seven bytes, so serializer.cpp's error for 0 bytes cannot occur.
        if record.None? {
          return None;
        }
        var child, n := record.value.0, record.value.1;
        ghost var done, before, window, wanted := children, taken, rest, left;
        children := children + [child];
        objects := children;
        taken, rest, left := taken + n, rest[n..], left - n;
        ChildrenStep(window, done, before, wanted, child, n, children, taken, rest, left);
      }
      return Some(taken);
    }

    /** One turn of the children loop of `read`: a fresh object reads a record
        from the start of `s`; the node it holds and the bytes it took. */
    static method ReadRecord(s: seq<uint8>) returns (r: Option<(Node, nat)>)
      ensures r == Decode(s)
      decreases |s|, 1
    {
      var obj := new Serializer();
      var used := obj.Read(s);
      if used.None? {
        return None;
      }
      return Some((obj.Value(), used.value));
    }

    /** The decode constructor: a new object read from `s`, which must be taken
        whole; None where serializer.cpp throws. */
    static method FromBytes(s: seq<uint8>) returns (r: Option<Serializer>)
      ensures r.Some? <==> DecodeExact(s).Some?
      ensures r.Some? ==> fresh(r.value) && r.value.Value() == DecodeExact(s).value
      ensures r.Some? && r.value.data.Some? ==> r.value.objects == []
    {
      var obj := new Serializer();
      var used := obj.Read(s);
      if used == Some(|s|) {
        return Some(obj);
      }
      return None;
    }
  }

  /** The smaller of two counts. */
  function Min(a: nat, b: nat): (r: nat)
    ensures r <= a && r <= b && (r == a || r == b)
  {
    if a < b then a else b
  }
}
