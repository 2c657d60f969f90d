# Binary serializer: a verified model

Binary-Serializer stores labelled trees in a self-describing binary format.
A `Serializer` object has a label and either a payload buffer (a leaf) or an
ordered list of child objects (an internal node). `write` lays a tree out
depth first. Each node becomes one record:

    layer (1) | label length (1) | label | content size (4) | flag (1) | content

The content is the payload (flag 1) or the children's records, each one
layer deeper (flag 0). `read` takes the records apart again. The decode
constructor accepts a buffer only when `read` consumes all of it.

This project models `serializer.cpp` apart from its file I/O:

- `tree.dfy`
  - The node as a value: `Node = Leaf(name, payload) | Internal(name, children)`.
  - `size` and `getDataSize` as functions: `Size`, `ContentSize` and `SumSizes`.
  - `WellFormed`: labels of at most 255 bytes and content sizes below 2^32.
- `wire.dfy`
  - The byte format as functions: the record `write` produces (`Encode`) and
    the record `read` accepts (`Decode`, `DecodeChildren`).
  - The decode constructor's exact-consumption rule (`DecodeExact`).
  - The four-byte size field, the one-byte layer counter, and the label length
    as serializer.cpp's signed `char` holds it.
- `writer.dfy`
  - `write` as methods over a caller's `array<uint8>`: they store the header
    field by field, then the payload or the children, each child written in
    the room left after the ones before it.
  - Each method is proved to store exactly `Encode` at its start position and
    to leave every other byte alone.
- `serializer.dfy`
  - The `Serializer` class: fields `name`, `data` and `objects`.
  - Its constructors and `append`, `unload`, `getObject`, `getDataSize`,
    `size`, `write` and `read`.
  - `Read` resets the fields and then reads one record. Its children loop
    reads each child with a fresh object, as serializer.cpp does. It is proved to
    agree with `Decode`.

The main results:

- Round trip: `read` of what `write` produced, followed by any bytes, gives
  back the node at every depth and consumes exactly `size()` bytes
  (`DecodeEncode`, `WrittenReadsBack`).
- No strict prefix of a record decodes, so the decode constructor rejects
  every truncated record and accepts exactly the record with nothing after it
  (`DecodeTruncated`, `DecodeExactEncode`, `DecodeExactTruncated`).
- `write` returns 0 and writes nothing when the room is below `size()`.
  Otherwise every nested child write fits, so its error branch is
  unreachable, and `write` returns `size()` (`WriteNode`, `WriteChildren`).
- Every record read takes at least seven bytes and exactly the size of the
  node read, so the zero-consumption error of `read` is unreachable (`Decode`).

The content-size field is little-endian here. serializer.cpp stores it in the
host's byte order.

## Model

| member | source | states |
|---|---|---|
| Tree.Size | serializer.cpp:86-93 | `size()`: 7 header bytes plus the label plus `getDataSize()`; never less than the header and the label. |
| Tree.ContentSize | serializer.cpp:95-109 | `getDataSize()`: the payload length of a leaf, the summed sizes of the children of an internal node (a reference definition; `MeasureNode` and `GetDataSize` are proved against it). |
| Tree.SumSizes | serializer.cpp:102-107 | The summed full sizes of a list of siblings, in list order (a reference definition; `MeasureChildren` is proved against it). |
| Tree.SumSizesAtLeast | serializer.cpp:89-92 | Every sibling takes at least 7 bytes, so a list of them takes at least 7 bytes per node; `DecodeChildrenCount` uses it. |
| Tree.WellFormed | serializer.cpp:145-152 | The nodes the format can represent: every label fits the one-byte length field (at most 255 bytes) and every content size fits the four-byte size field (below 2^32), at every depth (a reference definition; every round-trip lemma requires it). |
| Wire.Flag | serializer.cpp:154 | The payload flag byte: 1 exactly for a leaf and 0 exactly for an internal node, as `read` tests it at serializer.cpp:208-210. |
| Wire.LittleEndian32 | serializer.cpp:152 | The content-size field is four bytes (least significant first); `SizeFieldRoundTrip` proves it reads back. |
| Wire.FromLittleEndian32 | serializer.cpp:206 | The size read from any four bytes is below 2^32; `SizeFieldBytesRoundTrip` proves it is the only size with that field. |
| Wire.Header | serializer.cpp:143-155 | The header is 7 bytes plus the label; `HeaderLayout` proves where each field sits. |
| Wire.Content | serializer.cpp:156-171 | The content is the payload or the children's records one layer deeper, exactly `getDataSize()` bytes long. |
| Wire.EncodeSeq | serializer.cpp:162-171 | The children's records in list order take exactly their summed sizes. |
| Wire.DecodeInternal | serializer.cpp:215-230 | A flag-0 record reads as an internal node with the label read, taking the header plus the children's summed sizes, never more than the buffer. |
| Wire.LabelAsWritten | serializer.cpp:198-205 | The label read with a signed length byte is a prefix of the label bytes shorter than 128 bytes: the full label below 128, empty from 128 on. |
| SerializerClass.Serializer.PayloadLength | serializer.cpp:74-79 | `data_size`: the payload's length, and 0 without a payload. |
| Wire.Encode | serializer.cpp:136-173 | The record of a node is exactly `size()` bytes long: 7 header bytes, the label, then the content. |
| SerializerClass.MeasureNode | serializer.cpp:86-93 | `size()` computed as `7 + label length + getDataSize()`, with the children's sizes summed by a loop, equals `Size`. |
| SerializerClass.MeasureChildren | serializer.cpp:102-107 | The `getDataSize` loop over the children returns the sum of their full sizes. |
| SerializerClass.Serializer.GetDataSize | serializer.cpp:95-109 | Returns the payload length when a payload is present, else the children's summed sizes: the content size of the object's node. |
| SerializerClass.Serializer.SizeOf | serializer.cpp:86-93 | Returns the full record size of the object's node. |
| SerializerClass.Serializer.Value | serializer.cpp:97-108 | The object stands for a leaf exactly when it holds a payload, and carries its label. |
| Tree.SumSizesConcat | serializer.cpp:103-106 | The summed sizes of two sibling lists joined are the sum of their summed sizes. |
| Wire.SizeFieldRoundTrip | serializer.cpp:152 | Reading back the four-byte field written for a content size below 2^32 gives that size. |
| Wire.SizeFieldBytesRoundTrip | serializer.cpp:206 | Any four bytes are the field of exactly the size they are read as. |
| Wire.NextLayer | serializer.cpp:165 | A child's layer is the parent's layer plus one, wrapped to a byte. |
| Wire.HeaderLayout | serializer.cpp:143-155 | The header holds, in order: the layer, the label length, the label, the content size and the payload flag. |
| Wire.EncodeLayout | serializer.cpp:143-171 | In a record followed by anything, each field sits at its place. The flag is 1 exactly for a leaf and 0 exactly for an internal node. The content follows the header. |
| Wire.EncodeSeqConcat | serializer.cpp:162-171 | The records of joined sibling lists are the joined records. |
| Wire.Decode | serializer.cpp:176-232 | A record that reads takes at least 7 bytes, no more than the buffer, and exactly the size of the node read, so the zero-consumption error cannot occur. |
| Wire.DecodeChildren | serializer.cpp:217-229 | The children read take at least the declared content size and exactly their summed sizes. |
| Wire.DecodeEncode | serializer.cpp:128-232 | Round trip: reading the record of a well-formed node, followed by anything, gives back the node and takes exactly `size()` bytes. |
| Wire.DecodeChildrenEncode | serializer.cpp:217-229 | Reading the concatenated records of the children, followed by anything, gives back the children in order and their summed size. |
| Wire.DecodeFirstRecord | serializer.cpp:218-228 | In a run of sibling records, the first record reads as the first child, and the remaining records follow it. |
| Wire.DecodeChildrenCount | serializer.cpp:217-229 | The children loop reads at most one child per seven bytes of its buffer, since every child record takes at least the header. |
| Wire.DecodeChildrenFirst | serializer.cpp:218-229 | The children loop reads the first child, then continues after it with the declared size reduced by what the child took. |
| Wire.DecodeTruncated | serializer.cpp:194-214 | No strict prefix of a well-formed record reads. |
| Wire.DecodeChildrenTruncated | serializer.cpp:217-229 | No strict prefix of the children's records reads as the children (a corollary of `DecodeChildren`'s bounds). |
| Wire.DecodeExact | serializer.cpp:49-53 | The decode constructor accepts a buffer only when the node read has exactly the buffer's length. |
| Wire.DecodeExactEncode | serializer.cpp:49-53 | The decode constructor accepts a record exactly when nothing follows it, and then gives back the node. |
| Wire.DecodeExactTruncated | serializer.cpp:49-53 | The decode constructor rejects every record cut short. |
| Wire.SignedLabelLength | serializer.cpp:198 | The label-length byte held in a signed `char` lies in -128..127 and agrees with the byte modulo 256. |
| Wire.LabelAsWrittenRoundTrip | serializer.cpp:198-205 | The C++ label read restores a label exactly when it is shorter than 128 bytes. Longer labels come back empty. |
| Writer.SpliceAt | serializer.cpp:143-159 | Storing bytes from a position changes exactly those positions, to those bytes. |
| Writer.Splice | serializer.cpp:143-158 | The caller's buffer after `bytes` are stored one by one from `at` by `*ptr = …; ++ptr` and `memcpy`: same length as before (`SpliceAt` and `SpliceParts` prove which bytes change). |
| Writer.SpliceSplice | serializer.cpp:141-171 | Storing `x` and then `y` right after it, as the advancing cursor does, stores `x + y`. |
| Writer.CopyInto | serializer.cpp:147-151 | The byte-by-byte copy stores the bytes from the given position and nothing else. |
| Writer.WriteHeader | serializer.cpp:143-155 | Storing the header fields one after the other stores exactly the header. |
| Writer.WriteNode | serializer.cpp:136-173 | Below `size()` of room, `write` returns 0 and the buffer is unchanged. Otherwise it returns `size()` and the buffer holds the record from the start position and is unchanged elsewhere. |
| Writer.WriteChildren | serializer.cpp:160-171 | The children loop returns the children's summed size and stores their records in order. No child write returns 0, so the error branch is unreachable. |
| Writer.ChildSplice | serializer.cpp:162-171 | After a turn of the children loop, the buffer holds the records of the children up to and including the current one. |
| Writer.WrittenReadsBack | serializer.cpp:128-232 | Reading a buffer that `write` has filled gives back the node and its size. The decode constructor accepts the first `size()` bytes, whatever else the buffer held. |
| SerializerClass.CopyLabel | serializer.cpp:200-205 | The label loop collects exactly the label bytes. |
| SerializerClass.DecodeShortRecord | serializer.cpp:194-209 | A buffer that ends inside the header does not read. |
| SerializerClass.ChildrenStep | serializer.cpp:218-229 | One turn of the children loop preserves the outcome of the whole loop. |
| SerializerClass.Serializer.constructor | serializer.cpp:3-4 | The default object has no label, no payload and no children: the node `Internal([], [])`. |
| SerializerClass.Serializer.WithData | serializer.cpp:6-18 | A label with a buffer gives a leaf holding a copy of the buffer. A null buffer gives a node with neither payload nor children. |
| SerializerClass.Serializer.Move | serializer.cpp:20-39 | The new object stands for the same node as the old one. The old one keeps its label and loses its payload, or else its children. |
| SerializerClass.Serializer.Append | serializer.cpp:81-84 | The moved object's node is added at the end of the children. The earlier children, the label and the payload are unchanged. |
| SerializerClass.Serializer.Unload | serializer.cpp:74-79 | Copies and returns `min(size, data_size)` payload bytes to the start of the buffer. The rest of the buffer is unchanged. |
| SerializerClass.Serializer.GetObject | serializer.cpp:111-121 | Returns the first child whose label equals the given one, or None exactly when no child has that label. |
| SerializerClass.Serializer.Write | serializer.cpp:128-174 | `write` at the start of the buffer: 0 and nothing written when the room is too small, else the object's record stored and its size returned. |
| SerializerClass.Serializer.Read | serializer.cpp:176-232 | `read` fails exactly when `Decode` does. Otherwise it returns `Decode`'s byte count and the object holds `Decode`'s node; a leaf read has no children. |
| SerializerClass.Serializer.ReadChildren | serializer.cpp:217-229 | The children loop fails exactly when `DecodeChildren` does. Otherwise it appends `DecodeChildren`'s children in order and returns their byte count. |
| SerializerClass.Serializer.ReadRecord | serializer.cpp:220-222 | A fresh object reading from the cursor yields what `Decode` yields. |
| SerializerClass.Serializer.FromBytes | serializer.cpp:41-54 | The decode constructor succeeds exactly when `DecodeExact` does, with a fresh object holding its node; a leaf read this way has no children. |

## Left out

- `save` and `open` (serializer.cpp:234-267) are file I/O around `write` and `read` and are not modelled.
- Memory management is not modelled: `new[]`, `delete[]` and the destructor. Payloads are values.
- `getLabel` and `getObjects` are plain field reads, so the model reads the fields directly.
- The non-const `getObject` overload only casts the result of the const one.
- SerializerClass.Serializer.GetObject returns the child's position instead of a pointer to it, because children are held as values.
- Children are `Node` values, not objects. The list owns them and nothing aliases them, so a child's own state (payload and children at once) is kept only as the node that `write` sees.
- The content-size field uses a fixed little-endian byte order. serializer.cpp uses the host's byte order through an unaligned `uint32_t` store and load.
- Reads are checked: a buffer that ends early makes `Decode` and `Read` fail. serializer.cpp reads past the end without checking. `size` is never compared with the record there.
- SerializerClass.Serializer.Read: the object's state after a failed read is left unspecified, as serializer.cpp would have crashed or read out of bounds.
- SerializerClass.Serializer.Read: after reading an internal node, serializer.cpp sets `data_size` to the declared content size while `data` stays null. A later `unload` then copies from a null pointer. The model keeps no separate `data_size`: it is 0 without a payload.
- SerializerClass.Serializer.WithData: for a null buffer, serializer.cpp's constructor assigns to its parameters, not its members. It leaves `data` uninitialised and `data_size` as passed. The model takes the evident intent: no payload.
- SerializerClass.Serializer.FromBytes: serializer.cpp's decode constructor tests the uninitialised `data` member and may delete the caller's buffer. The model takes the evident intent: a fresh object reads the buffer.
- SerializerClass.Serializer.Append requires the appended object to be a different object from the one it is appended to. serializer.cpp does not state this, and appending an object to itself moves its own list into itself.
- SerializerClass.Serializer.Unload requires the buffer to hold the bytes it copies. serializer.cpp trusts its caller there.
- Wire.DecodeChildren reads each child from the rest of the whole buffer, as serializer.cpp does with `end - ptr`. So the last child may run past the declared content size; this is modelled as written.
- Wire.DecodeEncode and the other round-trip lemmas require well-formed nodes: labels of at most 255 bytes and content sizes below 2^32. Beyond those bounds `write` narrows the length byte and the size field, as `Header` models, and no round trip is stated. A label over 255 bytes never reads back as the same node, since its length byte is wrong. An oversized content size may still read back, because the last child is read past the declared size.

## Findings

| source | as written | input that shows it | evidently intended | confidence | as-written member | corrected member |
|---|---|---|---|---|---|---|
| serializer.cpp:198-205 | The label length is read into a plain `char`, which is signed on common platforms. The copy loop runs while `i < label_size`, so a length byte of 128 to 255 copies no label bytes. The cursor then stays at the label, and the size field and flag are read from the wrong place. | A node whose label is 128 bytes long: `write` stores length byte 0x80, which reads back as -128. | Read the length byte as unsigned (0 to 255), as `write` stores it. | not executed | Wire.LabelAsWrittenRoundTrip | Wire.DecodeEncode |
