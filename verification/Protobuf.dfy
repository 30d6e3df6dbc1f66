/** The wire format of Protocol Buffers: base-128 varints and tagged records ("Encoding", sections "Base 128 Varints",
    "Message Structure" and "Length-Delimited Records"). */
module Protobuf {
  import opened Common

  // ----- Varints -----

  function Varint(n: nat): (bs: Bytes)
    ensures |bs| == VarintLen(n)
  {
    if n < 128 then [n as Byte] else [(128 + n % 128) as Byte] + Varint(n / 128)
  }

  /** The number of bytes of a varint, one for every seven bits. */
  function VarintLen(n: nat): (k: nat)
    ensures k >= 1
  {
    if n < 128 then 1 else 1 + VarintLen(n / 128)
  }

  /** The value read from the front of `bs`, and how many bytes it took. */
  function ReadVarint(bs: Bytes): (r: Option<(nat, nat)>)
    ensures r.Some? ==> 1 <= r.value.1 <= |bs|
  {
    if bs == [] then None
    else if bs[0] < 128 then Some((bs[0] as nat, 1))
    else
      var rest := ReadVarint(bs[1..]);
      if rest.None? then None else Some(((bs[0] as nat - 128) + 128 * rest.value.0, rest.value.1 + 1))
  }

  lemma {:induction false} VarintRoundTrip(n: nat, rest: Bytes)
    ensures ReadVarint(Varint(n) + rest) == Some((n, VarintLen(n)))
  {
    if n >= 128 {
      VarintRoundTrip(n / 128, rest);
      assert (Varint(n) + rest)[1..] == Varint(n / 128) + rest;
    }
  }

  /** The `i`-th group of seven bits, least significant first. */
  function Digit(n: nat, i: nat): nat { if i == 0 then n % 128 else Digit(n / 128, i - 1) }

  /** Seven bits to a byte, least significant first; the top bit says that more follow. */
  lemma {:induction false} VarintBytes(n: nat, i: nat)
    requires i < |Varint(n)|
    ensures Varint(n)[i] as nat == Digit(n, i) + if i < |Varint(n)| - 1 then 128 else 0
    decreases i
  {
    if i > 0 { VarintBytes(n / 128, i - 1); }
  }

  // ----- Records -----

  datatype Field =
    | Number(tag: nat, value: nat)
    | Fixed(tag: nat, bytes: Bytes)
    | Block(tag: nat, payload: Bytes)

  /** A varint record and a length-delimited record. */
  function EncodeNumber(tag: nat, value: nat): Bytes { Varint(8 * tag) + Varint(value) }

  function EncodeBlock(tag: nat, payload: Bytes): Bytes { Varint(8 * tag + 2) + (Varint(|payload|) + payload) }

  /** The first record of `bs`, and how many bytes it took.  Groups are not supported. */
  function ReadField(bs: Bytes): (r: Option<(Field, nat)>)
    ensures r.Some? ==> 1 <= r.value.1 <= |bs|
    ensures r.Some? && r.value.0.Block? ==> |r.value.0.payload| + 2 <= r.value.1
  {
    var key := ReadVarint(bs);
    if key.None? || key.value.0 / 8 == 0 then None
    else
      var tag, wire, k := key.value.0 / 8, key.value.0 % 8, key.value.1;
      if wire == 0 then
        var value := ReadVarint(bs[k..]);
        if value.None? then None else Some((Number(tag, value.value.0), k + value.value.1))
      else if wire == 2 then
        var len := ReadVarint(bs[k..]);
        if len.None? || k + len.value.1 + len.value.0 > |bs| then None
        else
          var start := k + len.value.1;
          Some((Block(tag, bs[start..start + len.value.0]), start + len.value.0))
      else if wire == 1 && k + 8 <= |bs| then Some((Fixed(tag, bs[k..k + 8]), k + 8))
      else if wire == 5 && k + 4 <= |bs| then Some((Fixed(tag, bs[k..k + 4]), k + 4))
      else None
  }

  function DecodeFields(bs: Bytes): Option<seq<Field>> {
    if bs == [] then Some([])
    else
      var first := ReadField(bs);
      if first.None? then None
      else
        var rest := DecodeFields(bs[first.value.1..]);
        if rest.None? then None else Some([first.value.0] + rest.value)
  }

  /** A tag's number and its wire type make the key: the examples of the format's documentation. */
  lemma RecordExamples()
    ensures Varint(150) == [150, 1] && Varint(300) == [172, 2]
    ensures EncodeNumber(1, 150) == [8, 150, 1]
    ensures EncodeBlock(2, [116, 101, 115, 116, 105, 110, 103]) == [18, 7, 116, 101, 115, 116, 105, 110, 103]
  {
  }

  lemma ReadBlock(tag: nat, payload: Bytes, rest: Bytes)
    requires tag > 0
    ensures ReadField(EncodeBlock(tag, payload) + rest) == Some((Block(tag, payload), |EncodeBlock(tag, payload)|))
  {
    hide Varint, VarintLen, ReadVarint;
    var bs := EncodeBlock(tag, payload) + rest;
    var k := VarintLen(8 * tag + 2);
    assert bs == Varint(8 * tag + 2) + (Varint(|payload|) + payload + rest);
    VarintRoundTrip(8 * tag + 2, Varint(|payload|) + payload + rest);
    assert bs[k..] == Varint(|payload|) + (payload + rest);
    VarintRoundTrip(|payload|, payload + rest);
    var start := k + VarintLen(|payload|);
    assert bs[start..start + |payload|] == payload;
    assert (8 * tag + 2) / 8 == tag && (8 * tag + 2) % 8 == 2;
  }

  lemma ReadNumber(tag: nat, value: nat, rest: Bytes)
    requires tag > 0
    ensures ReadField(EncodeNumber(tag, value) + rest) == Some((Number(tag, value), |EncodeNumber(tag, value)|))
  {
    hide Varint, VarintLen, ReadVarint;
    var bs := EncodeNumber(tag, value) + rest;
    var k := VarintLen(8 * tag);
    assert bs == Varint(8 * tag) + (Varint(value) + rest);
    VarintRoundTrip(8 * tag, Varint(value) + rest);
    assert bs[k..] == Varint(value) + rest;
    VarintRoundTrip(value, rest);
  }

  /** Decoding reads back an encoded record and goes on with what follows it. */
  lemma DecodeBlock(tag: nat, payload: Bytes, rest: Bytes)
    requires tag > 0 && DecodeFields(rest).Some?
    ensures DecodeFields(EncodeBlock(tag, payload) + rest) == Some([Block(tag, payload)] + DecodeFields(rest).value)
  {
    ReadBlock(tag, payload, rest);
    var bs := EncodeBlock(tag, payload) + rest;
    assert bs[|EncodeBlock(tag, payload)|..] == rest;
  }

  lemma DecodeNumber(tag: nat, value: nat, rest: Bytes)
    requires tag > 0 && DecodeFields(rest).Some?
    ensures DecodeFields(EncodeNumber(tag, value) + rest) == Some([Number(tag, value)] + DecodeFields(rest).value)
  {
    ReadNumber(tag, value, rest);
    var bs := EncodeNumber(tag, value) + rest;
    assert bs[|EncodeNumber(tag, value)|..] == rest;
  }

  /** No payload is longer than what it was decoded from. */
  lemma {:induction false} PayloadsShrink(bs: Bytes, i: nat)
    requires DecodeFields(bs).Some? && i < |DecodeFields(bs).value| && DecodeFields(bs).value[i].Block?
    ensures |DecodeFields(bs).value[i].payload| + 2 <= |bs|
    decreases |bs|
  {
    if i > 0 { PayloadsShrink(bs[ReadField(bs).value.1..], i - 1); }
  }

  // ----- Scalar fields of a message; the last record of a tag wins, absent ones are empty or zero -----

  function BytesField(fields: seq<Field>, tag: nat, current: Bytes): (r: Option<Bytes>)
    ensures r.Some? ==> r.value == current || exists i :: 0 <= i < |fields| && fields[i] == Block(tag, r.value)
  {
    if fields == [] then Some(current)
    else if fields[0].tag != tag then
      var r := BytesField(fields[1..], tag, current);
      assert r.Some? ==> r.value == current || exists i :: 0 <= i < |fields[1..]| && fields[1..][i] == Block(tag, r.value);
      r
    else if !fields[0].Block? then None
    else
      var r := BytesField(fields[1..], tag, fields[0].payload);
      assert r.Some? ==> r.value == fields[0].payload
                         || exists i :: 0 <= i < |fields[1..]| && fields[1..][i] == Block(tag, r.value);
      r
  }

  function NumberField(fields: seq<Field>, tag: nat, current: nat): Option<nat> {
    if fields == [] then Some(current)
    else if fields[0].tag != tag then NumberField(fields[1..], tag, current)
    else if !fields[0].Number? then None
    else NumberField(fields[1..], tag, fields[0].value)
  }

  /** The records of an embedded message: all its occurrences are merged by concatenation. */
  function MessageField(fields: seq<Field>, tag: nat): Option<Bytes> {
    if fields == [] then Some([])
    else
      var rest := MessageField(fields[1..], tag);
      if rest.None? || fields[0].tag != tag then rest
      else if !fields[0].Block? then None
      else Some(fields[0].payload + rest.value)
  }

  /** An empty bytes field and a zero number are not written. */
  function OptionalBlock(tag: nat, payload: Bytes): Bytes { if payload == [] then [] else EncodeBlock(tag, payload) }

  function OptionalNumber(tag: nat, value: nat): Bytes { if value == 0 then [] else EncodeNumber(tag, value) }

  // ----- Any -----

  datatype Any = Any(typeUrl: Bytes, value: Bytes)

  function EncodeAny(a: Any): Bytes { OptionalBlock(1, a.typeUrl) + OptionalBlock(2, a.value) }

  function DecodeAny(bs: Bytes): Option<Any> {
    var fields := DecodeFields(bs);
    if fields.None? then None
    else
      var typeUrl, value := BytesField(fields.value, 1, []), BytesField(fields.value, 2, []);
      if typeUrl.None? || value.None? then None else Some(Any(typeUrl.value, value.value))
  }

  /** The records `OptionalBlock` writes. */
  function BlockIf(tag: nat, payload: Bytes): seq<Field> { if payload == [] then [] else [Block(tag, payload)] }

  lemma DecodeOptionalBlock(tag: nat, payload: Bytes, rest: Bytes)
    requires tag > 0 && DecodeFields(rest).Some?
    ensures DecodeFields(OptionalBlock(tag, payload) + rest) == Some(BlockIf(tag, payload) + DecodeFields(rest).value)
  {
    if payload == [] {
      assert OptionalBlock(tag, payload) + rest == rest;
      assert BlockIf(tag, payload) + DecodeFields(rest).value == DecodeFields(rest).value;
    } else {
      DecodeBlock(tag, payload, rest);
    }
  }

  lemma AnyRoundTrip(a: Any)
    ensures DecodeAny(EncodeAny(a)) == Some(a)
  {
    DecodeOptionalBlock(2, a.value, []);
    assert OptionalBlock(2, a.value) + [] == OptionalBlock(2, a.value);
    DecodeOptionalBlock(1, a.typeUrl, OptionalBlock(2, a.value));
    var fields := BlockIf(1, a.typeUrl) + BlockIf(2, a.value);
    assert DecodeFields(EncodeAny(a)).value == fields;
    ReadBack(a);
  }

  lemma {:induction false} BytesFieldConcat(a: seq<Field>, b: seq<Field>, tag: nat, current: Bytes)
    ensures BytesField(a + b, tag, current)
            == var first := BytesField(a, tag, current); if first.None? then None else BytesField(b, tag, first.value)
    decreases |a|
  {
    if a == [] {
      assert a + b == b;
    } else {
      assert (a + b)[1..] == a[1..] + b;
      BytesFieldConcat(a[1..], b, tag, current);
      if a[0].Block? { BytesFieldConcat(a[1..], b, tag, a[0].payload); }
    }
  }

  /** A record is read back under its own tag and ignored under any other. */
  lemma BlockIfReads(tag: nat, payload: Bytes, other: nat, current: Bytes)
    ensures BytesField(BlockIf(tag, payload), tag, []) == Some(payload)
    ensures other != tag ==> BytesField(BlockIf(tag, payload), other, current) == Some(current)
  {
  }

  lemma ReadBack(a: Any)
    ensures BytesField(BlockIf(1, a.typeUrl) + BlockIf(2, a.value), 1, []) == Some(a.typeUrl)
    ensures BytesField(BlockIf(1, a.typeUrl) + BlockIf(2, a.value), 2, []) == Some(a.value)
  {
    BytesFieldConcat(BlockIf(1, a.typeUrl), BlockIf(2, a.value), 1, []);
    BytesFieldConcat(BlockIf(1, a.typeUrl), BlockIf(2, a.value), 2, []);
    BlockIfReads(1, a.typeUrl, 2, []);
    BlockIfReads(2, a.value, 1, a.typeUrl);
  }

  // ----- Records a reader does not know, and records that come twice -----

  /** A record of eight or of four bytes. */
  function EncodeFixed(tag: nat, bytes: Bytes): Bytes { Varint(8 * tag + if |bytes| == 8 then 1 else 5) + bytes }

  lemma ReadFixed(tag: nat, bytes: Bytes, rest: Bytes)
    requires tag > 0 && (|bytes| == 8 || |bytes| == 4)
    ensures ReadField(EncodeFixed(tag, bytes) + rest) == Some((Fixed(tag, bytes), |EncodeFixed(tag, bytes)|))
  {
    hide Varint, VarintLen, ReadVarint;
    var wire := if |bytes| == 8 then 1 else 5;
    var bs := EncodeFixed(tag, bytes) + rest;
    var k := VarintLen(8 * tag + wire);
    assert bs == Varint(8 * tag + wire) + (bytes + rest);
    VarintRoundTrip(8 * tag + wire, bytes + rest);
    assert bs[k..k + |bytes|] == bytes;
    assert (8 * tag + wire) / 8 == tag && (8 * tag + wire) % 8 == wire;
  }

  lemma DecodeFixed(tag: nat, bytes: Bytes, rest: Bytes)
    requires tag > 0 && (|bytes| == 8 || |bytes| == 4) && DecodeFields(rest).Some?
    ensures DecodeFields(EncodeFixed(tag, bytes) + rest) == Some([Fixed(tag, bytes)] + DecodeFields(rest).value)
  {
    ReadFixed(tag, bytes, rest);
    assert (EncodeFixed(tag, bytes) + rest)[|EncodeFixed(tag, bytes)|..] == rest;
  }

  lemma SkipField(f: Field, fields: seq<Field>, tag: nat, current: Bytes)
    requires f.tag != tag
    ensures BytesField([f] + fields, tag, current) == BytesField(fields, tag, current)
  {
    assert ([f] + fields)[1..] == fields;
  }

  /** Records with a tag that an `Any` does not have are ignored, whatever their kind. */
  lemma UnknownIgnored(tag: nat, number: nat, bytes: Bytes, rest: Bytes)
    requires tag > 2 && DecodeFields(rest).Some?
    ensures DecodeAny(EncodeNumber(tag, number) + rest) == DecodeAny(rest)
    ensures DecodeAny(EncodeBlock(tag, bytes) + rest) == DecodeAny(rest)
    ensures |bytes| == 8 || |bytes| == 4 ==> DecodeAny(EncodeFixed(tag, bytes) + rest) == DecodeAny(rest)
  {
    hide DecodeFields, EncodeNumber, EncodeBlock, EncodeFixed, BytesField;
    var fields := DecodeFields(rest).value;
    DecodeNumber(tag, number, rest);
    DecodeBlock(tag, bytes, rest);
    SkipField(Number(tag, number), fields, 1, []);
    SkipField(Number(tag, number), fields, 2, []);
    SkipField(Block(tag, bytes), fields, 1, []);
    SkipField(Block(tag, bytes), fields, 2, []);
    if |bytes| == 8 || |bytes| == 4 {
      DecodeFixed(tag, bytes, rest);
      SkipField(Fixed(tag, bytes), fields, 1, []);
      SkipField(Fixed(tag, bytes), fields, 2, []);
    }
  }

  /** Of several records with the same tag the last one counts. */
  lemma LastRecordCounts(first: Any, a: Any)
    requires a.typeUrl != [] && a.value != []
    ensures DecodeAny(EncodeAny(first) + EncodeAny(a)) == Some(a)
  {
    hide DecodeFields, OptionalBlock, BytesField, BlockIf;
    var own, before := BlockIf(1, a.typeUrl) + BlockIf(2, a.value), BlockIf(1, first.typeUrl) + BlockIf(2, first.value);
    AnyFields(a);
    TwoAnys(first, a);
    ReadBack(first);
    BytesFieldConcat(before, own, 1, []);
    BytesFieldConcat(before, own, 2, []);
    Overwrites(a, first.typeUrl, first.value);
  }

  lemma AnyFields(a: Any)
    ensures DecodeFields(EncodeAny(a)) == Some(BlockIf(1, a.typeUrl) + BlockIf(2, a.value))
  {
    NoFields();
    DecodeOptionalBlock(2, a.value, []);
    assert OptionalBlock(2, a.value) + [] == OptionalBlock(2, a.value);
    assert BlockIf(2, a.value) + [] == BlockIf(2, a.value);
    DecodeOptionalBlock(1, a.typeUrl, OptionalBlock(2, a.value));
  }

  lemma NoFields()
    ensures DecodeFields([]) == Some([])
  {
  }

  lemma TwoAnys(first: Any, a: Any)
    ensures DecodeFields(EncodeAny(first) + EncodeAny(a))
            == Some(BlockIf(1, first.typeUrl) + BlockIf(2, first.value) + (BlockIf(1, a.typeUrl) + BlockIf(2, a.value)))
  {
    hide DecodeFields, OptionalBlock, BlockIf;
    var rest := EncodeAny(a);
    AnyFields(a);
    DecodeOptionalBlock(2, first.value, rest);
    DecodeOptionalBlock(1, first.typeUrl, OptionalBlock(2, first.value) + rest);
    assert EncodeAny(first) + rest == OptionalBlock(1, first.typeUrl) + (OptionalBlock(2, first.value) + rest);
    assert BlockIf(1, first.typeUrl) + BlockIf(2, first.value) + (BlockIf(1, a.typeUrl) + BlockIf(2, a.value))
        == BlockIf(1, first.typeUrl) + (BlockIf(2, first.value) + (BlockIf(1, a.typeUrl) + BlockIf(2, a.value)));
  }

  lemma Overwrites(a: Any, typeUrl: Bytes, value: Bytes)
    requires a.typeUrl != [] && a.value != []
    ensures BytesField(BlockIf(1, a.typeUrl) + BlockIf(2, a.value), 1, typeUrl) == Some(a.typeUrl)
    ensures BytesField(BlockIf(1, a.typeUrl) + BlockIf(2, a.value), 2, value) == Some(a.value)
  {
    BytesFieldConcat(BlockIf(1, a.typeUrl), BlockIf(2, a.value), 1, typeUrl);
    BytesFieldConcat(BlockIf(1, a.typeUrl), BlockIf(2, a.value), 2, value);
  }

  /** The value of a decoded `Any` is shorter than the bytes it was decoded from, unless it is empty. */
  lemma AnyShrinks(bs: Bytes)
    requires DecodeAny(bs).Some?
    ensures DecodeAny(bs).value.value == [] || |DecodeAny(bs).value.value| < |bs|
  {
    var fields, value := DecodeFields(bs).value, DecodeAny(bs).value.value;
    if value != [] {
      var i :| 0 <= i < |fields| && fields[i] == Block(2, value);
      PayloadsShrink(bs, i);
    }
  }
}
