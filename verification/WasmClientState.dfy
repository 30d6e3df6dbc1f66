/** Client states, possibly wrapped in Wasm client states any number of times, and their unwrapping. */
module WasmClientState {
  import opened Common
  import opened Protobuf

  datatype Kind = Grandpa | Beefy | Tendermint

  /** The encoding of the states that are not Wasm, and the type URLs. */
  datatype Codec<!S> = Codec(url: Kind -> Bytes, wasmUrl: Bytes, encode: (Kind, S) -> Bytes,
                             decode: (Kind, Bytes) -> Option<S>, latestHeight: (Kind, S) -> Height)

  ghost predicate Lawful<S(!new)>(c: Codec<S>) {
    && c.wasmUrl != []
    && (forall k :: c.url(k) != [] && c.url(k) != c.wasmUrl)
    && (forall k, l :: c.url(k) == c.url(l) ==> k == l)
    && (forall k, s :: c.decode(k, c.encode(k, s)) == Some(s))
  }

  datatype ClientState<S> =
    | Native(kind: Kind, state: S)
    | Wasm(data: Bytes, checksum: Bytes, latestHeight: Height, inner: ClientState<S>)

  // ----- Encoding -----

  function EncodeHeight(h: Height): Bytes { OptionalNumber(1, h.revision) + OptionalNumber(2, h.height) }

  function EncodeWasm(data: Bytes, checksum: Bytes, h: Height): Bytes {
    OptionalBlock(1, data) + (OptionalBlock(2, checksum) + EncodeBlock(3, EncodeHeight(h)))
  }

  function ToAny<S>(codec: Codec<S>, c: ClientState<S>): Any {
    match c
    case Native(kind, state) => Any(codec.url(kind), codec.encode(kind, state))
    case Wasm(data, checksum, h, _) => Any(codec.wasmUrl, EncodeWasm(data, checksum, h))
  }

  function LatestHeight<S>(codec: Codec<S>, c: ClientState<S>): Height {
    match c
    case Native(kind, state) => codec.latestHeight(kind, state)
    case Wasm(_, _, h, _) => h
  }

  /** A client state wrapped in a Wasm client state. */
  function Wrap<S>(codec: Codec<S>, inner: ClientState<S>, checksum: Bytes): ClientState<S> {
    Wasm(EncodeAny(ToAny(codec, inner)), checksum, LatestHeight(codec, inner), inner)
  }

  // ----- Decoding -----

  function DecodeHeight(bs: Bytes): Option<Height> {
    var fields := DecodeFields(bs);
    if fields.None? then None
    else
      var revision, height := NumberField(fields.value, 1, 0), NumberField(fields.value, 2, 0);
      if revision.None? || height.None? then None else Some(Height(revision.value, height.value))
  }

  /** The raw Wasm client state: data, checksum and height. */
  function DecodeWasm(bs: Bytes): (r: Option<(Bytes, Bytes, Height)>)
    ensures r.Some? && r.value.0 != [] ==> |r.value.0| + 2 <= |bs|
  {
    var fields := DecodeFields(bs);
    if fields.None? then None
    else
      var data, checksum := BytesField(fields.value, 1, []), BytesField(fields.value, 2, []);
      var height := MessageField(fields.value, 3);
      if data.None? || checksum.None? || height.None? || DecodeHeight(height.value).None? then None
      else
        assert data.value != [] ==> |data.value| + 2 <= |bs| by { DataShrinks(bs, data.value); }
        Some((data.value, checksum.value, DecodeHeight(height.value).value))
  }

  lemma DataShrinks(bs: Bytes, data: Bytes)
    requires DecodeFields(bs).Some? && BytesField(DecodeFields(bs).value, 1, []) == Some(data)
    ensures data != [] ==> |data| + 2 <= |bs|
  {
    var fields := DecodeFields(bs).value;
    if data != [] {
      var i :| 0 <= i < |fields| && fields[i] == Block(1, data);
      PayloadsShrink(bs, i);
    }
  }

  function KindOf<S>(codec: Codec<S>, url: Bytes): Option<Kind> {
    if url == codec.url(Grandpa) then Some(Grandpa)
    else if url == codec.url(Beefy) then Some(Beefy)
    else if url == codec.url(Tendermint) then Some(Tendermint)
    else None
  }

  /** Decoding an `Any`, which for a Wasm client state decodes what is inside as well.  It ends because the payload
      gets strictly shorter: only an empty one could not, and an empty one has no type. */
  function TryFrom<S>(codec: Codec<S>, any: Any): Option<ClientState<S>>
    decreases |any.value|
  {
    if any.typeUrl == [] then None
    else if any.typeUrl == codec.wasmUrl then
      var raw := DecodeWasm(any.value);
      if raw.None? then None
      else
        var (data, checksum, height) := raw.value;
        var inside := DecodeAny(data);
        if inside.None? || inside.value.typeUrl == [] then None
        else
          assert |inside.value.value| < |any.value| by { InsideShrinks(data, any.value); }
          var inner := TryFrom(codec, inside.value);
          if inner.None? then None else Some(Wasm(data, checksum, height, inner.value))
    else
      var kind := KindOf(codec, any.typeUrl);
      if kind.None? then None
      else
        var state := codec.decode(kind.value, any.value);
        if state.None? then None else Some(Native(kind.value, state.value))
  }

  lemma InsideShrinks(data: Bytes, value: Bytes)
    requires DecodeWasm(value).Some? && DecodeWasm(value).value.0 == data
    requires DecodeAny(data).Some? && DecodeAny(data).value.typeUrl != []
    ensures |DecodeAny(data).value.value| < |value|
  {
    AnyShrinks(data);
  }

  // ----- Unwrapping -----

  function UnpackRecursive<S>(c: ClientState<S>): ClientState<S> {
    match c
    case Wasm(_, _, _, inner) => UnpackRecursive(inner)
    case Native(_, _) => c
  }

  /** Decode, unwrap completely, and keep the result if it is wanted. */
  function Unwrapped<S>(codec: Codec<S>, any: Any, wanted: ClientState<S> -> bool): Option<ClientState<S>> {
    var c := TryFrom(codec, any);
    if c.None? then None
    else if wanted(UnpackRecursive(c.value)) then Some(UnpackRecursive(c.value))
    else None
  }

  /** On arbitrary bytes, decoding layer by layer ends and agrees with decoding everything and unwrapping. */
  method DecodeRecursive<S>(codec: Codec<S>, input: Any, wanted: ClientState<S> -> bool) returns (r: Option<ClientState<S>>)
    ensures r == Unwrapped(codec, input, wanted)
  {
    var any := input;
    while true
      invariant Unwrapped(codec, any, wanted) == Unwrapped(codec, input, wanted)
      decreases |any.value|
    {
      var c := TryFrom(codec, any);
      if c.None? {
        return None;
      }
      match c.value {
        case Wasm(data, _, _, inner) =>
          var inside := DecodeAny(data);
          if inside.None? {
            return None;
          }
          InsideShrinks(data, any.value);
          any := inside.value;
        case Native(_, _) =>
          return if wanted(c.value) then Some(c.value) else None;
      }
    }
  }

  // ----- Round trip -----

  /** The records `OptionalNumber` writes. */
  function NumberIf(tag: nat, value: nat): seq<Field> { if value == 0 then [] else [Number(tag, value)] }

  lemma DecodeOptionalNumber(tag: nat, value: nat, rest: Bytes)
    requires tag > 0 && DecodeFields(rest).Some?
    ensures DecodeFields(OptionalNumber(tag, value) + rest) == Some(NumberIf(tag, value) + DecodeFields(rest).value)
  {
    if value == 0 {
      assert OptionalNumber(tag, value) + rest == rest;
      assert NumberIf(tag, value) + DecodeFields(rest).value == DecodeFields(rest).value;
    } else {
      DecodeNumber(tag, value, rest);
    }
  }

  lemma {:induction false} NumberFieldConcat(a: seq<Field>, b: seq<Field>, tag: nat, current: nat)
    ensures NumberField(a + b, tag, current)
            == var first := NumberField(a, tag, current); if first.None? then None else NumberField(b, tag, first.value)
    decreases |a|
  {
    if a == [] {
      assert a + b == b;
    } else {
      assert (a + b)[1..] == a[1..] + b;
      NumberFieldConcat(a[1..], b, tag, current);
      if a[0].Number? { NumberFieldConcat(a[1..], b, tag, a[0].value); }
    }
  }

  lemma NumberIfReads(tag: nat, value: nat, other: nat, current: nat)
    ensures NumberField(NumberIf(tag, value), tag, 0) == Some(value)
    ensures other != tag ==> NumberField(NumberIf(tag, value), other, current) == Some(current)
  {
  }

  lemma HeightFields(h: Height)
    ensures DecodeFields(EncodeHeight(h)) == Some(NumberIf(1, h.revision) + NumberIf(2, h.height))
  {
    hide EncodeNumber, ReadField;
    var height := OptionalNumber(2, h.height);
    DecodeOptionalNumber(2, h.height, []);
    assert height + [] == height;
    assert NumberIf(2, h.height) + [] == NumberIf(2, h.height);
    DecodeOptionalNumber(1, h.revision, height);
  }

  lemma HeightRoundTrip(h: Height)
    ensures DecodeHeight(EncodeHeight(h)) == Some(h)
  {
    hide DecodeFields;
    HeightFields(h);
    NumberFieldConcat(NumberIf(1, h.revision), NumberIf(2, h.height), 1, 0);
    NumberFieldConcat(NumberIf(1, h.revision), NumberIf(2, h.height), 2, 0);
    NumberIfReads(1, h.revision, 2, 0);
    NumberIfReads(2, h.height, 1, h.revision);
  }

  lemma WasmFields(data: Bytes, checksum: Bytes, h: Height)
    ensures DecodeFields(EncodeWasm(data, checksum, h))
            == Some(BlockIf(1, data) + (BlockIf(2, checksum) + [Block(3, EncodeHeight(h))]))
  {
    hide EncodeBlock, EncodeHeight, ReadField;
    var height := EncodeBlock(3, EncodeHeight(h));
    DecodeBlock(3, EncodeHeight(h), []);
    assert height + [] == height;
    assert [Block(3, EncodeHeight(h))] + [] == [Block(3, EncodeHeight(h))];
    DecodeOptionalBlock(2, checksum, height);
    DecodeOptionalBlock(1, data, OptionalBlock(2, checksum) + height);
  }

  lemma {:induction false} MessageFieldSkips(a: seq<Field>, b: seq<Field>, tag: nat)
    requires forall i :: 0 <= i < |a| ==> a[i].tag != tag
    ensures MessageField(a + b, tag) == MessageField(b, tag)
    decreases |a|
  {
    if a == [] {
      assert a + b == b;
    } else {
      assert (a + b)[1..] == a[1..] + b;
      MessageFieldSkips(a[1..], b, tag);
    }
  }

  /** The records of an embedded message that comes in pieces are put together. */
  lemma {:induction false} MessageFieldMerges(a: seq<Field>, b: seq<Field>, tag: nat)
    ensures MessageField(a + b, tag)
            == var first, second := MessageField(a, tag), MessageField(b, tag);
               if first.None? || second.None? then None else Some(first.value + second.value)
    decreases |a|
  {
    if a == [] {
      assert a + b == b;
      assert MessageField(b, tag).Some? ==> [] + MessageField(b, tag).value == MessageField(b, tag).value;
    } else {
      assert (a + b)[1..] == a[1..] + b;
      MessageFieldMerges(a[1..], b, tag);
      var rest, second := MessageField(a[1..], tag), MessageField(b, tag);
      if a[0].Block? && rest.Some? && second.Some? {
        assert a[0].payload + (rest.value + second.value) == a[0].payload + rest.value + second.value;
      }
    }
  }

  lemma WasmRoundTrip(data: Bytes, checksum: Bytes, h: Height)
    ensures DecodeWasm(EncodeWasm(data, checksum, h)) == Some((data, checksum, h))
  {
    var height := EncodeHeight(h);
    var last := [Block(3, height)];
    WasmFields(data, checksum, h);
    HeightRoundTrip(h);
    MessageFieldSkips(BlockIf(1, data), BlockIf(2, checksum) + last, 3);
    MessageFieldSkips(BlockIf(2, checksum), last, 3);
    assert last[1..] == [] && height + [] == height;
    ReadBackWasm(data, checksum, height);
  }

  lemma ReadBackWasm(data: Bytes, checksum: Bytes, height: Bytes)
    ensures var fields := BlockIf(1, data) + (BlockIf(2, checksum) + [Block(3, height)]);
            BytesField(fields, 1, []) == Some(data) && BytesField(fields, 2, []) == Some(checksum)
  {
    var last := [Block(3, height)];
    assert last[1..] == [];
    BytesFieldConcat(BlockIf(1, data), BlockIf(2, checksum) + last, 1, []);
    BytesFieldConcat(BlockIf(1, data), BlockIf(2, checksum) + last, 2, []);
    BytesFieldConcat(BlockIf(2, checksum), last, 1, data);
    BytesFieldConcat(BlockIf(2, checksum), last, 2, []);
    BlockIfReads(1, data, 2, []);
    BlockIfReads(2, checksum, 1, data);
  }

  /** A state wrapped once for each checksum, the last one outermost. */
  function Nest<S>(codec: Codec<S>, c: ClientState<S>, checksums: seq<Bytes>): ClientState<S> {
    if checksums == [] then c
    else Wrap(codec, Nest(codec, c, checksums[..|checksums| - 1]), checksums[|checksums| - 1])
  }

  lemma {:induction false} NestRoundTrip<S(!new)>(codec: Codec<S>, c: ClientState<S>, checksums: seq<Bytes>)
    requires Lawful(codec) && c.Native?
    ensures ToAny(codec, Nest(codec, c, checksums)).typeUrl != []
    ensures TryFrom(codec, ToAny(codec, Nest(codec, c, checksums))) == Some(Nest(codec, c, checksums))
    ensures UnpackRecursive(Nest(codec, c, checksums)) == c
    decreases |checksums|
  {
    if checksums != [] {
      var k := |checksums| - 1;
      var inner := Nest(codec, c, checksums[..k]);
      NestRoundTrip(codec, c, checksums[..k]);
      var Wasm(data, checksum, height, _) := Nest(codec, c, checksums);
      AnyRoundTrip(ToAny(codec, inner));
      WasmRoundTrip(data, checksum, height);
    } else {
      assert KindOf(codec, codec.url(c.kind)) == Some(c.kind);
    }
  }

  /** However deeply it is wrapped, a state keeps its latest height, the outermost layer has the last checksum, and its data
      is the encoding of the layer inside. */
  lemma {:induction false} NestLayers<S>(codec: Codec<S>, c: ClientState<S>, checksums: seq<Bytes>)
    requires c.Native?
    ensures var nest := Nest(codec, c, checksums);
            && LatestHeight(codec, nest) == codec.latestHeight(c.kind, c.state)
            && (checksums == [] ==> nest == c)
            && (checksums != [] ==>
                  var k := |checksums| - 1;
                  && nest.Wasm? && nest.checksum == checksums[k] && nest.inner == Nest(codec, c, checksums[..k])
                  && DecodeAny(nest.data) == Some(ToAny(codec, nest.inner))
                  && ToAny(codec, nest).typeUrl == codec.wasmUrl
                  && DecodeWasm(ToAny(codec, nest).value)
                     == Some((nest.data, checksums[k], codec.latestHeight(c.kind, c.state))))
    decreases |checksums|
  {
    if checksums != [] {
      var k := |checksums| - 1;
      NestLayers(codec, c, checksums[..k]);
      var nest := Nest(codec, c, checksums);
      AnyRoundTrip(ToAny(codec, nest.inner));
      WasmRoundTrip(nest.data, nest.checksum, nest.latestHeight);
    }
  }

  /** Nothing is decoded unless its type is known and its payload, layer by layer, is one of that type. */
  lemma DecodesOnlyKnown<S(!new)>(codec: Codec<S>, any: Any)
    requires Lawful(codec)
    ensures var c := TryFrom(codec, any);
            && (any.typeUrl != codec.wasmUrl && (forall k :: any.typeUrl != codec.url(k)) ==> c == None)
            && (c.Some? && c.value.Native? ==>
                  && any.typeUrl == codec.url(c.value.kind)
                  && codec.decode(c.value.kind, any.value) == Some(c.value.state))
            && (c.Some? && c.value.Wasm? ==>
                  && any.typeUrl == codec.wasmUrl
                  && DecodeWasm(any.value) == Some((c.value.data, c.value.checksum, c.value.latestHeight))
                  && DecodeAny(c.value.data).Some?
                  && TryFrom(codec, DecodeAny(c.value.data).value) == Some(c.value.inner))
  {
  }

  /** However deeply a state is wrapped, unwrapping its encoding gives the state back, if it is wanted. */
  lemma UnwrapsAnyDepth<S(!new)>(codec: Codec<S>, c: ClientState<S>, checksums: seq<Bytes>, wanted: ClientState<S> -> bool)
    requires Lawful(codec) && c.Native?
    ensures Unwrapped(codec, ToAny(codec, Nest(codec, c, checksums)), wanted) == if wanted(c) then Some(c) else None
  {
    NestRoundTrip(codec, c, checksums);
  }
}
