/** The estimated weight of a Cosmos transaction body against its real encoding. */
module TxWeight {
  import opened Common
  import opened Protobuf
  import opened MessageQueue

  /** "ibc" in ASCII, the memo of every transaction. */
  const MEMO: Bytes := [105, 98, 99]

  /** Each message is one length-delimited record with tag 1, written even when it is empty. */
  function EncodeMessages(messages: seq<Any>): Bytes {
    if messages == [] then []
    else EncodeMessages(messages[..|messages| - 1]) + EncodeBlock(1, EncodeAny(messages[|messages| - 1]))
  }

  /** The transaction body: messages, memo, a zero timeout height and no extension options. */
  function EncodeTxBody(messages: seq<Any>): Bytes {
    EncodeMessages(messages) + OptionalBlock(2, MEMO)
  }

  /** The length of a length-delimited record with a small tag: the tag, the delimiter and the payload. */
  lemma BlockLength(tag: nat, payload: Bytes)
    requires 8 * tag + 2 < 128
    ensures |EncodeBlock(tag, payload)| == 1 + VarintLen(|payload|) + |payload|
  {
  }

  /** `encoded_len` of a message, computed without encoding it. */
  function EncodedLen(a: Any): (n: nat)
    ensures n == |EncodeAny(a)|
  {
    BlockLength(1, a.typeUrl);
    BlockLength(2, a.value);
    (if a.typeUrl == [] then 0 else 1 + VarintLen(|a.typeUrl|) + |a.typeUrl|)
    + (if a.value == [] then 0 else 1 + VarintLen(|a.value|) + |a.value|)
  }

  /** The running estimate is exactly the length of the encoded body, for every list of messages. */
  method EstimateWeight(messages: seq<Any>) returns (len: nat)
    ensures len == |EncodeTxBody(messages)|
  {
    len := |EncodeTxBody([])|;
    var i := 0;
    while i < |messages|
      invariant 0 <= i <= |messages|
      invariant len == |EncodeMessages(messages[..i])| + |OptionalBlock(2, MEMO)|
    {
      var messageLen := EncodedLen(messages[i]);
      var taggedLen := 1 + VarintLen(messageLen) + messageLen;
      len := len + taggedLen;
      BlockLength(1, EncodeAny(messages[i]));
      assert messages[..i + 1][..i] == messages[..i];
      i := i + 1;
    }
    assert messages[..i] == messages;
  }

  // ----- Batches of messages against the size limit of a transaction -----

  /** What a message adds to the body: the field tag, the length delimiter and the message. */
  function TaggedLen(a: Any): nat { 1 + VarintLen(EncodedLen(a)) + EncodedLen(a) }

  lemma {:induction false} WeightOfLast<M>(msgs: seq<M>, m: M, weigh: M -> nat)
    ensures TotalWeight(msgs + [m], weigh) == TotalWeight(msgs, weigh) + weigh(m)
  {
    if msgs == [] {
      assert ([m])[1..] == [];
    } else {
      assert (msgs + [m])[1..] == msgs[1..] + [m];
      WeightOfLast(msgs[1..], m, weigh);
    }
  }

  lemma {:induction false} MessagesLength(messages: seq<Any>)
    ensures |EncodeMessages(messages)| == TotalWeight(messages, TaggedLen)
    decreases |messages|
  {
    hide EncodeAny, EncodeBlock, VarintLen;
    if messages != [] {
      var k := |messages| - 1;
      MessagesLength(messages[..k]);
      WeightOfLast(messages[..k], messages[k], TaggedLen);
      assert messages == messages[..k] + [messages[k]];
      BlockLength(1, EncodeAny(messages[k]));
    }
  }

  /** The fixed part of a body: the memo with its tag and its length. */
  const BODY_BASE: nat := 5

  /** A transaction body is five bytes longer than what its messages add to it. */
  lemma BodyLength(messages: seq<Any>)
    ensures |EncodeTxBody(messages)| == 5 + TotalWeight(messages, TaggedLen)
  {
    MessagesLength(messages);
    BlockLength(2, MEMO);
  }

  /** Every transaction submitted is within the maximum size. */
  ghost predicate BodiesFit(messages: seq<Any>, maxTxSize: nat)
    requires maxTxSize > 0
  {
    var plan := Plan(messages, |EncodeTxBody(messages)|, maxTxSize);
    forall i :: 0 <= i < |plan| ==> |EncodeTxBody(plan[i])| <= maxTxSize
  }

  lemma BodiesAreBatches(messages: seq<Any>, maxTxSize: nat)
    requires maxTxSize > 0
    ensures BodiesFit(messages, maxTxSize) <==> AllFit(messages, TaggedLen, BODY_BASE, maxTxSize)
  {
    hide EncodeTxBody, TotalWeight, Plan;
    BodyLength(messages);
    var plan := Plan(messages, |EncodeTxBody(messages)|, maxTxSize);
    forall i | 0 <= i < |plan| ensures |EncodeTxBody(plan[i])| == BODY_BASE + TotalWeight(plan[i], TaggedLen) {
      BodyLength(plan[i]);
    }
  }

  /** So whatever the order of the messages, every transaction body is within the maximum size, if and only if the longest
      messages, as many as go into one batch, make one that is. */
  lemma EveryOrderOfBodiesFitsIff(messages: seq<Any>, maxTxSize: nat)
    requires maxTxSize > 0
    ensures (forall order: seq<Any> :: multiset(order) == multiset(messages) ==> BodiesFit(order, maxTxSize))
            <==> HeaviestFit(messages, TaggedLen, BODY_BASE, maxTxSize)
  {
    hide BodiesFit, AllFit, HeaviestFit;
    EveryOrderFitsIff(messages, TaggedLen, BODY_BASE, maxTxSize);
    forall order: seq<Any> ensures BodiesFit(order, maxTxSize) <==> AllFit(order, TaggedLen, BODY_BASE, maxTxSize) {
      BodiesAreBatches(order, maxTxSize);
    }
  }

  /** Even equally long messages can make a body that is too long: ten that add 100 bytes each go out in batches of five,
      505 bytes long, where the maximum is 503 and each alone would be 105 bytes long. */
  lemma EvenBodiesTooLong(a: Any, messages: seq<Any>)
    requires TaggedLen(a) == 100 && messages == seq(10, _ => a)
    ensures |EncodeTxBody([a])| == 105 && !BodiesFit(messages, 503)
  {
    hide EncodeTxBody, BodiesFit, AllFit, TaggedLen;
    BodyLength([a]);
    assert TotalWeight([a], TaggedLen) == TaggedLen(a) + TotalWeight([a][1..], TaggedLen);
    BodiesAreBatches(messages, 503);
    EvenFitsIff(messages, TaggedLen, BODY_BASE, 100, 503);
  }

  /** Such a message: a value of 96 bytes without a type URL. */
  lemma HundredBytes(value: Bytes)
    requires |value| == 96
    ensures TaggedLen(Any([], value)) == 100
  {
  }

  // ----- The body can be read back, so its length is that of a real encoding -----

  function MessageFields(messages: seq<Any>): seq<Field> {
    if messages == [] then []
    else MessageFields(messages[..|messages| - 1]) + [Block(1, EncodeAny(messages[|messages| - 1]))]
  }

  lemma {:induction false} DecodeMessages(messages: seq<Any>, rest: Bytes)
    requires DecodeFields(rest).Some?
    ensures DecodeFields(EncodeMessages(messages) + rest) == Some(MessageFields(messages) + DecodeFields(rest).value)
    decreases |messages|
  {
    hide EncodeBlock, EncodeAny, ReadField, DecodeFields;
    if messages == [] {
      assert EncodeMessages(messages) + rest == rest;
      assert MessageFields(messages) + DecodeFields(rest).value == DecodeFields(rest).value;
    } else {
      var k := |messages| - 1;
      var last := EncodeBlock(1, EncodeAny(messages[k]));
      DecodeBlock(1, EncodeAny(messages[k]), rest);
      DecodeMessages(messages[..k], last + rest);
      assert EncodeMessages(messages) + rest == EncodeMessages(messages[..k]) + (last + rest);
      assert MessageFields(messages) + DecodeFields(rest).value
          == MessageFields(messages[..k]) + DecodeFields(last + rest).value;
    }
  }

  /** Decoding the body yields one record per message, in order, followed by the memo. */
  lemma TxBodyRoundTrip(messages: seq<Any>)
    ensures DecodeFields(EncodeTxBody(messages)) == Some(MessageFields(messages) + [Block(2, [105, 98, 99])])
  {
    hide EncodeBlock, EncodeAny, ReadField;
    DecodeOptionalBlock(2, MEMO, []);
    assert [Block(2, MEMO)] + [] == [Block(2, MEMO)];
    assert OptionalBlock(2, MEMO) + [] == OptionalBlock(2, MEMO);
    DecodeMessages(messages, OptionalBlock(2, MEMO));
  }
}
