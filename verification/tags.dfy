/** Packet tags: `FlowTosTag` (one byte, the flow's TOS) and `FromTag` (the
    previous hop's node id as an unsigned 64-bit value). Tags are written with
    ns-3's `TagBuffer`, whose multi-byte writes put the least significant byte
    first. A read from a buffer shorter than the tag is reported as an abort.
 */
module FlowTosTags {
  import opened Outcomes
  import opened MachineInts

  datatype FlowTosTag = FlowTosTag(tos: byte)

  const DEFAULT_FLOW_TOS_TAG: FlowTosTag := FlowTosTag(0)

  function SerializedSize(t: FlowTosTag): nat {
    1
  }

  function Serialize(t: FlowTosTag): (bytes: seq<byte>)
    ensures |bytes| == SerializedSize(t)
  {
    [t.tos]
  }

  function Deserialize(buf: seq<byte>): (r: Outcome<FlowTosTag>)
    ensures r.Ok? <==> |buf| >= 1
    ensures r.Ok? ==> Serialize(r.value) == buf[..1]
  {
    if |buf| < 1 then Abort(OUT_OF_RANGE) else Ok(FlowTosTag(buf[0]))
  }

  /** Every TOS byte survives a write followed by a read. */
  lemma RoundTrip(t: FlowTosTag, rest: seq<byte>)
    ensures Deserialize(Serialize(t) + rest) == Ok(t)
  {
  }
}

module FromTags {
  import opened Outcomes
  import opened MachineInts

  datatype FromTag = FromTag(from: uint64)

  /** The constructor stores -1 in an unsigned 64-bit field. */
  const DEFAULT_FROM_TAG: FromTag := FromTag(UINT64_MAX)

  lemma DefaultIsMinusOne()
    ensures (DEFAULT_FROM_TAG.from - -1) % 0x1_0000_0000_0000_0000 == 0
  {
  }

  const FROM_TAG_BYTES: nat := 8

  function SerializedSize(t: FromTag): nat {
    FROM_TAG_BYTES
  }

  function Serialize(t: FromTag): (bytes: seq<byte>)
    ensures |bytes| == SerializedSize(t)
    ensures DecodeLE(bytes) == t.from
  {
    Pow256Eight();
    DecodeEncodeLE(t.from, FROM_TAG_BYTES);
    EncodeLE(t.from, FROM_TAG_BYTES)
  }

  function Deserialize(buf: seq<byte>): (r: Outcome<FromTag>)
    ensures r.Ok? <==> |buf| >= FROM_TAG_BYTES
    ensures r.Ok? ==> Serialize(r.value) == buf[..FROM_TAG_BYTES]
  {
    if |buf| < FROM_TAG_BYTES then Abort(OUT_OF_RANGE)
    else
      var head := buf[..FROM_TAG_BYTES];
      Pow256Eight();
      EncodeDecodeLE(head);
      Ok(FromTag(DecodeLE(head)))
  }

  /** Every 64-bit value survives a write followed by a read. */
  lemma {:induction false} RoundTrip(t: FromTag, rest: seq<byte>)
    ensures Deserialize(Serialize(t) + rest) == Ok(t)
  {
    var buf := Serialize(t) + rest;
    assert buf[..FROM_TAG_BYTES] == Serialize(t);
  }
}
