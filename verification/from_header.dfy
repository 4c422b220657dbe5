/** `IdSeqTsTosFromHeader`: the TOS header with a leading "from" node id.

    The id is an `int32`, the header declares four bytes for it, but the writer
    emits only its low byte (`WriteU8`) and the reader reads one byte back. Writer
    and reader agree on that one-byte offset, so the fields behind it still round
    trip; the id itself comes back reduced modulo 256 and the size returned by the
    reader is three bytes more than it read. `Serialize`/`Deserialize` model the
    code as written; `SerializeFourBytes`/`DeserializeFourBytes` are the codec the
    declared size implies, with the exact round trip proved.
 */
module FromHeaders {
  import opened Outcomes
  import opened MachineInts
  import opened TsHeaders
  import opened TosHeaders

  datatype FromHeader = FromHeader(from: int32, base: TosHeader)

  const FROM_BYTES: nat := 4

  /** A freshly constructed header: no sender recorded yet. */
  function NewFromHeader(now: uint64, idSeq: IdSeqFields): (h: FromHeader)
    ensures h.from == -1 && h.base.tos == 0 && h.base.base.ts == now
  {
    FromHeader(-1, NewTosHeader(now, idSeq))
  }

  function SetFrom(h: FromHeader, from: int32): (h': FromHeader)
    ensures h'.from == from && h'.base == h.base
  {
    h.(from := from)
  }

  /** The declared size: four bytes for the id on top of the TOS header. */
  function SerializedSize(h: FromHeader): nat {
    TosHeaders.SerializedSize(h.base) + FROM_BYTES
  }

  /** As written: the low byte of the id, then the TOS header. */
  function Serialize(h: FromHeader): (bytes: seq<byte>)
    ensures |bytes| == SerializedSize(h) - 3
    ensures (bytes[0] - h.from) % 256 == 0 && bytes[1..] == TosHeaders.Serialize(h.base)
  {
    [LowByte(h.from)] + TosHeaders.Serialize(h.base)
  }

  /** As written: one byte into the id, then the TOS header; returns the declared
      size. */
  function Deserialize(buf: seq<byte>, idSeqSize: nat): (r: Outcome<Decoded<FromHeader>>)
    ensures r.Ok? <==> |buf| >= 2 + TS_BYTES + idSeqSize
    ensures r.Ok? ==> 0 <= r.value.header.from < 256
                      && r.value.header.from == buf[0]
                      && r.value.consumed == 2 + TS_BYTES + idSeqSize
                      && r.value.reported == r.value.consumed + 3
                      && r.value.reported == SerializedSize(r.value.header)
  {
    if |buf| < 1 then Abort(OUT_OF_RANGE)
    else
      var b :- TosHeaders.Deserialize(buf[1..], idSeqSize);
      var h := FromHeader(buf[0], b.header);
      Ok(Decoded(h, SerializedSize(h), 1 + b.consumed))
  }

  /** What the code as written preserves: the TOS header completely, the id only
      modulo 256, and the returned size overstates the bytes read by three. */
  lemma {:induction false} RoundTripAsWritten(h: FromHeader, rest: seq<byte>)
    ensures Deserialize(Serialize(h) + rest, |h.base.base.idSeq.bytes|)
            == Ok(Decoded(FromHeader(LowByte(h.from), h.base), SerializedSize(h), SerializedSize(h) - 3))
  {
    var buf := Serialize(h) + rest;
    assert buf[1..] == TosHeaders.Serialize(h.base) + rest;
    TosHeaders.RoundTrip(h.base, rest);
  }

  /** The default id -1 is read back as 255, and node id 300 as 44. */
  lemma FromIdNotPreserved(tos: TosHeader)
    ensures var d := Deserialize(Serialize(FromHeader(-1, tos)), |tos.base.idSeq.bytes|);
            d.Ok? && d.value.header.from == 255
    ensures var d := Deserialize(Serialize(FromHeader(300, tos)), |tos.base.idSeq.bytes|);
            d.Ok? && d.value.header.from == 44
  {
    RoundTripAsWritten(FromHeader(-1, tos), []);
    assert Serialize(FromHeader(-1, tos)) + [] == Serialize(FromHeader(-1, tos));
    RoundTripAsWritten(FromHeader(300, tos), []);
    assert Serialize(FromHeader(300, tos)) + [] == Serialize(FromHeader(300, tos));
  }

  // The codec the declared four-byte size implies (network byte order).

  function SerializeFourBytes(h: FromHeader): (bytes: seq<byte>)
    ensures |bytes| == SerializedSize(h)
    ensures bytes[FROM_BYTES..] == TosHeaders.Serialize(h.base)
  {
    EncodeBE(FromInt32(h.from), FROM_BYTES) + TosHeaders.Serialize(h.base)
  }

  function DeserializeFourBytes(buf: seq<byte>, idSeqSize: nat): (r: Outcome<Decoded<FromHeader>>)
    ensures r.Ok? <==> |buf| >= FROM_BYTES + 1 + TS_BYTES + idSeqSize
    ensures r.Ok? ==> r.value.consumed == FROM_BYTES + 1 + TS_BYTES + idSeqSize
                      && r.value.consumed == r.value.reported == SerializedSize(r.value.header)
                      && SerializeFourBytes(r.value.header) == buf[..r.value.consumed]
  {
    if |buf| < FROM_BYTES then Abort(OUT_OF_RANGE)
    else
      var b :- TosHeaders.Deserialize(buf[FROM_BYTES..], idSeqSize);
      var head := buf[..FROM_BYTES];
      Pow256Eight();
      EncodeDecodeBE(head);
      var h := FromHeader(ToInt32(DecodeBE(head)), b.header);
      assert FromInt32(h.from) == DecodeBE(head);
      assert buf[..FROM_BYTES + b.consumed] == head + buf[FROM_BYTES..][..b.consumed];
      Ok(Decoded(h, SerializedSize(h), FROM_BYTES + b.consumed))
  }

  /** With four bytes written, every id and every base field round-trips and the
      returned size is exactly the number of bytes read. */
  lemma {:induction false} RoundTripFourBytes(h: FromHeader, rest: seq<byte>)
    ensures DeserializeFourBytes(SerializeFourBytes(h) + rest, |h.base.base.idSeq.bytes|)
            == Ok(Decoded(h, SerializedSize(h), SerializedSize(h)))
  {
    var buf := SerializeFourBytes(h) + rest;
    assert buf[FROM_BYTES..] == TosHeaders.Serialize(h.base) + rest;
    TosHeaders.RoundTrip(h.base, rest);
    var head := buf[..FROM_BYTES];
    assert head == EncodeBE(FromInt32(h.from), FROM_BYTES);
    Pow256Eight();
    DecodeEncodeBE(FromInt32(h.from), FROM_BYTES);
    Int32PatternRoundTrip(h.from);
  }
}
