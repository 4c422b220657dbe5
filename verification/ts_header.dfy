/** The timestamped application header `IdSeqTsHeader`.

    It extends the id/sequence header `IdSeqHeader`, whose codec is not part of
    this model: its fields are carried as the byte block they serialize to, and a
    reader is told how many bytes that block has. A read past the end of the
    buffer is reported as an abort.
 */
module TsHeaders {
  import opened Outcomes
  import opened MachineInts

  /** The base-class fields, as the bytes the base class writes for them. */
  datatype IdSeqFields = IdSeqFields(bytes: seq<byte>)

  /** `ts` is the ns-3 time step at which the header object was constructed. */
  datatype TsHeader = TsHeader(ts: uint64, idSeq: IdSeqFields)

  /** What a `Deserialize` call leaves behind: the header, the byte count it
      returns (`GetSerializedSize`) and the number of bytes it actually read. */
  datatype Decoded<H> = Decoded(header: H, reported: nat, consumed: nat)

  const TS_BYTES: nat := 8

  function SerializedSize(h: TsHeader): nat {
    |h.idSeq.bytes| + TS_BYTES
  }

  /** The timestamp in network byte order, then the base fields. */
  function Serialize(h: TsHeader): (bytes: seq<byte>)
    ensures |bytes| == SerializedSize(h)
    ensures DecodeBE(bytes[..TS_BYTES]) == h.ts
    ensures bytes[TS_BYTES..] == h.idSeq.bytes
  {
    Pow256Eight();
    DecodeEncodeBE(h.ts, TS_BYTES);
    var out := EncodeBE(h.ts, TS_BYTES) + h.idSeq.bytes;
    assert out[..TS_BYTES] == EncodeBE(h.ts, TS_BYTES);
    out
  }

  /** Reads eight big-endian bytes into the timestamp, then `idSeqSize` bytes of
      base fields, and returns the header's serialized size. */
  function Deserialize(buf: seq<byte>, idSeqSize: nat): (r: Outcome<Decoded<TsHeader>>)
    ensures r.Ok? <==> |buf| >= TS_BYTES + idSeqSize
    ensures r.Ok? ==> r.value.consumed == TS_BYTES + idSeqSize
                      && Serialize(r.value.header) == buf[..r.value.consumed]
                      && r.value.reported == SerializedSize(r.value.header)
  {
    if |buf| < TS_BYTES + idSeqSize then Abort(OUT_OF_RANGE)
    else
      var head := buf[..TS_BYTES];
      Pow256Eight();
      EncodeDecodeBE(head);
      var h := TsHeader(DecodeBE(head), IdSeqFields(buf[TS_BYTES..TS_BYTES + idSeqSize]));
      assert buf[..TS_BYTES + idSeqSize] == head + h.idSeq.bytes;
      Ok(Decoded(h, SerializedSize(h), TS_BYTES + idSeqSize))
  }

  /** Every timestamp and base block survives a write followed by a read, whatever
      follows the header in the buffer. */
  lemma {:induction false} RoundTrip(h: TsHeader, rest: seq<byte>)
    ensures Deserialize(Serialize(h) + rest, |h.idSeq.bytes|)
            == Ok(Decoded(h, SerializedSize(h), SerializedSize(h)))
  {
    var buf := Serialize(h) + rest;
    var n := SerializedSize(h);
    assert buf[..n] == Serialize(h);
    var d := Deserialize(buf, |h.idSeq.bytes|).value;
    assert Serialize(d.header) == Serialize(h);
    assert d.header.ts == h.ts by {
      assert Serialize(d.header)[..TS_BYTES] == Serialize(h)[..TS_BYTES];
    }
    assert d.header.idSeq.bytes == h.idSeq.bytes by {
      assert Serialize(d.header)[TS_BYTES..] == Serialize(h)[TS_BYTES..];
    }
  }
}
