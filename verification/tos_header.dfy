/** `IdSeqTsTosHeader`: the timestamped header with a leading type-of-service byte.

    The source file also carries its own copy of the class mapping and of the class
    list; `HeaderTos2TrafficClass` and `HeaderTrafficClassVec` model that copy, and
    `DuplicateMappingAgrees` shows it behaves exactly like the one in
    `TrafficClasses`.
 */
module TosHeaders {
  import opened Outcomes
  import opened MachineInts
  import opened TsHeaders
  import TC = TrafficClasses

  datatype TosHeader = TosHeader(tos: byte, base: TsHeader)

  /** A freshly constructed header: routine class, timestamp of construction. */
  function NewTosHeader(now: uint64, idSeq: IdSeqFields): (h: TosHeader)
    ensures TC.Tos2TrafficClass(h.tos) == Ok(TC.ClassDefault)
    ensures h.base.ts == now
  {
    TosHeader(0, TsHeader(now, idSeq))
  }

  function SetTos(h: TosHeader, tos: byte): (h': TosHeader)
    ensures h'.tos == tos && h'.base == h.base
  {
    h.(tos := tos)
  }

  function SerializedSize(h: TosHeader): nat {
    TsHeaders.SerializedSize(h.base) + 1
  }

  /** The TOS byte first, then the timestamped header. */
  function Serialize(h: TosHeader): (bytes: seq<byte>)
    ensures |bytes| == SerializedSize(h)
    ensures bytes[0] == h.tos && bytes[1..] == TsHeaders.Serialize(h.base)
  {
    [h.tos] + TsHeaders.Serialize(h.base)
  }

  function Deserialize(buf: seq<byte>, idSeqSize: nat): (r: Outcome<Decoded<TosHeader>>)
    ensures r.Ok? <==> |buf| >= 1 + TS_BYTES + idSeqSize
    ensures r.Ok? ==> r.value.header.tos == buf[0]
                      && r.value.consumed == 1 + TS_BYTES + idSeqSize
                      && Serialize(r.value.header) == buf[..r.value.consumed]
                      && r.value.reported == SerializedSize(r.value.header)
  {
    if |buf| < 1 then Abort(OUT_OF_RANGE)
    else
      var b :- TsHeaders.Deserialize(buf[1..], idSeqSize);
      var h := TosHeader(buf[0], b.header);
      assert buf[..1 + b.consumed] == [buf[0]] + buf[1..][..b.consumed];
      Ok(Decoded(h, SerializedSize(h), 1 + b.consumed))
  }

  /** The TOS byte and every base field survive a write followed by a read. */
  lemma {:induction false} RoundTrip(h: TosHeader, rest: seq<byte>)
    ensures Deserialize(Serialize(h) + rest, |h.base.idSeq.bytes|)
            == Ok(Decoded(h, SerializedSize(h), SerializedSize(h)))
  {
    var buf := Serialize(h) + rest;
    assert buf[1..] == TsHeaders.Serialize(h.base) + rest;
    TsHeaders.RoundTrip(h.base, rest);
  }

  // The copy of the class mapping that this source file defines as well.

  const HeaderTrafficClassVec: seq<TC.TrafficClass> :=
    [TC.ClassA, TC.ClassB, TC.ClassC, TC.ClassDefault]

  function HeaderTos2TrafficClass(tos: byte): (r: Outcome<TC.TrafficClass>)
    ensures r.Ok? <==> tos in {0x10, 0x08, 0x04, 0x00}
  {
    match tos
    case 0x10 => Ok(TC.ClassA)
    case 0x08 => Ok(TC.ClassB)
    case 0x04 => Ok(TC.ClassC)
    case 0x00 => Ok(TC.ClassDefault)
    case _ => Abort("invalid tos in IdSeqTsTosHeader")
  }

  function HeaderTrafficClass2String(c: TC.TrafficClass): (name: string)
    ensures |name| >= 1
  {
    if c == TC.ClassA then "A"
    else if c == TC.ClassB then "B"
    else if c == TC.ClassC then "C"
    else "Default"
  }

  /** The duplicate definitions agree with the shared ones on every input. */
  lemma DuplicateMappingAgrees(tos: byte, c: TC.TrafficClass)
    ensures HeaderTos2TrafficClass(tos) == TC.Tos2TrafficClass(tos)
    ensures HeaderTrafficClass2String(c) == TC.TrafficClass2String(c)
    ensures HeaderTrafficClassVec == TC.TrafficClassVec
  {
  }
}
