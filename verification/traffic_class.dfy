/** Traffic classes carried in the type-of-service byte of a packet.

    The three non-default classes use exactly the three flag bits that section 3.1
    of RFC 791 defines in the Type of Service octet: low delay (class A, interactive
    traffic that never detours), high throughput (class B, detours only inside the
    LEO layer) and high reliability (class C, best effort, may be sent up to a GEO
    relay). A zero byte is the default class, routed like untagged traffic.
 */
module TrafficClasses {
  import opened Outcomes
  import opened MachineInts

  /** The Type of Service flag bits of section 3.1 of RFC 791. */
  const TOS_LOW_DELAY: byte := 0x10
  const TOS_HIGH_THROUGHPUT: byte := 0x08
  const TOS_HIGH_RELIABILITY: byte := 0x04
  const TOS_ROUTINE: byte := 0x00

  datatype TrafficClass = ClassA | ClassB | ClassC | ClassDefault

  /** The byte value each enumerator is declared with. */
  function ClassTos(c: TrafficClass): (tos: byte)
    ensures tos == TOS_ROUTINE <==> c == ClassDefault
    ensures tos in {TOS_LOW_DELAY, TOS_HIGH_THROUGHPUT, TOS_HIGH_RELIABILITY, TOS_ROUTINE}
  {
    match c
    case ClassA => TOS_LOW_DELAY
    case ClassB => TOS_HIGH_THROUGHPUT
    case ClassC => TOS_HIGH_RELIABILITY
    case ClassDefault => TOS_ROUTINE
  }

  /** Decoding of a TOS byte; every byte outside the four known values aborts. */
  function Tos2TrafficClass(tos: byte): (r: Outcome<TrafficClass>)
    ensures r.Ok? <==> tos in {TOS_LOW_DELAY, TOS_HIGH_THROUGHPUT, TOS_HIGH_RELIABILITY, TOS_ROUTINE}
    ensures r.Ok? ==> ClassTos(r.value) == tos
  {
    if tos == 0x10 then Ok(ClassA)
    else if tos == 0x08 then Ok(ClassB)
    else if tos == 0x04 then Ok(ClassC)
    else if tos == 0x00 then Ok(ClassDefault)
    else Abort("invalid tos in IdSeqTsTosHeader")
  }

  /** The display name of a class. */
  function TrafficClass2String(c: TrafficClass): (name: string)
    ensures |name| >= 1
    ensures name == "Default" <==> c == ClassDefault
  {
    match c
    case ClassA => "A"
    case ClassB => "B"
    case ClassC => "C"
    case ClassDefault => "Default"
  }

  /** The list of all classes, in declaration order of the source. */
  const TrafficClassVec: seq<TrafficClass> := [ClassA, ClassB, ClassC, ClassDefault]

  /** Decoding the byte of a class gives that class back, and a decoded byte
      re-encodes to itself: the mapping is a bijection between the four classes and
      the four accepted bytes. */
  lemma TosRoundTrip(c: TrafficClass, tos: byte)
    ensures Tos2TrafficClass(ClassTos(c)) == Ok(c)
    ensures Tos2TrafficClass(tos).Ok? ==> ClassTos(Tos2TrafficClass(tos).value) == tos
  {
  }

  /** Different classes carry different bytes and different names. */
  lemma ClassesDistinguishable(c1: TrafficClass, c2: TrafficClass)
    ensures ClassTos(c1) == ClassTos(c2) ==> c1 == c2
    ensures TrafficClass2String(c1) == TrafficClass2String(c2) ==> c1 == c2
  {
    if TrafficClass2String(c1) == TrafficClass2String(c2) {
      var n1, n2 := TrafficClass2String(c1), TrafficClass2String(c2);
      assert |n1| == |n2| && n1[0] == n2[0];
    }
  }

  /** The class list holds every class exactly once. */
  lemma TrafficClassVecEnumerates(c: TrafficClass)
    ensures c in TrafficClassVec
    ensures forall i, j :: 0 <= i < j < |TrafficClassVec| ==> TrafficClassVec[i] != TrafficClassVec[j]
  {
  }
}
