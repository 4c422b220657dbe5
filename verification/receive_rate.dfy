/** The receive-rate bookkeeping every satellite and ground-station device carries.

    A device counts the bytes it received since the last refresh in a 32-bit
    unsigned counter. A refresh turns the counter into bits per second and clears
    it. The source multiplies the counter by 8 in 32-bit arithmetic (so it wraps),
    divides by the interval in nanoseconds, and only then scales by 10^9, so the
    rate is truncated to whole gigabits per second. `RateAsWritten` is that
    computation; `RateScaledFirst` scales before dividing and is exact to within
    one bit per second.

    The interval is the value every arbiter parses as a positive integer; a zero
    interval (the static never initialised) would divide by zero and is reported
    as an abort.
 */
module ReceiveRate {
  import opened Outcomes
  import opened MachineInts
  import opened Arithmetic

  const NS_PER_S: nat := 1_000_000_000

  datatype RateDevice = RateDevice(receiveBytes: uint32, rate: uint64)

  /** A new device: nothing received, rate zero. */
  const NEW_DEVICE: RateDevice := RateDevice(0, 0)

  /** `receive_bytes * 8` in 32-bit unsigned arithmetic. */
  function Bits32(bytes: uint32): (bits: uint32)
    ensures bytes < 0x2000_0000 ==> bits == 8 * bytes
  {
    (bytes * 8) % 0x1_0000_0000
  }

  /** Division first, scaling second: the rate in whole gigabits per second. */
  function RateAsWritten(bytes: uint32, interval: int): (r: Outcome<uint64>)
    requires interval >= 0
    ensures r.Ok? <==> interval > 0
    ensures r.Ok? ==> r.value % NS_PER_S == 0
    ensures r.Ok? ==> (r.value / NS_PER_S) * interval <= Bits32(bytes) < (r.value / NS_PER_S + 1) * interval
    ensures r.Ok? ==> (r.value == 0 <==> Bits32(bytes) < interval)
  {
    if interval == 0 then Abort("division by zero: receive-rate interval not initialised")
    else
      var bits := Bits32(bytes);
      var q := bits / interval;
      DivBounds(bits, interval);
      MulMonotone(1, interval, q);
      MulMonotone(q, 0x1_0000_0000, NS_PER_S);
      DivUnique(q * NS_PER_S, NS_PER_S, q);
      assert (q * NS_PER_S) % NS_PER_S == 0 by {
        assert q * NS_PER_S == ((q * NS_PER_S) / NS_PER_S) * NS_PER_S + (q * NS_PER_S) % NS_PER_S;
      }
      MulMonotone(if q >= 1 then 1 else q, q, interval);
      var rate: uint64 := q * NS_PER_S;
      Ok(rate)
  }

  /** The quotient of the scaled counter fits the 64-bit rate and brackets the
      exact rate. */
  lemma ScaledQuotient(bits: uint32, interval: nat)
    requires interval > 0
    ensures (bits * NS_PER_S) / interval < 0x1_0000_0000_0000_0000
    ensures ((bits * NS_PER_S) / interval) * interval <= bits * NS_PER_S < ((bits * NS_PER_S) / interval + 1) * interval
  {
    var scaled := bits * NS_PER_S;
    DivBounds(scaled, interval);
    MulMonotone(1, interval, scaled / interval);
    MulMonotone(bits, 0x1_0000_0000, NS_PER_S);
  }

  /** Scaling first: the rate in bits per second, rounded down. */
  function RateScaledFirst(bytes: uint32, interval: int): (r: Outcome<uint64>)
    requires interval >= 0
    ensures r.Ok? <==> interval > 0
    ensures r.Ok? ==> r.value * interval <= Bits32(bytes) * NS_PER_S < (r.value + 1) * interval
  {
    if interval == 0 then Abort("division by zero: receive-rate interval not initialised")
    else
      ScaledQuotient(Bits32(bytes), interval);
      var rate: uint64 := (Bits32(bytes) * NS_PER_S) / interval;
      Ok(rate)
  }

  /** The rate the code computes never exceeds the exact one, and falls short of
      it by less than one gigabit per second. */
  lemma AsWrittenBelowScaledFirst(bytes: uint32, interval: int)
    requires interval > 0
    ensures RateAsWritten(bytes, interval).value <= RateScaledFirst(bytes, interval).value
            < RateAsWritten(bytes, interval).value + NS_PER_S
  {
    var bits := Bits32(bytes);
    var q := bits / interval;
    var e := RateScaledFirst(bytes, interval).value;
    DivBounds(bits, interval);
    // q * interval <= bits, so (q * N) * interval <= bits * N < (e + 1) * interval.
    MulMonotone(q * interval, bits, NS_PER_S);
    assert (q * NS_PER_S) * interval == (q * interval) * NS_PER_S;
    MulStrictCancel(q * NS_PER_S, e + 1, interval);
    // bits < (q + 1) * interval, so e * interval <= bits * N < ((q + 1) * N) * interval.
    MulMonotone(bits, (q + 1) * interval - 1, NS_PER_S);
    assert ((q + 1) * NS_PER_S) * interval == ((q + 1) * interval) * NS_PER_S;
    MulStrictCancel(e, (q + 1) * NS_PER_S, interval);
  }

  /** 12 500 bytes in one millisecond is 100 Mbit/s, but the code reports 0. */
  lemma HundredMegabitsReadAsZero()
    ensures RateAsWritten(12_500, 1_000_000) == Ok(0)
    ensures RateScaledFirst(12_500, 1_000_000) == Ok(100_000_000)
  {
  }

  /** `UpdateReceiveDataRate`: refresh the rate and clear the counter. */
  function Update(d: RateDevice, interval: int): (r: Outcome<RateDevice>)
    requires interval >= 0
    ensures r.Ok? <==> interval > 0
    ensures r.Ok? ==> r.value.receiveBytes == 0
    ensures r.Ok? ==> r.value.rate == RateAsWritten(d.receiveBytes, interval).value
  {
    var rate :- RateAsWritten(d.receiveBytes, interval);
    Ok(RateDevice(0, rate))
  }

  function GetReceiveDataRate(d: RateDevice): uint64 {
    d.rate
  }

  /** With no bytes in between, a second refresh reports zero, and the rate read
      between refreshes is the one the last refresh computed. */
  lemma SecondUpdateIsZero(d: RateDevice, interval: int)
    requires interval > 0
    ensures Update(Update(d, interval).value, interval) == Ok(RateDevice(0, 0))
    ensures GetReceiveDataRate(Update(d, interval).value) == RateAsWritten(d.receiveBytes, interval).value
  {
  }

  /** `UpdateReceiveDateRate(current_time)`: refresh, then ask for another refresh
      at `current_time + interval` only if that is before the end of the run. */
  function UpdateTimed(d: RateDevice, interval: int, now: int, end: int): (r: Outcome<(RateDevice, Option<int>)>)
    requires interval >= 0
    ensures r.Ok? <==> interval > 0
    ensures r.Ok? ==> Ok(r.value.0) == Update(d, interval)
    ensures r.Ok? ==> (r.value.1.Some? <==> now + interval < end)
    ensures r.Ok? && r.value.1.Some? ==> r.value.1.value == now + interval
  {
    var d' :- Update(d, interval);
    var next := now + interval;
    Ok((d', if next < end then Some(next) else None))
  }
}
