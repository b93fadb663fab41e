/**
 * `MemInfo`, the memory report of palworld_server: five counters in kB, and
 * the amount in use derived from them.
 */
module Mem {
  import opened Wrappers
  import opened Ints

  datatype MemInfo = MemInfo(memTotal: u64, memFree: u64, memAvailable: u64, buffers: u64, cached: u64)

  /** `MemInfo::default()`: every counter zero. */
  const DEFAULT_MEM_INFO: MemInfo := MemInfo(0, 0, 0, 0, 0)

  /** `used`: total minus available, or nothing when available exceeds total
      (`checked_sub` would underflow). */
  function Used(m: MemInfo): (r: Option<u64>)
    ensures r.None? <==> m.memAvailable > m.memTotal
    ensures r.Some? ==> r.value + m.memAvailable == m.memTotal
  {
    if m.memAvailable <= m.memTotal then Some(m.memTotal - m.memAvailable) else None
  }

  /** What `used_percent` divides: the amount in use over the total. Its floating
      point quotient is not modelled. */
  datatype Ratio = Ratio(numerator: u64, denominator: u64)

  /** `used_percent`: defined exactly when `used` is, as used over total. */
  function UsedPercent(m: MemInfo): (r: Option<Ratio>)
    ensures r.Some? <==> Used(m).Some?
    ensures r.Some? ==> r.value.denominator == m.memTotal && r.value.numerator + m.memAvailable == m.memTotal
  {
    match Used(m)
    case Some(used) => Some(Ratio(used, m.memTotal))
    case None => None
  }

  /** What is in use never exceeds the total. */
  lemma UsedAtMostTotal(m: MemInfo)
    requires Used(m).Some?
    ensures Used(m).value <= m.memTotal
  {
  }

  /** Only the total and the available amount matter to `used`. */
  lemma UsedIgnoresOtherCounters(m: MemInfo, free: u64, buffers: u64, cached: u64)
    ensures Used(m.(memFree := free, buffers := buffers, cached := cached)) == Used(m)
  {
  }

  /** The default report has nothing in use. */
  lemma DefaultUsed()
    ensures Used(DEFAULT_MEM_INFO) == Some(0)
  {
  }

  /** A report whose total is zero still has a ratio, 0 over 0: the source's
      float division then yields NaN rather than an absent value. */
  lemma ZeroTotalHasRatio(m: MemInfo)
    requires m.memTotal == 0 && m.memAvailable == 0
    ensures UsedPercent(m) == Some(Ratio(0, 0))
  {
  }
}
