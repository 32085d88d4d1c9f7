/** The start-time conversion shared by the process and session collectors:
    a kernel `timeval` becomes milliseconds since the epoch as
    `tv_sec * 1000 + tv_usec / 1000`, the second term in C integer division. */
module Timeval {
  import opened CNum

  function StartTimeMillis(sec: int, usec: int): (ms: int)
    ensures usec >= 0 ==> ms == (sec * 1_000_000 + usec) / 1000
    ensures 0 <= usec < 1_000_000 ==> sec * 1000 <= ms < sec * 1000 + 1000
    ensures usec <= 0 ==> sec * 1000 - ms == (-usec) / 1000
  {
    sec * 1000 + TruncDiv(usec, 1000)
  }
}
