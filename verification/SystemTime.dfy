/** The 32-bit millisecond clock, which wraps around, and the signed comparison of its readings. */
module SystemTime {
  const WRAP: int := 0x1_0000_0000
  const HALF: int := 0x8000_0000
  const MAX_DELAY: int := 0x7FFF_FFFF

  type uint32 = x: int | 0 <= x < 0x1_0000_0000

  /** What is left of a number in 32 bits. */
  function Wrap(x: int): uint32 {
    x % WRAP
  }

  /** Sum of two 32-bit numbers. */
  function Add(a: uint32, b: uint32): uint32 {
    if a + b < WRAP then a + b else a + b - WRAP
  }

  /** timeCompare: the difference of two readings as a signed 32-bit number. */
  function TimeCompare(t1: uint32, t2: uint32): int {
    var d := if t1 >= t2 then t1 - t2 else t1 - t2 + WRAP;
    if d < HALF then d else d - WRAP
  }

  lemma WrapDiff(x: int, y: int)
    ensures Wrap(x) - Wrap(y) - (x - y) == (y / WRAP - x / WRAP) * WRAP
  {
  }

  /** Readings compare like the times they were taken at, as long as these are less than 2^31 ms apart. */
  lemma Compares(x: int, y: int)
    requires -HALF <= x - y < HALF
    ensures TimeCompare(Wrap(x), Wrap(y)) == x - y
  {
    hide Wrap;
    WrapDiff(x, y);
  }

  lemma WrapAdd(x: int, d: uint32)
    ensures Add(Wrap(x), d) == Wrap(x + d)
  {
    hide Wrap;
    WrapDiff(x + d, x);
  }


  /** How long ago a reading was taken, on the clock that wraps. */
  function Age(stamp: uint32, time: uint32): uint32 {
    Wrap(time - stamp)
  }

  /** The first among the oldest of the first `n` readings: the entry that a full cache gives up. */
  function Oldest(stamps: seq<uint32>, time: uint32, n: nat): (o: nat)
    requires 0 < n <= |stamps|
    ensures o < n && (forall j :: 0 <= j < n ==> Age(stamps[j], time) <= Age(stamps[o], time))
    ensures forall j :: 0 <= j < o ==> Age(stamps[j], time) < Age(stamps[o], time)
  {
    if n == 1 then 0
    else
      var o := Oldest(stamps, time, n - 1);
      if Age(stamps[n - 1], time) > Age(stamps[o], time) then n - 1 else o
  }

  lemma {:induction false} OldestStep(stamps: seq<uint32>, time: uint32, k: nat)
    requires k < |stamps|
    ensures var o := if k == 0 then 0 else Oldest(stamps, time, k);
            Oldest(stamps, time, k + 1) == if Age(stamps[k], time) > Age(stamps[o], time) then k else o
  {
  }
}
