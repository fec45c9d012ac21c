/**
 * What the monitor task computes between its reports: how deep each stack
 * has ever been used, judged by the first byte above the base that no
 * longer holds the fill pattern, and the uptime split into h/m/s.
 */
module StackMonitor {
  import opened Avr

  /** The byte every stack is filled with at creation. */
  const SENTINEL: byte := 0xAA

  /** Index of the first non-sentinel byte at or above `j`, or 0 if there is none. */
  function FirstFrom(s: seq<byte>, j: nat): nat
    requires j <= |s|
    decreases |s| - j
  {
    if j == |s| then 0
    else if s[j] != SENTINEL then j
    else FirstFrom(s, j + 1)
  }

  /** `used` as the scan leaves it: the first non-sentinel byte from the base, or 0. */
  function FirstUsed(s: seq<byte>): nat
  {
    FirstFrom(s, 0)
  }

  /** The value the scan stores in `highWaterMark`. */
  function HighWaterMark(s: seq<byte>): nat
  {
    FirstUsedBound(s);
    |s| - FirstUsed(s)
  }

  predicate Untouched(s: seq<byte>)
  {
    forall k :: 0 <= k < |s| ==> s[k] == SENTINEL
  }

  lemma {:induction false} FirstFromSpec(s: seq<byte>, j: nat)
    requires j <= |s|
    ensures var u := FirstFrom(s, j);
      (j <= u < |s| && s[u] != SENTINEL && forall k :: j <= k < u ==> s[k] == SENTINEL)
      || (u == 0 && forall k :: j <= k < |s| ==> s[k] == SENTINEL)
    decreases |s| - j
  {
    if j < |s| && s[j] == SENTINEL {
      FirstFromSpec(s, j + 1);
    }
  }

  /**
   * The scan's result: either the first byte from the base that differs from
   * the sentinel (everything below it still holds the sentinel), or 0 when
   * the whole region still holds the sentinel.
   */
  lemma FirstUsedSpec(s: seq<byte>)
    ensures var u := FirstUsed(s);
      (u < |s| && s[u] != SENTINEL && forall k :: 0 <= k < u ==> s[k] == SENTINEL)
      || (u == 0 && Untouched(s))
  {
    FirstFromSpec(s, 0);
  }

  lemma FirstUsedBound(s: seq<byte>)
    ensures FirstUsed(s) <= |s| && (|s| > 0 ==> FirstUsed(s) < |s|)
  {
    FirstUsedSpec(s);
  }

  /** A non-empty region always reports between 1 and its full size. */
  lemma WatermarkBounds(s: seq<byte>)
    requires |s| > 0
    ensures 1 <= HighWaterMark(s) <= |s|
  {
    FirstUsedBound(s);
  }

  /** A region that still holds only the sentinel reports its full size. */
  lemma WatermarkUntouched(s: seq<byte>)
    requires Untouched(s)
    ensures HighWaterMark(s) == |s|
  {
    FirstUsedSpec(s);
  }

  /**
   * Any byte that still differs from the sentinel at offset `d` is counted:
   * the report is at least the depth `|s| - d`, however shallow the task is
   * when the scan runs.
   */
  lemma WatermarkCoversDeepest(s: seq<byte>, d: nat)
    requires d < |s| && s[d] != SENTINEL
    ensures HighWaterMark(s) >= |s| - d
  {
    FirstUsedSpec(s);
  }

  /** When the lowest used byte sits at offset `d`, the report is exactly `|s| - d`. */
  lemma WatermarkExact(s: seq<byte>, d: nat)
    requires d < |s| && s[d] != SENTINEL
    requires forall k :: 0 <= k < d ==> s[k] == SENTINEL
    ensures HighWaterMark(s) == |s| - d
  {
    FirstUsedSpec(s);
  }

  /** The inner scan of the monitor: walk up from the base and stop at the first used byte. */
  method ScanUsed(mem: array<byte>, size: nat) returns (used: nat)
    requires size <= mem.Length
    ensures used == FirstUsed(mem[..size])
  {
    used := 0;
    var j := 0;
    while j < size
      invariant 0 <= j <= size
      invariant FirstUsed(mem[..size]) == FirstFrom(mem[..size], j)
    {
      if mem[j] != SENTINEL {
        used := j;
        break;
      }
      j := j + 1;
    }
  }

  newtype u32 = x: int | 0 <= x < 0x1_0000_0000

  datatype Uptime = Uptime(hours: nat, minutes: nat, seconds: nat)

  /** The uptime line's three numbers, from the millisecond clock. */
  function UptimeOf(ms: u32): (u: Uptime)
    ensures u.hours * 3600 + u.minutes * 60 + u.seconds == ms as int / 1000
    ensures u.minutes < 60 && u.seconds < 60
    ensures u.hours <= 1193
  {
    var total := ms as int / 1000;
    var u := Uptime(total / 3600, (total % 3600) / 60, total % 60);
    SplitSeconds(total);
    u
  }

  lemma SplitSeconds(total: nat)
    ensures (total / 3600) * 3600 + ((total % 3600) / 60) * 60 + total % 60 == total
  {
    var h, r := total / 3600, total % 3600;
    var m, s := r / 60, r % 60;
    assert r == m * 60 + s;
    RemainderBy60(total, h * 60 + m, s);
  }

  lemma RemainderBy60(t: int, q: int, r: int)
    requires 0 <= r < 60 && t == q * 60 + r
    ensures t % 60 == r
  {
  }

  /** The split is the only one with minutes and seconds below 60. */
  lemma UptimeUnique(ms: u32, h: nat, m: nat, s: nat)
    requires m < 60 && s < 60
    requires h * 3600 + m * 60 + s == ms as int / 1000
    ensures UptimeOf(ms) == Uptime(h, m, s)
  {
    var total := ms as int / 1000;
    var u := UptimeOf(ms);
    assert m * 60 + s < 3600;
    assert total / 3600 == h;
    assert (total % 3600) == m * 60 + s;
  }
}
