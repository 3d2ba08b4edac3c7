/** Which processes uksmd nominates for merging (uksmd.c:124-134): one that
    has an address space, is not the daemon itself, and has been running for
    at least the observation window. */
module Eligibility {

  /** OBSERVE_WINDOW_SECS: the minimum age, in whole seconds, of a process
      that is advised. */
  const OBSERVE_WINDOW_SECS := 10

  const TWO_63 := 0x8000_0000_0000_0000
  const TWO_64 := 0x1_0000_0000_0000_0000

  /** The part of one readproc entry that the filter reads: the thread id,
      the virtual memory size (0 for a kernel thread) and the start time in
      clock ticks since boot. */
  datatype Snapshot = Snapshot(tid: int, vmSize: int, startTime: nat)

  /** The age of `p` in whole seconds at clock reading `nowSec`: the start
      time is brought from ticks to seconds by integer division by `ctps`,
      the clock ticks per second. */
  function AgeSecs(p: Snapshot, nowSec: int, ctps: int): int
    requires ctps > 0
  {
    nowSec - p.startTime / ctps
  }

  /** The filter of one scan cycle, with the age as a signed number: a
      process whose recorded start lies after `nowSec` has a negative age
      and is skipped. */
  predicate Eligible(p: Snapshot, self: int, nowSec: int, ctps: int)
    requires ctps > 0
  {
    p.vmSize != 0 && p.tid != self && AgeSecs(p, nowSec, ctps) >= OBSERVE_WINDOW_SECS
  }

  /** The age test exactly as uksmd.c:133 evaluates it. `start_time` is an
      unsigned 64-bit tick count, so `now.tv_sec` is converted to unsigned
      and the difference wraps modulo 2^64 before it is compared with the
      window. */
  predicate EligibleAsWritten(p: Snapshot, self: int, nowSec: int, ctps: int)
    requires ctps > 0 && 0 <= nowSec < TWO_63 && p.startTime < TWO_64
  {
    p.vmSize != 0 && p.tid != self
    && (nowSec - p.startTime / ctps) % TWO_64 >= OBSERVE_WINDOW_SECS
  }

  /** The window at whole-second granularity: a process one second short of
      the window is skipped, one that has just reached it is advised. */
  lemma WindowBoundary(p: Snapshot, self: int, nowSec: int, ctps: int)
    requires ctps > 0 && p.vmSize != 0 && p.tid != self
    ensures AgeSecs(p, nowSec, ctps) == OBSERVE_WINDOW_SECS - 1 ==> !Eligible(p, self, nowSec, ctps)
    ensures AgeSecs(p, nowSec, ctps) == OBSERVE_WINDOW_SECS ==> Eligible(p, self, nowSec, ctps)
  {
  }

  /** The window measured in clock ticks: a process is old enough exactly
      when it started before tick (nowSec - OBSERVE_WINDOW_SECS + 1) * ctps.
      So a process that started on that tick is still skipped, and one that
      started a tick earlier is advised. */
  lemma {:induction false} WindowInTicks(p: Snapshot, self: int, nowSec: int, ctps: int)
    requires ctps > 0
    ensures Eligible(p, self, nowSec, ctps) <==>
              p.vmSize != 0 && p.tid != self
              && p.startTime < (nowSec - OBSERVE_WINDOW_SECS + 1) * ctps
  {
    var q, r := p.startTime / ctps, p.startTime % ctps;
    var m := nowSec - OBSERVE_WINDOW_SECS + 1;
    assert p.startTime == q * ctps + r && 0 <= r < ctps;
    if q < m {
      assert q + 1 <= m;
      MulMonotone(q + 1, m, ctps);
      assert p.startTime < (q + 1) * ctps;
    } else {
      MulMonotone(m, q, ctps);
      assert p.startTime >= q * ctps;
    }
  }

  lemma MulMonotone(a: int, b: int, c: int)
    requires a <= b && c > 0
    ensures a * c <= b * c
  {
    assert b * c - a * c == (b - a) * c;
  }

  /** An age never shrinks as the clock advances, so an advised process stays
      eligible in every later cycle. */
  lemma EligibleStaysEligible(p: Snapshot, self: int, nowSec: int, later: int, ctps: int)
    requires ctps > 0 && nowSec <= later && Eligible(p, self, nowSec, ctps)
    ensures Eligible(p, self, later, ctps)
  {
  }

  /** The filter as intended: a process whose start lies after the clock
      reading is never advised. */
  lemma FutureStartNotEligible(p: Snapshot, self: int, nowSec: int, ctps: int)
    requires ctps > 0 && p.startTime / ctps > nowSec
    ensures !Eligible(p, self, nowSec, ctps)
  {
  }

  /** For every start at or before the clock reading the test as written and
      the intended filter agree. */
  lemma {:induction false} AsWrittenAgreesOnPastStarts(p: Snapshot, self: int, nowSec: int, ctps: int)
    requires ctps > 0 && 0 <= nowSec < TWO_63 && p.startTime < TWO_64
    requires p.startTime / ctps <= nowSec
    ensures EligibleAsWritten(p, self, nowSec, ctps) == Eligible(p, self, nowSec, ctps)
  {
    var d := nowSec - p.startTime / ctps;
    assert 0 <= d < TWO_64;
    assert d % TWO_64 == d;
  }

  /** For a start after the clock reading the test as written wraps around
      and lets the process through: only the address-space and self tests
      still apply. */
  lemma {:induction false} AsWrittenAdvisesFutureStarts(p: Snapshot, self: int, nowSec: int, ctps: int)
    requires ctps > 0 && 0 <= nowSec < TWO_63 && p.startTime < TWO_64
    requires nowSec < p.startTime / ctps <= nowSec + TWO_64 - OBSERVE_WINDOW_SECS
    ensures EligibleAsWritten(p, self, nowSec, ctps) <==> p.vmSize != 0 && p.tid != self
  {
    var d := nowSec - p.startTime / ctps;
    assert -TWO_64 < d < 0;
    assert d % TWO_64 == d + TWO_64;
  }

  /** A concrete input on which the two disagree: at 100 s since boot, with
      100 ticks per second, a user process (tid 200) whose start was recorded
      at tick 10100, one second after the clock was read, is advised by the
      test as written though its age is -1 s. */
  lemma AsWrittenAdvisesNewborn()
    ensures EligibleAsWritten(Snapshot(200, 4096, 10100), 100, 100, 100)
    ensures !Eligible(Snapshot(200, 4096, 10100), 100, 100, 100)
    ensures AgeSecs(Snapshot(200, 4096, 10100), 100, 100) == -1
  {
    var p := Snapshot(200, 4096, 10100);
    assert p.startTime / 100 == 101;
    assert (100 - 101) % TWO_64 == TWO_64 - 1;
  }
}
