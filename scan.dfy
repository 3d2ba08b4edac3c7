/** One scan cycle of uksmd (uksmd.c:115-139): walk the readproc results in
    order and issue ksm_advise(tid, true) for each eligible process. A
    failing advise is ignored and the walk goes on with the next process. */
module Scan {
  import opened Ksm
  import opened Eligibility

  /** One readproc result together with what ksm_advise would meet if it
      were called for it (the process may exit between the two). */
  datatype Candidate = Candidate(proc: Snapshot, io: AdviseIo)

  /** No call in `s` touches the run switch. */
  predicate AllAdvise(s: seq<Event>)
  {
    forall i :: 0 <= i < |s| ==> s[i].AdviseCall?
  }

  /** The advise calls one cycle issues over `cs`, in enumerator order, at
      clock reading `nowSec`. */
  function ScanEvents(cs: seq<Candidate>, self: int, nowSec: int, ctps: int): (r: seq<Event>)
    requires ctps > 0
    ensures |r| <= |cs|
    ensures AllAdvise(r)
  {
    if cs == [] then []
    else
      var p := cs[|cs| - 1].proc;
      ScanEvents(cs[..|cs| - 1], self, nowSec, ctps)
      + (if Eligible(p, self, nowSec, ctps) then [AdviseCall(p.tid)] else [])
  }

  /** A thread is advised in a cycle exactly when some entry of the
      enumeration with that thread id passes the filter. */
  lemma {:induction false} AdvisedIffEligible(cs: seq<Candidate>, self: int, nowSec: int, ctps: int, tid: int)
    requires ctps > 0
    ensures AdviseCall(tid) in ScanEvents(cs, self, nowSec, ctps) <==>
              exists i :: 0 <= i < |cs| && cs[i].proc.tid == tid && Eligible(cs[i].proc, self, nowSec, ctps)
  {
    if cs != [] {
      var init := cs[..|cs| - 1];
      AdvisedIffEligible(init, self, nowSec, ctps, tid);
      if exists i :: 0 <= i < |init| && init[i].proc.tid == tid && Eligible(init[i].proc, self, nowSec, ctps) {
        var i :| 0 <= i < |init| && init[i].proc.tid == tid && Eligible(init[i].proc, self, nowSec, ctps);
        assert cs[i] == init[i];
      }
      if exists i :: 0 <= i < |cs| && cs[i].proc.tid == tid && Eligible(cs[i].proc, self, nowSec, ctps) {
        var i :| 0 <= i < |cs| && cs[i].proc.tid == tid && Eligible(cs[i].proc, self, nowSec, ctps);
        if i < |init| {
          assert init[i] == cs[i];
        }
      }
    }
  }

  /** Calls follow enumerator order: the calls over an enumeration split in
      two are the calls over the first part followed by those over the
      second. */
  lemma {:induction false} ScanEventsAppend(cs: seq<Candidate>, ds: seq<Candidate>, self: int, nowSec: int, ctps: int)
    requires ctps > 0
    ensures ScanEvents(cs + ds, self, nowSec, ctps)
            == ScanEvents(cs, self, nowSec, ctps) + ScanEvents(ds, self, nowSec, ctps)
  {
    if ds == [] {
      assert cs + ds == cs;
    } else {
      var dinit := ds[..|ds| - 1];
      ScanEventsAppend(cs, dinit, self, nowSec, ctps);
      assert (cs + ds)[..|cs + ds| - 1] == cs + dinit;
      assert (cs + ds)[|cs + ds| - 1] == ds[|ds| - 1];
    }
  }

  /** The calls issued depend only on the snapshots, not on what open or
      write report for any of them. This holds by construction, since
      `ScanEvents` never looks at an advise outcome; that the loop itself
      goes on after a failed advise is what the ensures of
      `Daemon.Uksmd.ScanCycle` states, where the result of `Advise` is
      dropped. */
  lemma {:induction false} ScanIgnoresAdviseOutcomes(cs: seq<Candidate>, ds: seq<Candidate>, self: int, nowSec: int, ctps: int)
    requires ctps > 0
    requires |cs| == |ds| && forall i :: 0 <= i < |cs| ==> cs[i].proc == ds[i].proc
    ensures ScanEvents(cs, self, nowSec, ctps) == ScanEvents(ds, self, nowSec, ctps)
  {
    if cs != [] {
      ScanIgnoresAdviseOutcomes(cs[..|cs| - 1], ds[..|ds| - 1], self, nowSec, ctps);
    }
  }

  /** The candidate in the middle of an enumeration is advised when it is
      eligible, whatever its advise meets, and the candidates after it are
      advised all the same. */
  lemma FailureIsLocal(before: seq<Candidate>, c: Candidate, after: seq<Candidate>, self: int, nowSec: int, ctps: int)
    requires ctps > 0
    ensures ScanEvents(before + [c] + after, self, nowSec, ctps)
            == ScanEvents(before, self, nowSec, ctps)
               + (if Eligible(c.proc, self, nowSec, ctps) then [AdviseCall(c.proc.tid)] else [])
               + ScanEvents(after, self, nowSec, ctps)
  {
    ScanEventsAppend(before + [c], after, self, nowSec, ctps);
    ScanEventsAppend(before, [c], self, nowSec, ctps);
    assert [c][..0] == [];
  }

  /** Every start time is a 64-bit unsigned tick count and the clock
      reading fits a signed 64-bit second count, as the age test at
      uksmd.c:133 takes them. */
  predicate MachineSized(cs: seq<Candidate>, nowSec: int)
  {
    0 <= nowSec < TWO_63 && forall i :: 0 <= i < |cs| ==> cs[i].proc.startTime < TWO_64
  }

  /** The advise calls of one cycle with the age test exactly as
      uksmd.c:133 evaluates it, in unsigned 64-bit arithmetic. */
  function ScanEventsAsWritten(cs: seq<Candidate>, self: int, nowSec: int, ctps: int): (r: seq<Event>)
    requires ctps > 0 && MachineSized(cs, nowSec)
    ensures |r| <= |cs|
    ensures AllAdvise(r)
  {
    if cs == [] then []
    else
      var p := cs[|cs| - 1].proc;
      ScanEventsAsWritten(cs[..|cs| - 1], self, nowSec, ctps)
      + (if EligibleAsWritten(p, self, nowSec, ctps) then [AdviseCall(p.tid)] else [])
  }

  /** When no enumerated process started after the clock reading, the scan
      as written and the scan with the corrected filter make the same
      calls. */
  lemma {:induction false} ScanAsWrittenAgreesOnPastStarts(cs: seq<Candidate>, self: int, nowSec: int, ctps: int)
    requires ctps > 0 && MachineSized(cs, nowSec)
    requires forall i :: 0 <= i < |cs| ==> cs[i].proc.startTime / ctps <= nowSec
    ensures ScanEventsAsWritten(cs, self, nowSec, ctps) == ScanEvents(cs, self, nowSec, ctps)
  {
    if cs != [] {
      var init := cs[..|cs| - 1];
      assert forall i :: 0 <= i < |init| ==> init[i] == cs[i];
      ScanAsWrittenAgreesOnPastStarts(init, self, nowSec, ctps);
      AsWrittenAgreesOnPastStarts(cs[|cs| - 1].proc, self, nowSec, ctps);
    }
  }

  /** A user process (tid 200) recorded as starting at tick 10100, one
      second after the clock read 100 s with 100 ticks per second: the scan
      as written advises it, the corrected scan does not. */
  lemma NewbornAdvisedAsWritten()
    ensures var cs := [Candidate(Snapshot(200, 4096, 10100), AdviseIo(false, Opened, Wrote(5)))];
            ScanEventsAsWritten(cs, 100, 100, 100) == [AdviseCall(200)]
            && ScanEvents(cs, 100, 100, 100) == []
  {
    var cs := [Candidate(Snapshot(200, 4096, 10100), AdviseIo(false, Opened, Wrote(5)))];
    AsWrittenAdvisesNewborn();
    assert cs[..0] == [];
  }

  /** The daemon itself (pid 100, 60 s old), a kernel thread (pid 2, no
      address space, 60 s old) and a user process (pid 200, 2 s old), with
      a 10 s window: no advise call at all. */
  lemma NothingAdvisedEarly()
    ensures var io := AdviseIo(false, Opened, Wrote(5));
            ScanEvents([Candidate(Snapshot(100, 4096, 94000), io),
                        Candidate(Snapshot(2, 0, 94000), io),
                        Candidate(Snapshot(200, 4096, 99800), io)], 100, 1000, 100) == []
  {
    var io := AdviseIo(false, Opened, Wrote(5));
    var a, b, c := Candidate(Snapshot(100, 4096, 94000), io), Candidate(Snapshot(2, 0, 94000), io),
                   Candidate(Snapshot(200, 4096, 99800), io);
    FailureIsLocal([a, b], c, [], 100, 1000, 100);
    FailureIsLocal([a], b, [], 100, 1000, 100);
    FailureIsLocal([], a, [], 100, 1000, 100);
    assert [a, b] + [c] + [] == [a, b, c];
    assert [a] + [b] + [] == [a, b];
    assert [] + [a] + [] == [a];
  }

  /** The same enumeration sampled 13 s later: the user process is now 15 s
      old and is the only one advised, even though its advise fails. */
  lemma OneAdvisedLater()
    ensures var io := AdviseIo(false, OpenFailed(3), Wrote(0));
            ScanEvents([Candidate(Snapshot(100, 4096, 94000), io),
                        Candidate(Snapshot(2, 0, 94000), io),
                        Candidate(Snapshot(200, 4096, 99800), io)], 100, 1013, 100) == [AdviseCall(200)]
  {
    var io := AdviseIo(false, OpenFailed(3), Wrote(0));
    var a, b, c := Candidate(Snapshot(100, 4096, 94000), io), Candidate(Snapshot(2, 0, 94000), io),
                   Candidate(Snapshot(200, 4096, 99800), io);
    FailureIsLocal([a, b], c, [], 100, 1013, 100);
    FailureIsLocal([a], b, [], 100, 1013, 100);
    FailureIsLocal([], a, [], 100, 1013, 100);
    assert [a, b] + [c] + [] == [a, b, c];
    assert [a] + [b] + [] == [a, b];
    assert [] + [a] + [] == [a];
  }
}
