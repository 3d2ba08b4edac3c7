/** The lifecycle of uksmd's main (uksmd.c:87-185): check that it runs as
    root, turn the KSM run switch on, block SIGINT and SIGTERM, scan and wait
    in turn until a wait says to stop, restore the signal mask, turn the
    switch off, and exit. Every outcome of the environment (the uid, the
    results of ksm_ctl's and sigprocmask's system calls, the clock reading,
    the readproc results and the sigtimedwait results of each cycle) is an
    input. The endless loop is bounded by the cycles supplied: when they run
    out before a wait says to stop, the daemon is still running. */
module Daemon {
  import opened Ksm
  import opened Eligibility
  import opened Scan

  // Linux signal numbers of the two signals that stop the daemon.
  const SIGINT := 2
  const SIGTERM := 15

  /** A signal number, as sigtimedwait returns it on success. */
  type Signo = s: int | 0 < s witness 1

  /** What sigtimedwait returns: the number of a pending signal, or -1 with
      errno set (EAGAIN when the 5 s timeout passes). */
  datatype WaitOutcome = Caught(signo: Signo) | WaitFailed(errno: Errno)

  /** What sigprocmask returns: 0, or -1 with errno set. */
  datatype MaskOutcome = MaskOk | MaskFailed(errno: Errno)

  /** One pass of the scan loop: the CLOCK_BOOTTIME reading in seconds, the
      processes readproc yields, and what the following wait returns. */
  datatype Cycle = Cycle(nowSec: int, candidates: seq<Candidate>, wait: WaitOutcome)

  /** The environment of one run of the daemon. `ctps` is sysconf(_SC_CLK_TCK),
      `enable` and `disable` what ksm_ctl(true) and ksm_ctl(false) meet,
      `block` and `restore` what the two sigprocmask calls return. */
  datatype Env = Env(uid: nat, self: int, ctps: int, enable: CtlIo, block: MaskOutcome,
                     cycles: seq<Cycle>, restore: MaskOutcome, disable: CtlIo)

  /** The argument of exit(), or StillRunning when the supplied cycles ran
      out inside the loop. */
  datatype Status = Exited(code: int) | StillRunning

  /** What one run leaves behind: its status, the calls it made into the
      kernel control surface in order, and whether SIGINT and SIGTERM are
      still blocked. */
  datatype Run = Run(status: Status, trace: seq<Event>, blocked: bool)

  /** The wait outcomes that leave the loop (uksmd.c:144-160): SIGINT,
      SIGTERM, EINVAL and EINTR. Any other signal and any other errno,
      EAGAIN (the timeout) among them, start the next cycle. */
  predicate LeavesLoop(w: WaitOutcome)
  {
    match w
    case Caught(s) => s == SIGINT || s == SIGTERM
    case WaitFailed(e) => e == EINVAL || e == EINTR
  }

  /** The index of the cycle whose wait ends the loop, or |cycles| when no
      wait does. */
  function FirstExit(cycles: seq<Cycle>): (k: nat)
    ensures k <= |cycles|
    ensures forall j :: 0 <= j < k ==> !LeavesLoop(cycles[j].wait)
    ensures k < |cycles| ==> LeavesLoop(cycles[k].wait)
  {
    if cycles == [] then 0
    else if LeavesLoop(cycles[0].wait) then 0
    else 1 + FirstExit(cycles[1..])
  }

  /** The advise calls of the scans of `cycles`, one cycle after another. */
  function Scans(cycles: seq<Cycle>, self: int, ctps: int): (r: seq<Event>)
    requires ctps > 0
    ensures AllAdvise(r)
  {
    if cycles == [] then []
    else
      var c := cycles[|cycles| - 1];
      Scans(cycles[..|cycles| - 1], self, ctps) + ScanEvents(c.candidates, self, c.nowSec, ctps)
  }

  /** The run of main in environment `env`, following its goto chain: a
      non-root caller exits with EACCES; a failed enable exits with its
      errno; after a successful enable every way out goes through
      ksm_ctl(false), whose result is the exit status. */
  function MainRun(env: Env): Run
    requires env.ctps > 0
  {
    if env.uid != 0 then Run(Exited(EACCES), [], false)
    else
      var on := CtlRet(env.enable);
      if on != 0 then Run(Exited(on), [CtlCall(true, on)], false)
      else
        var rest := Serving(env);
        Run(rest.status, [CtlCall(true, on)] + rest.trace, rest.blocked)
  }

  /** The part of a run after the switch was turned on (uksmd.c:104-185):
      every way out goes through ksm_ctl(false); only the supplied cycles
      running out leaves the switch untouched. */
  function Serving(env: Env): Run
    requires env.ctps > 0
  {
    var off := CtlRet(env.disable);
    if env.block.MaskFailed? then Run(Exited(off), [CtlCall(false, off)], false)
    else
      var k := FirstExit(env.cycles);
      if k == |env.cycles| then Run(StillRunning, Scans(env.cycles, env.self, env.ctps), true)
      else
        Run(Exited(off), Scans(env.cycles[..k + 1], env.self, env.ctps) + [CtlCall(false, off)],
            env.restore.MaskFailed?)
  }

  /** The run switch after the calls of `t`, starting from `init`: each
      ksm_ctl call that returned 0 has set it; failed calls and advise calls
      leave it alone. */
  function SwitchAfter(init: bool, t: seq<Event>): bool
  {
    if t == [] then init
    else
      match t[|t| - 1]
      case CtlCall(enable, ret) => if ret == 0 then enable else SwitchAfter(init, t[..|t| - 1])
      case AdviseCall(_) => SwitchAfter(init, t[..|t| - 1])
  }

  /** The number of ksm_ctl(false) calls in `t`. */
  function Disables(t: seq<Event>): nat
  {
    if t == [] then 0
    else Disables(t[..|t| - 1]) + (if t[|t| - 1].CtlCall? && !t[|t| - 1].enable then 1 else 0)
  }

  /** The daemon's own state: the run switch as its ksm_ctl calls have left
      it, whether SIGINT and SIGTERM are blocked, the calls made so far and
      the exit status. */
  class Uksmd {
    var switchOn: bool
    var blocked: bool
    var trace: seq<Event>
    var status: Status

    constructor (switchIsOn: bool)
      ensures switchOn == switchIsOn && !blocked && trace == [] && status == StillRunning
    {
      switchOn, blocked, trace, status := switchIsOn, false, [], StillRunning;
    }

    /** ksm_ctl(enable): the call is logged with its result, and a call that
        returned 0 has set the switch. */
    method Switch(enable: bool, io: CtlIo) returns (ret: int)
      modifies this`switchOn, this`trace
      ensures ret == CtlRet(io)
      ensures trace == old(trace) + [CtlCall(enable, ret)]
      ensures switchOn == if ret == 0 then enable else old(switchOn)
    {
      var sent;
      ret, sent := Ctl(enable, io);
      trace := trace + [CtlCall(enable, ret)];
      if ret == 0 {
        switchOn := enable;
      }
    }

    /** One scan (uksmd.c:117-139): skip kernel threads, the daemon itself
        and processes younger than the window; advise the rest in
        enumerator order, going on after a failed advise. */
    method ScanCycle(c: Cycle, self: int, ctps: int)
      requires ctps > 0
      modifies this`trace
      ensures trace == old(trace) + ScanEvents(c.candidates, self, c.nowSec, ctps)
    {
      var cs := c.candidates;
      var k := 0;
      while k < |cs|
        invariant 0 <= k <= |cs|
        invariant trace == old(trace) + ScanEvents(cs[..k], self, c.nowSec, ctps)
      {
        var p := cs[k].proc;
        assert cs[..k + 1][..k] == cs[..k];
        if p.vmSize == 0 {
          // a kernel thread
        } else if p.tid == self {
          // the daemon itself
        } else if c.nowSec - p.startTime / ctps < OBSERVE_WINDOW_SECS {
          // too young
        } else {
          var ret, sent := Advise(p.tid, true, cs[k].io);
          trace := trace + [AdviseCall(p.tid)];
        }
        k := k + 1;
      }
      assert cs[..|cs|] == cs;
    }

    /** The scan/wait loop (uksmd.c:115-165): scan, then wait, until a wait
        outcome leaves the loop. The result is the index of that cycle, or
        |cycles| when the supplied cycles run out first. */
    method ScanUntilStop(cycles: seq<Cycle>, self: int, ctps: int) returns (k: nat)
      requires ctps > 0
      modifies this`trace
      ensures k == FirstExit(cycles)
      ensures trace == old(trace) + Scans(cycles[..if k < |cycles| then k + 1 else k], self, ctps)
    {
      k := 0;
      var leave := false;
      while !leave && k < |cycles|
        invariant 0 <= k <= |cycles|
        invariant forall j :: 0 <= j < k ==> !LeavesLoop(cycles[j].wait)
        invariant leave ==> k < |cycles| && LeavesLoop(cycles[k].wait)
        invariant trace == old(trace) + Scans(cycles[..if leave then k + 1 else k], self, ctps)
        decreases |cycles| - k, !leave
      {
        ScanCycle(cycles[k], self, ctps);
        ScansStep(cycles, k, self, ctps);
        // sigtimedwait: SIGINT, SIGTERM, EINVAL and EINTR go to unblock_signals
        leave := LeavesLoop(cycles[k].wait);
        if !leave {
          k := k + 1;
        }
      }
      FirstExitIs(cycles, k);
      if !leave {
        assert cycles[..k] == cycles;
      }
    }

    /** main: the run it makes is the one MainRun describes, and the switch
        it leaves is the one its calls set, starting from the switch it
        found. */
    method RunDaemon(env: Env)
      requires env.ctps > 0
      requires trace == [] && !blocked && status == StillRunning
      modifies this
      ensures Run(status, trace, blocked) == MainRun(env)
      ensures switchOn == SwitchAfter(old(switchOn), trace)
    {
      SwitchAfterRun(env, switchOn);
      if env.uid != 0 {
        status := Exited(EACCES);
        return;
      }
      var ret := Switch(true, env.enable);
      if ret != 0 {
        status := Exited(ret);
        return;
      }
      Serve(env);
    }

    /** main after a successful ksm_ctl(true): block the signals, run the
        loop, and tear down through the goto chain. Only a disable that
        returned 0 turns the switch off. */
    method Serve(env: Env)
      requires env.ctps > 0
      requires !blocked && status == StillRunning
      modifies this
      ensures trace == old(trace) + Serving(env).trace
      ensures status == Serving(env).status && blocked == Serving(env).blocked
      ensures switchOn == if status.Exited? && status.code == 0 then false else old(switchOn)
    {
      if env.block.MaskOk? {
        blocked := true;
        var k := ScanUntilStop(env.cycles, env.self, env.ctps);
        if k == |env.cycles| {
          // the supplied cycles ran out inside the loop
          assert env.cycles[..k] == env.cycles;
          return;
        }
        // unblock_signals
        if env.restore.MaskOk? {
          blocked := false;
        }
      }
      // ksm_ctl_false, reached directly when blocking the signals failed
      var ret := Switch(false, env.disable);
      status := Exited(ret);
    }
  }

  /** One more cycle adds its scan to the scans of the cycles before it. */
  lemma ScansStep(cycles: seq<Cycle>, k: nat, self: int, ctps: int)
    requires ctps > 0 && k < |cycles|
    ensures Scans(cycles[..k + 1], self, ctps)
            == Scans(cycles[..k], self, ctps)
               + ScanEvents(cycles[k].candidates, self, cycles[k].nowSec, ctps)
  {
    assert cycles[..k + 1][..k] == cycles[..k];
  }

  /** The cycle at which no earlier wait leaves the loop and whose own wait
      does (or the end of the cycles) is the one FirstExit names. */
  lemma FirstExitIs(cycles: seq<Cycle>, k: nat)
    requires k <= |cycles|
    requires forall j :: 0 <= j < k ==> !LeavesLoop(cycles[j].wait)
    requires k < |cycles| ==> LeavesLoop(cycles[k].wait)
    ensures FirstExit(cycles) == k
  {
  }

  /** The advise calls of a run after a successful enable: those of every
      cycle up to and including the one whose wait ends the loop, none when
      blocking the signals failed. */
  function ServedScans(env: Env): (r: seq<Event>)
    requires env.ctps > 0
    ensures AllAdvise(r)
  {
    if env.block.MaskFailed? then []
    else
      var k := FirstExit(env.cycles);
      Scans(env.cycles[..if k < |env.cycles| then k + 1 else k], env.self, env.ctps)
  }

  /** After a successful enable, main's calls are the enable, the advise
      calls of the scans, and on exit the disable, whose result is the exit
      status. */
  lemma MainRunShape(env: Env)
    requires env.ctps > 0 && env.uid == 0 && CtlRet(env.enable) == 0
    ensures var r := MainRun(env);
            r.trace == [CtlCall(true, 0)] + ServedScans(env)
                       + (if r.status.Exited? then [CtlCall(false, CtlRet(env.disable))] else [])
    ensures MainRun(env).status in {Exited(CtlRet(env.disable)), StillRunning}
  {
    var k := FirstExit(env.cycles);
    if env.block.MaskOk? && k == |env.cycles| {
      assert env.cycles[..k] == env.cycles;
    }
  }

  /** The switch after main's calls, from any starting value `init`: a
      run that never turned it on leaves it as it was; after a successful
      enable it is on while the daemon runs and after exit exactly when the
      disable failed. */
  lemma {:induction false} SwitchAfterRun(env: Env, init: bool)
    requires env.ctps > 0
    ensures var r := MainRun(env);
            SwitchAfter(init, r.trace)
            == if env.uid != 0 || CtlRet(env.enable) != 0 then init
               else r.status == StillRunning || r.status.code != 0
  {
    var r := MainRun(env);
    if env.uid == 0 && CtlRet(env.enable) != 0 {
      assert r.trace[..0] == [];
    } else if env.uid == 0 {
      var pre, scans := [CtlCall(true, 0)], ServedScans(env);
      assert SwitchAfter(init, pre);
      SwitchAfterAdvise(init, pre, scans);
      MainRunShape(env);
      if r.status.Exited? {
        assert r.trace[..|r.trace| - 1] == pre + scans;
      } else {
        assert r.trace == pre + scans;
      }
    }
  }

  /** Advise calls leave the switch as it was. */
  lemma {:induction false} SwitchAfterAdvise(init: bool, t: seq<Event>, s: seq<Event>)
    requires AllAdvise(s)
    ensures SwitchAfter(init, t + s) == SwitchAfter(init, t)
  {
    if s != [] {
      var sinit := s[..|s| - 1];
      assert (t + s)[..|t + s| - 1] == t + sinit;
      assert (t + s)[|t + s| - 1] == s[|s| - 1] && s[|s| - 1].AdviseCall?;
      assert AllAdvise(sinit) by {
        forall i | 0 <= i < |sinit| ensures sinit[i].AdviseCall? { assert sinit[i] == s[i]; }
      }
      SwitchAfterAdvise(init, t, sinit);
    } else {
      assert t + s == t;
    }
  }

  /** Advise calls add no ksm_ctl(false) call. */
  lemma {:induction false} DisablesAdvise(t: seq<Event>, s: seq<Event>)
    requires AllAdvise(s)
    ensures Disables(t + s) == Disables(t)
  {
    if s != [] {
      var sinit := s[..|s| - 1];
      assert (t + s)[..|t + s| - 1] == t + sinit;
      assert (t + s)[|t + s| - 1] == s[|s| - 1] && s[|s| - 1].AdviseCall?;
      assert AllAdvise(sinit) by {
        forall i | 0 <= i < |sinit| ensures sinit[i].AdviseCall? { assert sinit[i] == s[i]; }
      }
      DisablesAdvise(t, sinit);
    } else {
      assert t + s == t;
    }
  }
}

