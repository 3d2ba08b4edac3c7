# uksmd in Dafny

uksmd is a small root daemon that turns on the kernel's samepage merging
(KSM) for its own lifetime. On start it writes `1` to the KSM run switch
(`/sys/kernel/mm/ksm/run`) and blocks SIGINT and SIGTERM. It then repeats
one cycle: it lists the running processes, and for each long-lived
user-space process other than itself it writes `merge` to that process's
`/proc/<pid>/ksm`. After each scan it waits up to five seconds for a
stopping signal. When it stops, it restores the signal mask, writes `0` to
the run switch and exits.

This project models the C file `uksmd.c`: its two kernel-control helpers,
the eligibility filter, one scan cycle, and the goto-driven lifecycle of
`main`. It proves what each of them guarantees.

- `ksm.dfy` (module `Ksm`) models `ksm_ctl` and `ksm_advise`. Each is a
  method that steps through the outcomes of `snprintf`, `open` and `write`
  and returns what the C function returns. `CtlRet` is the return value of
  `ksm_ctl` as a function. `Event` is one call into the kernel control
  surface, as the model logs it.
- `eligibility.dfy` (module `Eligibility`) holds the three skip tests. They
  use the observation window `OBSERVE_WINDOW_SECS` = 10 and an age computed
  in whole seconds by integer division of clock ticks. `EligibleAsWritten`
  is the age test with the unsigned arithmetic C actually performs. See
  "## Findings".
- `scan.dfy` (module `Scan`) defines `ScanEvents`. It gives the advise calls
  of one cycle over the enumerated processes, in enumerator order. Each
  process comes with the outcome its own advise would meet.
- `daemon.dfy` (module `Daemon`) has the environment of a run and the
  function `MainRun`, the run of `main`. The environment holds:
  - the uid;
  - the outcomes of both `ksm_ctl` calls and both `sigprocmask` calls;
  - per cycle, the clock reading, the processes and the `sigtimedwait` result.

  `MainRun` (and `Serving` for the part after the enable) is the run that
  the goto chain produces. The run is made of the exit status, the ordered
  log of `ksm_ctl`/`ksm_advise` calls, and whether the signals are still
  blocked. The class `Uksmd` holds the daemon's state: the switch, the
  signal-mask flag, the call log and the status. Its methods `Switch`,
  `ScanCycle`, `ScanUntilStop`, `Serve` and `RunDaemon` (C's `main`) are the imperative
  program. Each is proved to produce exactly the run that `MainRun` (or
  `Serving`, or `ScanEvents` for one cycle) gives, and `RunDaemon` is proved to leave the switch that its own log
  sets. `SwitchAfter` replays a log to get the switch's value.
  `Disables` counts `ksm_ctl(false)` calls.
- `lifecycle.dfy` (module `Lifecycle`) states what the lifecycle
  guarantees: who may touch the switch, that the disable comes exactly once,
  the exit status on each path, and that the switch is on while processes
  are being advised.

Three facts about uksmd.c that shape the model:
- After a successful enable, the exit status is always the result of
  `ksm_ctl(false)` (uksmd.c:168-185). An errno from a failed `sigprocmask`
  or `sigtimedwait` is overwritten.
- `EINTR` from `sigtimedwait` leaves the loop (uksmd.c:156-159), as do
  SIGINT, SIGTERM and `EINVAL`. Only `EAGAIN`, any other errno and any other
  returned signal go on to the next cycle.
- The age is `now.tv_sec - start_time / ctps`, in whole seconds, with ticks
  converted by integer division (uksmd.c:133). The filter's order is: the
  address-space test, then the self test, then the age test.

## Model

| member | source | states |
|---|---|---|
| `Ksm.Ctl` | uksmd.c:16-38 | ksm_ctl writes exactly the one byte `1` (enable) or `0` (disable) once open succeeds. It returns 0 iff both open and write succeed, otherwise the errno of the first failing step, and it never returns a negative value. |
| `Ksm.CtlRet` | uksmd.c:16-38 | The value ksm_ctl returns: never negative, and 0 exactly when both open and write succeed; otherwise the errno of the first step that fails. |
| `Ksm.Advise` | uksmd.c:40-72 | ksm_advise returns EINVAL when formatting the path fails and the errno of a failed open or write. On success it returns the byte count from write, not 0. It writes `merge` (5 bytes) or `unmerge` (7 bytes), so a complete write returns a non-zero value. |
| `Eligibility.AgeSecs` | uksmd.c:133 | The age in whole seconds: the clock reading minus the start time brought from ticks to seconds by integer division by the ticks per second. |
| `Eligibility.Eligible` | uksmd.c:124-134 | The filter (with the signed, corrected age): a process is advised iff it has an address space, is not the daemon, and is at least `OBSERVE_WINDOW_SECS` = 10 s old. |
| `Eligibility.EligibleAsWritten` | uksmd.c:133 | The same filter with the age computed as C computes it: the difference reduced modulo 2^64 before it is compared with 10. |
| `Eligibility.WindowBoundary` | uksmd.c:124-134 | A process with an address space that is not the daemon is skipped at age 9 s and advised at age 10 s. |
| `Eligibility.WindowInTicks` | uksmd.c:133 | Both directions: a process is eligible iff it has an address space, is not the daemon, and started before tick (now - 10 + 1) * ctps. So a start on that tick is skipped, and a start one tick earlier is advised. |
| `Eligibility.EligibleStaysEligible` | uksmd.c:133 | Once eligible, a process stays eligible at every later clock reading. |
| `Eligibility.FutureStartNotEligible` | uksmd.c:133 | Corrected filter: a process whose start lies after the clock reading is never advised. |
| `Eligibility.AsWrittenAgreesOnPastStarts` | uksmd.c:133 | For every start at or before the clock reading, the unsigned test as written gives the same decision as the signed filter. |
| `Eligibility.AsWrittenAdvisesFutureStarts` | uksmd.c:133 | For a start after the clock reading, the unsigned test as written wraps around. The process is then advised iff it has an address space and is not the daemon. |
| `Eligibility.AsWrittenAdvisesNewborn` | uksmd.c:133 | A concrete input: now 100 s, 100 ticks/s, start tick 10100. The test as written advises the process, the intended filter skips it, and its age is -1 s. |
| `Scan.ScanEvents` | uksmd.c:122-138 | A cycle makes at most one advise call per enumerated process and never touches the run switch. |
| `Scan.AdvisedIffEligible` | uksmd.c:122-138 | Both directions: a thread id is advised in a cycle iff some enumerated process with that id passes the filter. |
| `Scan.ScanEventsAppend` | uksmd.c:122-138 | Advise calls follow enumerator order: the calls for an enumeration split in two are those for the first part followed by those for the second. |
| `Scan.ScanIgnoresAdviseOutcomes` | uksmd.c:136-137 | The calls made in a cycle depend only on the snapshots, never on what open or write report for any advise. |
| `Scan.FailureIsLocal` | uksmd.c:136-137 | A process in the middle of an enumeration is advised when it is eligible, whatever its advise meets, and the processes after it are handled as if it were absent. |
| `Scan.ScanEventsAsWritten` | uksmd.c:122-138 | The calls of one cycle with the age test as written. At most one advise call per process, and no call touches the run switch. |
| `Scan.ScanAsWrittenAgreesOnPastStarts` | uksmd.c:122-138 | When no enumerated process started after the clock reading, the cycle as written makes exactly the calls of `ScanEvents`. |
| `Scan.NewbornAdvisedAsWritten` | uksmd.c:122-138 | A process recorded as starting one second after the clock reading is advised by the cycle as written and not by `ScanEvents`. |
| `Scan.NothingAdvisedEarly` | uksmd.c:124-134 | The daemon itself, a kernel thread and a 2 s old user process give no advise call. |
| `Scan.OneAdvisedLater` | uksmd.c:124-134 | The same processes 13 s later give exactly one call, `advise(200)`, even though that call fails. |
| `Daemon.LeavesLoop` | uksmd.c:143-164 | The wait outcomes that leave the loop: SIGINT, SIGTERM, `EINVAL` and `EINTR`. Every other signal and errno, `EAGAIN` among them, starts the next cycle. |
| `Daemon.FirstExit` | uksmd.c:143-164 | The loop ends at the first cycle whose wait outcome leaves the loop. No earlier wait leaves it, and the result is the number of cycles when none does. |
| `Daemon.Scans` | uksmd.c:115-139 | The scans of a series of cycles never touch the run switch. |
| `Daemon.MainRun` | uksmd.c:87-185 | The run of main along its goto chain. A non-root caller exits with `EACCES` and makes no call. A failed enable exits with its errno. Otherwise the enable is followed by `Serving`. |
| `Daemon.Serving` | uksmd.c:104-185 | The run after a successful enable. A failed block goes straight to the disable. Otherwise the cycles are scanned up to and including the first that leaves the loop, then the mask is restored and the disable's result is the exit status. If no cycle leaves the loop, the run is still going with the signals blocked. |
| `Daemon.Uksmd.Switch` | uksmd.c:16-38 | A ksm_ctl call is logged with its return value. The switch takes the written value iff the call returned 0. |
| `Daemon.Uksmd.ScanCycle` | uksmd.c:117-139 | The loop over the readproc results skips kernel threads, the daemon and young processes, and advises the rest in order. Its log grows by exactly `ScanEvents` of the cycle. |
| `Daemon.Uksmd.ScanUntilStop` | uksmd.c:115-165 | The scan/wait loop stops after the cycle `FirstExit` names. It has logged the scans of every cycle up to and including that one, and it leaves the switch alone. |
| `Daemon.Uksmd.Serve` | uksmd.c:104-185 | After the enable: blocks the signals, loops, restores the mask and disables the switch. A failed block jumps straight to the disable. The state left is `Serving`'s run, and only a disable that returned 0 turns the switch off. |
| `Daemon.Uksmd.RunDaemon` | uksmd.c:87-185 | main's status, call log and signal-mask flag are exactly `MainRun`'s, and the switch it leaves is its own log replayed over the switch it found. |
| `Daemon.MainRunShape` | uksmd.c:97-185 | After a successful enable, main's calls are the enable, then only advise calls, then (on exit) the one disable. The exit status is that disable's result. |
| `Daemon.SwitchAfterRun` | uksmd.c:87-185 | The switch after a run: unchanged when main never turned it on; after a successful enable, on while the daemon runs, and on after exit iff the disable failed. |
| `Lifecycle.ScansAppend` | uksmd.c:115-165 | Cycles are scanned one after another: the scans of two consecutive stretches of cycles are the scans of each stretch in turn. |
| `Lifecycle.NonRootNeverTouchesSwitch` | uksmd.c:87-92 | A non-root caller exits with EACCES, makes no call at all, and leaves the switch as it was. |
| `Lifecycle.FailedEnableExits` | uksmd.c:97-102 | A failed enable exits with its errno. The run makes no disable and no advise, and the switch is unchanged. |
| `Lifecycle.DisableExactlyOnce` | uksmd.c:104-185 | After a successful enable, every exit makes exactly one `ksm_ctl(false)` call. It is the last call, so no advise comes after it, and the exit status is its return value. A run still in the loop has made no disable. |
| `Lifecycle.SwitchOnUntilDisable` | uksmd.c:97-185 | After a successful enable, the switch is on after every call from the enable up to the last one, and still on while the daemon runs. Once main exits, the switch is left on iff the disable failed. |
| `Lifecycle.AdviseOnlyWhileOn` | uksmd.c:97-185 | On every path, each advise call is made while the switch is on. |
| `Lifecycle.BlockFailureStillDisables` | uksmd.c:107-113 | A failed signal block leads straight to the disable, with no scan. The sigprocmask errno is replaced by the disable's result as the exit status. |
| `Lifecycle.OtherWaitRescans` | uksmd.c:143-164 | A wait outcome that does not leave the loop (EAGAIN, another errno, another signal) is followed by a full new scan cycle. The run over [c] + cycles is c's scan followed by the run over cycles. |
| `Lifecycle.LeavingWaitStops` | uksmd.c:143-160 | SIGINT, SIGTERM, EINVAL or EINTR ends the loop right after that cycle's scan. Whatever the later cycles hold, the run goes to the mask restore and the disable. |
| `Lifecycle.CleanShutdown` | uksmd.c:143-185 | SIGINT or SIGTERM with a working disable exits 0 after exactly one disable, with the switch off. |

## Findings

| source | as written | input that shows it | evidently intended | confidence | as-written member | corrected member |
|---|---|---|---|---|---|---|
| uksmd.c:133 | `now.tv_sec - proc_info.start_time / ctps` is computed in unsigned 64-bit arithmetic, because `start_time` is an `unsigned long long`. A start after the clock reading wraps to an age near 2^64, which passes the window test. | `now.tv_sec` = 100, `ctps` = 100, `start_time` = 10100 ticks: a process forked after the clock was read, in the next second. Its age wraps to 2^64 - 1 and it is advised at once. | A process that started after `now` is younger than the window and is skipped. | medium, not executed (this assumes procps-ng 3.3's `proc_t` declares `start_time` as `unsigned long long`; readproc.h is not part of this model) | `Eligibility.AsWrittenAdvisesNewborn` | `Eligibility.FutureStartNotEligible` |

The scan (`Scan.ScanEvents`, `Daemon.Uksmd.ScanCycle`) uses the corrected,
signed filter `Eligibility.Eligible`. `Scan.ScanEventsAsWritten` is the
cycle as written. `Scan.ScanAsWrittenAgreesOnPastStarts` shows that the two
make the same calls when no process started after the clock reading, and
`Scan.NewbornAdvisedAsWritten` shows a cycle where they differ.

## Left out

- Daemon.Uksmd.ScanCycle: the scan, and so `Serve` and `RunDaemon`, uses the corrected filter `Eligibility.Eligible`. A process whose recorded start lies after the clock reading is not advised, while uksmd.c:133 as written advises it (see "## Findings"). `Scan.ScanAsWrittenAgreesOnPastStarts` shows the two agree whenever no start is after the clock reading.
- File I/O: `open`, `write` and `close` on the run switch and on `/proc/<pid>/ksm`, and the `snprintf` into a `PATH_MAX` buffer. They appear only as outcomes (success, byte count or errno). The result of `close` is ignored, as in the source.
- Ksm.Advise: the path built from `pid` is not modelled, so `pid` only names the target.
- The procps `openproc`/`readproc`/`closeproc` enumeration. Each cycle gets a given finite sequence of snapshots instead.
- Signal-mask semantics, `sigtimedwait`, `clock_gettime(CLOCK_BOOTTIME)` and `sysconf(_SC_CLK_TCK)` are inputs. The 5 s idle timeout (`IDLE_SLEEP_SECS`) is not modelled: timing is out of scope, and a timeout is the `EAGAIN` wait outcome.
- A `ctps` of 0 or below is excluded by a precondition. The source does not check `sysconf`'s result and would divide by it.
- The endless `while (true)` loop is bounded by the supplied cycles. When they run out before a stopping wait, the run is `StillRunning`.
- `printf` and `fprintf` messages.
- `exit()` truncates its argument to 8 bits. This is not modelled, because every errno involved is below 256.
- The advise return values are not kept in the call log, because `main` ignores them (uksmd.c:136-137).
- Setting the switch to a value it already has (idempotence) is kernel behaviour that the source never relies on.
- Gauge-based scan skipping, status queries, syscall or pidfd backends, priority inheritance from the KSM thread, daemonizing and supervisor notifications. None of them appears in uksmd.c.
