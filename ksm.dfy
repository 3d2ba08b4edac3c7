/** The two kernel-control helpers of uksmd, ksm_ctl and ksm_advise
    (uksmd.c:16-72), reduced to the bytes they hand to write(2) and the value
    they return. What snprintf, open and write report is an input: the file
    system itself is not part of the model. */
module Ksm {

  /** A positive errno value, as left behind by a failing system call. */
  type Errno = e: int | 0 < e witness 1

  // Linux errno values that the daemon tests or returns.
  const EINTR: Errno := 4
  const EAGAIN: Errno := 11
  const EACCES: Errno := 13
  const EINVAL: Errno := 22

  /** open(2) yields a descriptor, or -1 with errno set. */
  datatype OpenOutcome = Opened | OpenFailed(errno: Errno)

  /** write(2) yields the number of bytes written, or -1 with errno set. */
  datatype WriteOutcome = Wrote(count: nat) | WriteFailed(errno: Errno)

  /** What open and write report to one ksm_ctl call on /sys/kernel/mm/ksm/run. */
  datatype CtlIo = CtlIo(open: OpenOutcome, write: WriteOutcome)

  /** What snprintf, open and write report to one ksm_advise call on /proc/<pid>/ksm. */
  datatype AdviseIo = AdviseIo(formatFails: bool, open: OpenOutcome, write: WriteOutcome)

  /** A call the daemon makes into the kernel control surface, as it is logged
      by the model: a ksm_ctl call with its return value, or a ksm_advise
      call (merge) on a thread id. */
  datatype Event = CtlCall(enable: bool, ret: int) | AdviseCall(tid: int)

  /** The single byte ksm_ctl writes to the run switch. */
  function RunByte(enable: bool): string
  {
    if enable then "1" else "0"
  }

  /** The word ksm_advise writes to the per-process advice file. */
  function AdviceWord(merge: bool): string
  {
    if merge then "merge" else "unmerge"
  }

  /** The value ksm_ctl returns for the given outcomes of open and write:
      the errno of the first step that fails, 0 when none does. */
  function CtlRet(io: CtlIo): (r: int)
    ensures r >= 0
    ensures r == 0 <==> io.open.Opened? && io.write.Wrote?
  {
    match io.open
    case OpenFailed(e) => e
    case Opened =>
      match io.write
      case WriteFailed(e) => e
      case Wrote(_) => 0
  }

  /** ksm_ctl: open the run switch, write "1" or "0", close it. `sent` is
      what is handed to write(2), empty when open fails. The result of
      close(2) is ignored, and so is a short write. */
  method Ctl(enable: bool, io: CtlIo) returns (ret: int, sent: string)
    ensures ret == CtlRet(io)
    ensures ret >= 0
    ensures ret == 0 <==> io.open.Opened? && io.write.Wrote?
    ensures io.open.OpenFailed? ==> ret == io.open.errno && sent == []
    ensures io.open.Opened? ==> sent == RunByte(enable) && |sent| == 1
    ensures io.open.Opened? && io.write.WriteFailed? ==> ret == io.write.errno
  {
    ret := 0;
    sent := [];
    if io.open.OpenFailed? {
      ret := io.open.errno;
      return;
    }
    sent := RunByte(enable);
    if io.write.WriteFailed? {
      ret := io.write.errno;
    }
  }

  /** ksm_advise: format the path of `pid`'s advice file, open it, write
      "merge" or "unmerge", close it. The path itself is not modelled, so
      `pid` only names the target. On success the result is the byte count
      that write(2) returned, not 0. */
  method Advise(pid: int, merge: bool, io: AdviseIo) returns (ret: int, sent: string)
    ensures ret >= 0
    ensures io.formatFails ==> ret == EINVAL && sent == []
    ensures !io.formatFails && io.open.OpenFailed? ==> ret == io.open.errno && sent == []
    ensures !io.formatFails && io.open.Opened? ==>
              sent == AdviceWord(merge) && |sent| == (if merge then 5 else 7)
    ensures !io.formatFails && io.open.Opened? && io.write.WriteFailed? ==> ret == io.write.errno
    ensures !io.formatFails && io.open.Opened? && io.write.Wrote? ==> ret == io.write.count
    ensures !io.formatFails && io.open == Opened && io.write == Wrote(|sent|) ==> ret == |sent| > 0
  {
    ret := 0;
    sent := [];
    if io.formatFails {
      ret := EINVAL;
      return;
    }
    if io.open.OpenFailed? {
      ret := io.open.errno;
      return;
    }
    sent := AdviceWord(merge);
    match io.write {
      case WriteFailed(e) => ret := e;
      case Wrote(n) => ret := n;
    }
  }
}
