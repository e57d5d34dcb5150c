/**
  Attaching to and detaching from the target process: the static fields
  `proc`, `procHwnd` and `BaseAddress` of `MemoryAccess`, held here in an
  immutable `Session` record that every operation takes and returns.
 */
module Attachment {
  import opened Words
  import opened Wrappers

  /** An OS handle value; 0 is `IntPtr.Zero`, the value of "no handle". */
  type Handle = nat

  /**
    One process of the list the OS enumerates for the executable's name:
    its id, the full path of its main module and the main module's base
    address.
   */
  datatype ProcessRecord = ProcessRecord(id: int, fileName: string, base: Int32)

  /** The attachment state: `proc`, `procHwnd` and `BaseAddress`. */
  datatype Session = Session(proc: Option<ProcessRecord>, handle: Handle, base: Int32)

  /** The state before any call: no process, no handle, base 0. */
  const Initial: Session := Session(None, 0, 0)

  /** `proc == null` implies `procHwnd == IntPtr.Zero`. */
  predicate Valid(s: Session) {
    s.proc.None? ==> s.handle == 0
  }

  /** A process is selected and its handle was opened. */
  predicate Attached(s: Session) {
    s.proc.Some? && s.handle != 0
  }

  /** The base address is the selected process's own base (until a caller sets it). */
  predicate BaseConsistent(s: Session) {
    s.proc.Some? ==> s.base == s.proc.value.base
  }

  /**
    The path test applied to each enumerated process: exact equality, or
    equality after case folding when `ignoreCase` is set. `fold` stands for
    the culture-sensitive `ToLower`.
   */
  predicate PathMatches(fileName: string, path: string, ignoreCase: bool, fold: string -> string) {
    if ignoreCase then fold(fileName) == fold(path) else fileName == path
  }

  /** procs[i] matches, and no later process does. */
  predicate IsLastMatch(procs: seq<ProcessRecord>, i: int, path: string, ignoreCase: bool, fold: string -> string) {
    && 0 <= i < |procs|
    && PathMatches(procs[i].fileName, path, ignoreCase, fold)
    && forall j :: i < j < |procs| ==> !PathMatches(procs[j].fileName, path, ignoreCase, fold)
  }

  /**
    The `foreach` over the enumerated processes: each match overwrites the
    current choice and the loop never breaks, so the last match wins; with
    no match the choice made by an earlier call survives.
   */
  function Select(procs: seq<ProcessRecord>, path: string, ignoreCase: bool, fold: string -> string,
                  current: Option<ProcessRecord>): (r: Option<ProcessRecord>)
    ensures (forall i :: 0 <= i < |procs| ==> !PathMatches(procs[i].fileName, path, ignoreCase, fold)) ==> r == current
    ensures forall i :: IsLastMatch(procs, i, path, ignoreCase, fold) ==> r == Some(procs[i])
    ensures r == current || (r.Some? && r.value in procs && PathMatches(r.value.fileName, path, ignoreCase, fold))
    decreases |procs|
  {
    if |procs| == 0 then current
    else
      var next := if PathMatches(procs[0].fileName, path, ignoreCase, fold) then Some(procs[0]) else current;
      var r := Select(procs[1..], path, ignoreCase, fold, next);
      assert forall i :: IsLastMatch(procs, i, path, ignoreCase, fold) && i > 0 ==>
        IsLastMatch(procs[1..], i - 1, path, ignoreCase, fold);
      r
  }

  /**
    `LoadProcess(applicationPath, ignoreCase)`: select among the enumerated
    processes, then, if a process is selected (now or by an earlier call),
    overwrite the base address with its base and the handle with what
    `OpenProcess` returned for its id (`hwnd`, the OS's answer for
    `proc.value.id`, 0 when the OS refuses). The result
    says whether the session is now attached.
   */
  function LoadProcess(s: Session, procs: seq<ProcessRecord>, path: string, ignoreCase: bool,
                       fold: string -> string, hwnd: Handle): (r: (Session, bool))
    ensures r.1 <==> Attached(r.0)
    ensures r.0.proc == Select(procs, path, ignoreCase, fold, s.proc)
    ensures r.0.proc.None? ==> r.0 == s
    ensures r.0.proc.Some? ==> r.0.handle == hwnd && BaseConsistent(r.0)
    ensures Valid(s) ==> Valid(r.0)
  {
    var proc := Select(procs, path, ignoreCase, fold, s.proc);
    if proc.None? then (s, false)
    else
      var s' := Session(proc, hwnd, proc.value.base);
      (s', hwnd != 0)
  }

  /**
    `CloseProcess()`: release the handle if there is one, then forget the
    process and the handle. The base address is left as it was. The second
    component is the handle passed to `CloseHandle`, if any.
   */
  function CloseProcess(s: Session): (r: (Session, Option<Handle>))
    ensures r.0.proc.None? && r.0.handle == 0 && r.0.base == s.base
    ensures Valid(r.0) && !Attached(r.0)
    ensures r.1.Some? <==> s.handle != 0
    ensures r.1.Some? ==> r.1.value == s.handle
  {
    (Session(None, 0, s.base), if s.handle != 0 then Some(s.handle) else None)
  }

  /** A second `CloseProcess` changes nothing and releases nothing. */
  lemma CloseIdempotent(s: Session)
    ensures CloseProcess(CloseProcess(s).0) == (CloseProcess(s).0, None)
  {
  }

  /** The last process whose path matches is the one attached to, with its base. */
  lemma LoadSelectsLastMatch(s: Session, procs: seq<ProcessRecord>, path: string, ignoreCase: bool,
                             fold: string -> string, hwnd: Handle, i: int)
    requires IsLastMatch(procs, i, path, ignoreCase, fold)
    ensures LoadProcess(s, procs, path, ignoreCase, fold, hwnd)
         == (Session(Some(procs[i]), hwnd, procs[i].base), hwnd != 0)
  {
  }

  /** With no match and nothing selected before, the call fails and the session stays as it was. */
  lemma LoadNoMatchDetached(s: Session, procs: seq<ProcessRecord>, path: string, ignoreCase: bool,
                            fold: string -> string, hwnd: Handle)
    requires s.proc.None?
    requires forall i :: 0 <= i < |procs| ==> !PathMatches(procs[i].fileName, path, ignoreCase, fold)
    ensures LoadProcess(s, procs, path, ignoreCase, fold, hwnd) == (s, false)
  {
  }

  /**
    With no match but a process kept from an earlier call, that process is
    opened again: the base is reset to its base and the handle replaced.
   */
  lemma LoadNoMatchReusesPrevious(s: Session, procs: seq<ProcessRecord>, path: string, ignoreCase: bool,
                                  fold: string -> string, hwnd: Handle)
    requires s.proc.Some?
    requires forall i :: 0 <= i < |procs| ==> !PathMatches(procs[i].fileName, path, ignoreCase, fold)
    ensures LoadProcess(s, procs, path, ignoreCase, fold, hwnd)
         == (Session(s.proc, hwnd, s.proc.value.base), hwnd != 0)
  {
  }

  /**
    When `OpenProcess` refuses, the call fails yet the base address has
    already been overwritten and the handle is zero.
   */
  lemma LoadDeniedOverwritesBase(s: Session, procs: seq<ProcessRecord>, path: string, ignoreCase: bool,
                                 fold: string -> string)
    requires Select(procs, path, ignoreCase, fold, s.proc).Some?
    ensures var r := LoadProcess(s, procs, path, ignoreCase, fold, 0);
      && !r.1
      && r.0.handle == 0
      && r.0.base == Select(procs, path, ignoreCase, fold, s.proc).value.base
  {
  }

  /** A case-sensitive attach never selects a process whose path differs from the one asked for. */
  lemma LoadExactPath(s: Session, procs: seq<ProcessRecord>, path: string, fold: string -> string, hwnd: Handle)
    requires s.proc.None?
    ensures var r := LoadProcess(s, procs, path, false, fold, hwnd);
      r.0.proc.Some? ==> r.0.proc.value.fileName == path && r.0.proc.value in procs
  {
  }

  /** One call on the attachment surface, with the OS answers it receives. */
  datatype Call =
    | Load(procs: seq<ProcessRecord>, path: string, ignoreCase: bool, hwnd: Handle)
    | Close

  /** The session after one call. */
  function Step(s: Session, call: Call, fold: string -> string): Session {
    match call
    case Load(procs, path, ignoreCase, hwnd) => LoadProcess(s, procs, path, ignoreCase, fold, hwnd).0
    case Close => CloseProcess(s).0
  }

  /** The session after a sequence of calls made from s. */
  function Run(s: Session, calls: seq<Call>, fold: string -> string): Session
    decreases |calls|
  {
    if |calls| == 0 then s
    else
      Run(Step(s, calls[0], fold), calls[1..], fold)
  }

  /** Calls made from a valid session keep a handle only while a process is selected. */
  lemma {:induction false} RunKeepsValid(s: Session, calls: seq<Call>, fold: string -> string)
    requires Valid(s)
    ensures Valid(Run(s, calls, fold))
    decreases |calls|
  {
    if |calls| > 0 {
      var s' := Step(s, calls[0], fold);
      RunKeepsValid(s', calls[1..], fold);
    }
  }

  /** Calls made from a session whose base is its process's base keep it so: only `LoadProcess` selects, and it writes the base too. */
  lemma {:induction false} RunKeepsBaseConsistent(s: Session, calls: seq<Call>, fold: string -> string)
    requires BaseConsistent(s)
    ensures BaseConsistent(Run(s, calls, fold))
    decreases |calls|
  {
    if |calls| > 0 {
      var s' := Step(s, calls[0], fold);
      RunKeepsBaseConsistent(s', calls[1..], fold);
    }
  }

  /**
    From the static fields' initial values, any sequence of calls leaves a
    session without a stray handle whose base, while a process is selected,
    is that process's base.
   */
  lemma RunFromInitial(calls: seq<Call>, fold: string -> string)
    ensures Valid(Run(Initial, calls, fold)) && BaseConsistent(Run(Initial, calls, fold))
  {
    RunKeepsValid(Initial, calls, fold);
    RunKeepsBaseConsistent(Initial, calls, fold);
  }

  /** A session that ends with `CloseProcess` is detached, whatever came before. */
  lemma {:induction false} RunEndingInCloseIsDetached(s: Session, calls: seq<Call>, fold: string -> string)
    requires |calls| > 0 && calls[|calls| - 1] == Close
    ensures !Attached(Run(s, calls, fold)) && Run(s, calls, fold).proc.None?
    decreases |calls|
  {
    if |calls| > 1 {
      var s' := Step(s, calls[0], fold);
      assert calls[1..][|calls[1..]| - 1] == Close;
      RunEndingInCloseIsDetached(s', calls[1..], fold);
    }
  }
}
