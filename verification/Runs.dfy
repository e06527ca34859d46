/** Whole runs: any sequence of system calls, exits and kernel actions, from boot. */
module Runs {
  import opened Processes
  import opened Terminals
  import opened Descriptors
  import opened SystemCalls

  /** One step of a run; p and c are slots of the process table, fd a descriptor, t a terminal. */
  datatype Call =
    | OpenFile(p: nat, room: bool)
    | OpenPtmx(p: nat, room: bool)
    | OpenPts(p: nat, t: nat, noctty: bool, room: bool)
    | Close(p: nat, fd: int)
    | Duplicate(p: nat, fd: int, to: int, exact: bool, cx: bool)
    | MakePipe(p: nat, cx: bool, room: bool)
    | Fork(p: nat)
    | ForkFails(c: nat)
    | ForkSucceeds(p: nat, c: nat, task: nat)
    | Execute(p: nat)
    | Exit(p: nat, code: int, sig: nat)
    | ExitBegins(p: nat)
    | ExitEnds(p: nat, parent: int, code: int, sig: nat)
    | WaitFor(p: nat, pid: int)
    | SetGroup(p: nat, pid: int, pgid: int)
    | SetSession(p: nat)
    | SetAction(p: nat, signal: int, disp: int)
    | TakeTty(p: nat, fd: int)
    | GiveTty(p: nat, fd: int)
    | SetFg(p: nat, fd: int, pg: int, background: int)
    | Start(task: nat)
    | StartBegins
    | StartEnds(c: nat, task: nat)
    | StartFails(c: nat)
    | OpenConsole
    | StartOnEnds(c: nat, t: nat, task: nat)
    | HangUpConsole(t: nat)
    | HoldFd(p: nat, task: nat, fd: int)
    | Release(task: nat, f: nat)
    | Abandon(task: nat)

  /** Whether slot p holds a live process that can make calls. */
  method Calls(k: Kernel, p: nat) returns (yes: bool)
    requires k.Inv()
    ensures |k.procs| == APP_MAX
    ensures yes <==> p < APP_MAX && Live(k.procs[p])
  {
    hide Lawful;
    hide Accounted;
    hide Counted;
    yes := p < APP_MAX && k.procs[p].used && !k.procs[p].zombie;
  }

  /** The terminal a descriptor is open on, if it is. */
  method TerminalOf(k: Kernel, p: nat, fd: int) returns (t: Option<nat>)
    requires k.Inv() && p < APP_MAX
    ensures t.Some? ==> t.value in k.ptys
  {
    hide Lawful;
    hide Accounted;
    hide Named;
    hide Holders;
    hide Counted;
    hide Open;
    if fd < 0 || fd >= APP_FDS || k.fds[p][fd] == NULL {
      return None;
    }
    k.OpenEntry(p, fd);
    var f := k.fds[p][fd];
    match k.files[f].kind {
      case Plain => t := None;
      case Master(u) => t := Some(u);
      case Slave(u) => t := Some(u);
    }
  }

  /** What a wait returned: a process number and its status. */
  type Reaped = (int, int)

  /** Statuses returned so far, the ledger's record of them, and no number twice. */
  ghost predicate Recorded(waits: seq<Reaped>, l: Ledger) {
    && (forall i :: 0 <= i < |waits| ==> waits[i].0 >= 0 && Returned(l, waits[i].0, waits[i].1))
    && (forall i, j :: 0 <= i < j < |waits| ==> waits[i].0 != waits[j].0)
  }

  ghost predicate Returned(l: Ledger, pid: int, status: int) {
    pid >= 0 && pid in l.reaped && l.reaped[pid] == status
  }

  /** Calls on descriptors. */
  method DescriptorStep(k: Kernel, call: Call)
    requires k.Inv() && (call.OpenFile? || call.OpenPtmx? || call.OpenPts? || call.Close? || call.Duplicate?
      || call.MakePipe?)
    modifies k
    ensures k.Inv() && k.loose == old(k.loose) && k.ledger == old(k.ledger)
  {
    hide Kernel.Inv;
    var yes := Calls(k, call.p);
    if !yes { return; }
    match call {
      case OpenFile(p, room) => var r := k.OpenPlain(p, room);
      case OpenPtmx(p, room) => var r := k.OpenMaster(p, room);
      case OpenPts(p, t, noctty, room) =>
        if t in k.ptys && k.ptys[t].masters > 0 && !k.ptys[t].hung {
          var r := k.PtsOpen(p, t, noctty || k.procs[p].ctty.Some?, room);
        }
      case Close(p, fd) => var r := k.CloseFd(p, fd);
      case Duplicate(p, fd, to, exact, cx) => var r := k.Dup(p, fd, to, exact, cx);
      case MakePipe(p, cx, room) => var r, x, y := k.Pipe(p, cx, room);
    }
  }

  /** A process whose threads are out, with no terminal: its end, where nothing that came meanwhile spoils it. */
  method EndExit(k: Kernel, p: nat, parent: int, code: int, sig: nat)
    requires k.Inv() && p < APP_MAX && |k.procs| == APP_MAX && Live(k.procs[p])
    modifies k
    ensures k.Inv() && k.loose == old(k.loose) && k.ledger.reaped == old(k.ledger).reaped
  {
    hide Kernel.Inv;
    if k.procs[p].ctty == None && -1 <= parent < APP_MAX && Childless(k.procs, p)
       && (parent == -1 || k.procs[parent].ignoresChild || k.procs[p].ppid != 0) {
      k.FinishEnd(p, parent, code, sig);
    }
  }

  /** Calls that make, change and end processes, but for wait. */
  method ProcessStep(k: Kernel, call: Call)
    requires k.Inv() && (call.Fork? || call.ForkSucceeds? || call.Execute? || call.Exit? || call.ExitBegins?
      || call.ExitEnds? || call.SetGroup? || call.SetSession?
                         || call.SetAction?)
    modifies k
    ensures k.Inv() && k.loose == old(k.loose) && k.ledger.reaped == old(k.ledger).reaped
  {
    hide Kernel.Inv;
    var yes := Calls(k, call.p);
    if !yes { return; }
    match call {
      case Fork(p) => var c := k.ForkBegin(p);
      case ForkSucceeds(p, c, task) =>
        if c < APP_MAX && Making(k.procs[c]) && k.procs[p].pid < k.procs[c].pid {
          k.ForkFinish(p, c, task);
        }
      case Execute(p) => k.Exec(p);
      case Exit(p, code, sig) => k.Finish(p, code, sig);
      case ExitBegins(p) => var parent := k.FinishBegin(p);
      case ExitEnds(p, parent, code, sig) => EndExit(k, p, parent, code, sig);
      case SetGroup(p, pid, pgid) => var r := k.Setpgid(p, pid, pgid);
      case SetSession(p) => var r := k.Setsid(p);
      case SetAction(p, sig, disp) => var r := k.SigAction(p, sig, disp);
    }
  }

  /** Requests on a terminal descriptor. */
  method TerminalStep(k: Kernel, call: Call)
    requires k.Inv() && (call.TakeTty? || call.GiveTty? || call.SetFg?)
    modifies k
    ensures k.Inv() && k.loose == old(k.loose) && k.ledger == old(k.ledger)
  {
    hide Kernel.Inv;
    var yes := Calls(k, call.p);
    if !yes { return; }
    var t := TerminalOf(k, call.p, call.fd);
    if t == None { return; }
    match call {
      case TakeTty(p, fd) => var r := k.Tiocsctty(p, t.value, false);
      case GiveTty(p, fd) => var r := k.Tiocnotty(p, t.value);
      case SetFg(p, fd, pg, background) => var r := k.Tiocspgrp(p, t.value, pg, background);
    }
  }

  /** What the kernel does on its own, a failed fork, and references held by running calls. */
  method KernelStep(k: Kernel, call: Call)
    requires k.Inv() && (call.Start? || call.StartBegins? || call.StartEnds? || call.StartFails? || call.OpenConsole?
                         || call.StartOnEnds? || call.HangUpConsole? || call.ForkFails? || call.HoldFd?
                             || call.Release? || call.Abandon?)
    modifies k
    ensures k.Inv() && k.loose == old(k.loose) && k.ledger.reaped == old(k.ledger).reaped
  {
    hide Kernel.Inv;
    k.Sizes();
    match call {
      case Start(task) => var c := k.Spawn(task);
      case StartBegins => var c := k.SpawnBegin();
      case StartEnds(c, task) =>
        if c < |k.procs| && Cleared(k.procs[c]) { k.SpawnFinish(c, task); }
      case StartFails(c) =>
        if c < |k.procs| && !Live(k.procs[c]) {
          k.FreeRow(c);
          k.SpawnFail(c);
        }
      case OpenConsole => var t := k.NewConsole();
      case StartOnEnds(c, t, task) =>
        if c < |k.procs| && Cleared(k.procs[c]) && t in k.ptys && k.ptys[t].sid == 0 { k.SpawnTtyFinish(c, t, task); }
      case HangUpConsole(t) =>
        if t in k.ptys && k.ptys[t].kernel > 0 { k.CloseConsole(t); }
      case ForkFails(c) =>
        if c < |k.procs| && Making(k.procs[c]) { k.ForkAbort(c); }
      case HoldFd(p, task, fd) =>
        if p < APP_MAX && task < |k.held| && |k.held[task]| < HELD_MAX { var f := k.Hold(p, task, fd); }
      case Release(task, f) =>
        if task < |k.held| && f in k.held[task] { k.Unhold(task, f); }
      case Abandon(task) =>
        if task < TASK_MAX { k.HeldDrop(task); }
    }
  }

  /** One step, made only where the caller exists and the kernel gets that far. */
  method Step(k: Kernel, call: Call) returns (wait: seq<Reaped>)
    requires k.Inv()
    modifies k
    ensures k.Inv() && k.loose == old(k.loose)
    ensures wait == [] ==> k.ledger.reaped == old(k.ledger).reaped
    ensures wait != [] ==>
      && |wait| == 1 && wait[0].0 >= 0 && wait[0].0 !in old(k.ledger).reaped
      && k.ledger.reaped == old(k.ledger).reaped[wait[0].0 := wait[0].1]
  {
    hide Kernel.Inv;
    wait := [];
    match call {
      case WaitFor(p, pid) =>
        var yes := Calls(k, p);
        if yes {
          var r, status := k.Wait(p, pid);
          if r > 0 { wait := [(r, status)]; }
        }
      case OpenFile(_, _) => DescriptorStep(k, call);
      case OpenPtmx(_, _) => DescriptorStep(k, call);
      case OpenPts(_, _, _, _) => DescriptorStep(k, call);
      case Close(_, _) => DescriptorStep(k, call);
      case Duplicate(_, _, _, _, _) => DescriptorStep(k, call);
      case MakePipe(_, _, _) => DescriptorStep(k, call);
      case Fork(_) => ProcessStep(k, call);
      case ForkSucceeds(_, _, _) => ProcessStep(k, call);
      case Execute(_) => ProcessStep(k, call);
      case Exit(_, _, _) => ProcessStep(k, call);
      case ExitBegins(_) => ProcessStep(k, call);
      case ExitEnds(_, _, _, _) => ProcessStep(k, call);
      case SetGroup(_, _, _) => ProcessStep(k, call);
      case SetSession(_) => ProcessStep(k, call);
      case SetAction(_, _, _) => ProcessStep(k, call);
      case TakeTty(_, _) => TerminalStep(k, call);
      case GiveTty(_, _) => TerminalStep(k, call);
      case SetFg(_, _, _, _) => TerminalStep(k, call);
      case _ => KernelStep(k, call);
    }
  }

  lemma RecordedNext(waits: seq<Reaped>, wait: seq<Reaped>, l: Ledger, l': Ledger)
    requires Recorded(waits, l)
    requires wait == [] ==> l'.reaped == l.reaped
    requires wait != [] ==>
      && |wait| == 1 && wait[0].0 >= 0 && wait[0].0 !in l.reaped && l'.reaped == l.reaped[wait[0].0 := wait[0].1]
    ensures Recorded(waits + wait, l')
  {}

  /** Every run from boot: the invariant holds at its end, no reference is in flight, and no process
      number was ever returned by two waits. */
  method Run(calls: seq<Call>) returns (k: Kernel, waits: seq<Reaped>)
    ensures fresh(k) && k.Inv() && k.loose == multiset{}
    ensures Recorded(waits, k.ledger)
  {
    hide *;
    k := new Kernel();
    waits := [];
    NothingReturned(k.ledger);
    var i := 0;
    while i < |calls|
      invariant 0 <= i <= |calls| && fresh(k)
      invariant k.Inv() && k.loose == multiset{} && Recorded(waits, k.ledger)
    {
      ghost var l := k.ledger;
      var wait := Step(k, calls[i]);
      RecordedNext(waits, wait, l, k.ledger);
      waits := waits + wait;
      i := i + 1;
    }
  }

  lemma NothingReturned(l: Ledger)
    ensures Recorded([], l)
  {}

  // ---- what the invariant says, law by law ---------------------------------------------------------

  /** At the end of every run a description's count is the number of descriptor-table entries and held
      references to it, and no table entry names a freed one. */
  lemma DescriptorsConserved(k: Kernel, f: nat)
    requires k.Inv() && k.loose == multiset{}
    ensures Total(k.fds, f) + Total(k.held, f) == if f in k.files then k.files[f].refs else 0
    ensures f in k.files ==> k.files[f].refs > 0
  {
    assert Refs(k.files, f) == Mentions(k.fds, k.held, k.loose, f);
  }

  /** A terminal's holds are its processes, each in the session the terminal names. */
  lemma TerminalsHeld(k: Kernel, i: nat)
    requires k.Inv() && i < |k.procs| && k.procs[i].ctty.Some?
    ensures k.procs[i].ctty.value in k.ptys
    ensures k.ptys[k.procs[i].ctty.value].holds == Holders(k.procs, k.procs[i].ctty.value) > 0
    ensures k.ptys[k.procs[i].ctty.value].sid == k.procs[i].sid
    ensures HasLeader(k.procs, k.procs[i].sid, k.procs[i].ctty.value)
  {
    HoldersPositive(k.procs, i, k.procs[i].ctty.value);
  }

  /** Every status kept for a parent is in exactly one place. */
  lemma StatusInOnePlace(k: Kernel, pid: nat)
    requires k.Inv() && pid in k.ledger.kept
    ensures (pid in k.ledger.reaped && pid !in k.ledger.dropped && !HasEnded(k.procs, pid))
         || (pid !in k.ledger.reaped && pid in k.ledger.dropped && !HasEnded(k.procs, pid))
         || (pid !in k.ledger.reaped && pid !in k.ledger.dropped && HasEnded(k.procs, pid))
    ensures pid in k.ledger.reaped ==> k.ledger.reaped[pid] == k.ledger.kept[pid]
  {}

  // ---- where the laws fail -------------------------------------------------------------------------

  /** Process i is controlled by t, which names another session. */
  ghost predicate Strayed(k: Kernel, i: nat, t: nat)
    reads k
  {
    i < |k.procs| && Live(k.procs[i]) && k.procs[i].ctty == Some(t) && t in k.ptys && k.ptys[t].sid != k.procs[i].sid
  }

  /** From boot: a process on a console's terminal, another leader that opens it without taking it and
      then forces TIOCSCTTY. */
  method ForcedFromBoot() returns (k: Kernel, i: nat, t: nat)
    ensures fresh(k) && !k.Inv() && Strayed(k, i, t)
  {
    hide Kernel.Inv;
    k := new Kernel();
    t := k.NewConsole();
    assert !k.procs[0].used && !k.procs[1].used;
    i := k.SpawnTty(t, 1);
    assert !k.procs[0].used || !k.procs[1].used;
    ghost var fs, gs := k.fds, k.files;
    k.EmptyRows();
    var d := k.Spawn(2);
    StandardEntries(fs, k.fds, gs, k.files, d);
    assert k.fds[d][3] == NULL;
    hide Standard;
    var fd := k.PtsOpen(d, t, true, true);
    var r := k.Tiocsctty(d, t, true);
  }

  /** From boot: two programs started on one console's terminal. */
  method StartedTwice() returns (k: Kernel, i: nat, t: nat)
    ensures fresh(k) && !k.Inv() && Strayed(k, i, t)
  {
    hide Kernel.Inv;
    k := new Kernel();
    t := k.NewConsole();
    assert !k.procs[0].used && !k.procs[1].used;
    i := k.SpawnTty(t, 1);
    assert !k.procs[0].used || !k.procs[1].used;
    var d := k.SpawnTty(t, 2);
  }

  /** From boot: a terminal free when a program's start on it begins is taken, while the file is read, by a
      leader that just opens it. */
  method TakenMeanwhile() returns (k: Kernel, i: nat, t: nat)
    ensures fresh(k) && !k.Inv() && Strayed(k, i, t)
  {
    hide Kernel.Inv;
    hide StartsAnew;
    hide Overwritten;
    k := new Kernel();
    assert !k.procs[0].used && !k.procs[1].used;
    ghost var fs, gs := k.fds, k.files;
    k.EmptyRows();
    i := k.Spawn(2);
    StandardEntries(fs, k.fds, gs, k.files, i);
    assert k.fds[i][3] == NULL;
    hide Standard;
    t := k.NewConsole();
    assert !k.procs[0].used || !k.procs[1].used;
    var c := k.SpawnBegin();
    assert k.ptys[t].sid == 0;
    var fd := k.PtsOpen(i, t, false, true);
    k.SpawnTtyFinish(c, t, 1);
  }

  /** From boot: while one program's file is read another start takes the slot. No process has the number the
      first drew, its task runs in the other's slot, and three references to the other's console are lost. */
  method SlotGivenTwice() returns (k: Kernel, c: nat, n: nat)
    ensures fresh(k) && |k.loose| == 3 && c < |k.procs| && Live(k.procs[c]) && k.procs[c].task == 1
    ensures forall i :: 0 <= i < |k.procs| && k.procs[i].used ==> k.procs[i].pid != n
  {
    hide Kernel.Inv;
    hide Kernel.Sound;
    hide Shaped;
    k := new Kernel();
    assert !k.procs[0].used;
    c := k.SpawnBegin();
    n := k.procs[c].pid;
    ghost var ps := k.procs;
    assert c == 0 && !ps[0].used;
    ghost var fs, gs := k.fds, k.files;
    var d := k.Spawn(2);
    assert d == 0;
    StandardEntries(fs, k.fds, gs, k.files, d);
    hide Standard;
    k.SpawnFinish(c, 1);
  }

  /** From boot: two starts clear the same slot, the second cannot read its file, and the first is right, under
      the number the second drew. */
  method SecondStartFails() returns (k: Kernel, c: nat)
    ensures fresh(k) && k.Inv() && k.loose == multiset{} && c < |k.procs| && k.procs[c] == Begun(2, 1)
  {
    hide Kernel.Inv;
    hide Kernel.Sound;
    hide Shaped;
    k := new Kernel();
    assert !k.procs[0].used;
    c := k.SpawnBegin();
    ghost var ps := k.procs;
    assert c == 0 && !ps[0].used;
    var d := k.SpawnBegin();
    assert d == 0;
    k.SpawnFinish(c, 1);
  }

  /** From boot: a parent ends while its ending child waits for its own threads. The child is kept for nobody. */
  method KeptForNobody() returns (k: Kernel, b: nat)
    ensures fresh(k) && !k.Inv() && b < |k.procs| && Ended(k.procs[b]) && k.procs[b].ppid == 0
  {
    hide Kernel.Inv;
    k := new Kernel();
    assert !k.procs[0].used && !k.procs[1].used;
    var a := k.Spawn(1);
    assert !k.procs[0].used || !k.procs[1].used;
    b := k.ForkBegin(a);
    k.ForkFinish(a, b, 2);
    assert Live(k.procs[a]) && k.procs[a].pid == k.procs[b].ppid;
    ghost var ps := k.procs;
    var parent := k.FinishBegin(b);
    k.Sizes();
    assert k.Awaited(ps, b) && parent != -1;
    assert forall i :: 0 <= i < APP_MAX && i != a && i != b ==> !k.procs[i].used;
    assert parent == a;
    ghost var qs := k.procs;
    k.Finish(a, 0, 0);
    k.Sizes();
    assert k.procs[a].ignoresChild == qs[a].ignoresChild == false;
    assert k.procs[b].ppid == 0;
    k.FinishEnd(b, parent, 0, 0);
  }
}
