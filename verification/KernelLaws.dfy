/** What the kernel's invariant and the words its operations are stated in say, field by field of the tables
    (kernel/app.c:3302-3739, kernel/pty.c). */
module KernelLaws {
  import opened Processes
  import opened Terminals
  import opened Descriptors
  import opened SystemCalls

  /** A process has its own number, larger than its parent's; a parent that is named is alive; an ended process
      that is kept has one. */
  lemma ProcessesKnown(k: Kernel, i: nat)
    requires k.Inv() && i < |k.procs| && k.procs[i].used
    ensures 1 <= k.procs[i].pid <= k.last && k.procs[i].ppid < k.procs[i].pid
    ensures forall j :: 0 <= j < |k.procs| && j != i && k.procs[j].used ==> k.procs[j].pid != k.procs[i].pid
    ensures k.procs[i].ppid != 0 ==>
      exists j :: 0 <= j < |k.procs| && k.procs[j].used && !k.procs[j].zombie && k.procs[j].pid == k.procs[i].ppid
    ensures k.procs[i].zombie && k.procs[i].task != -1 ==> k.procs[i].ppid != 0
  {}

  /** A live process's group lies in one session, the process it is named after with it; a session's leader leads
      its group. */
  lemma GroupsKnown(k: Kernel, i: nat, j: nat)
    requires k.Inv() && i < |k.procs| && k.procs[i].used && !k.procs[i].zombie
    requires j < |k.procs| && k.procs[j].used && !k.procs[j].zombie
    ensures k.procs[i].sid == k.procs[i].pid ==> k.procs[i].pgid == k.procs[i].pid
    ensures k.procs[i].pgid == k.procs[j].pgid ==> k.procs[i].sid == k.procs[j].sid
    ensures k.procs[i].pgid == k.procs[j].pid ==> k.procs[i].sid == k.procs[j].sid
  {}

  /** A terminal a process is controlled by names its session, whose leader it controls as well. */
  lemma ControlKnown(k: Kernel, i: nat, t: nat)
    requires k.Inv() && i < |k.procs| && k.procs[i].ctty == Some(t)
    ensures k.procs[i].used && !k.procs[i].zombie && t in k.ptys && k.ptys[t].sid == k.procs[i].sid
    ensures exists j :: 0 <= j < |k.procs| && k.procs[j].used && !k.procs[j].zombie
                        && k.procs[j].pid == k.procs[j].sid == k.ptys[t].sid && k.procs[j].ctty == Some(t)
  {
    HoldersPositive(k.procs, i, t);
    if k.ptys[t].sid != 0 {
      var j :| 0 <= j < |k.procs| && LeadsOn(k.procs[j], k.ptys[t].sid, t);
    }
  }

  /** The count behind a terminal's holds is the number of slots it controls. */
  lemma {:induction false} HoldersCounted(ps: seq<Proc>, t: nat)
    ensures Holders(ps, t) == |set i | 0 <= i < |ps| && ps[i].ctty == Some(t)|
  {
    var slots := set i | 0 <= i < |ps| && ps[i].ctty == Some(t);
    if |ps| == 0 {
      assert slots == {};
    } else {
      var n := |ps| - 1;
      var less := set i | 0 <= i < n && ps[..n][i].ctty == Some(t);
      HoldersCounted(ps[..n], t);
      assert slots == if ps[n].ctty == Some(t) then less + {n} else less;
    }
  }

  /** A terminal's masters and slaves are the open descriptions of its two ends, the kernel's own masters counted
      in; it is hung up exactly when no master is left, and a hangup is never left untold. */
  lemma EndsCounted(k: Kernel, t: nat)
    requires k.Inv() && t in k.ptys
    ensures k.ptys[t].masters == k.ptys[t].kernel + |set f | f in k.files && k.files[f].kind == Master(t)|
    ensures k.ptys[t].slaves == |set f | f in k.files && k.files[f].kind == Slave(t)|
    ensures k.ptys[t].hung <==> k.ptys[t].masters == 0
    ensures !k.ptys[t].hangup
    ensures k.ptys[t].holds == |set i | 0 <= i < |k.procs| && k.procs[i].ctty == Some(t)|
  {
    HoldersCounted(k.procs, t);
    assert Open(k.files, Master(t)) == set f | f in k.files && k.files[f].kind == Master(t);
    assert Open(k.files, Slave(t)) == set f | f in k.files && k.files[f].kind == Slave(t);
  }

  /** Only a live process has descriptors, and each names an open description. */
  lemma DescriptorsKnown(k: Kernel, p: nat, d: nat, f: nat)
    requires k.Inv() && p < |k.procs| && d < |k.fds[p]| && k.fds[p][d] == f
    ensures k.procs[p].used && !k.procs[p].zombie
    ensures f in k.files && k.files[f].refs > 0
  {
    EntryIsOpen(k.fds, k.held, k.loose, k.files, p, d);
  }

  /** Which children waitpid's argument selects: any, one by number, those of a group, those of the caller's. */
  lemma Selected(k: Kernel, c: Proc, p: Proc, pid: int)
    ensures k.WaitsFor(c, p, pid) ==> c.used && c.ppid == p.pid && c.task != -1
    ensures c.used && c.ppid == p.pid && c.task != -1 ==>
      && (pid == -1 ==> k.WaitsFor(c, p, pid))
      && (pid > 0 ==> (k.WaitsFor(c, p, pid) <==> c.pid == pid))
      && (pid == 0 ==> (k.WaitsFor(c, p, pid) <==> c.pgid == p.pgid))
      && (pid < -1 ==> (k.WaitsFor(c, p, pid) <==> c.pgid + pid == 0))
  {}

  /** Whether an exit's status is kept: a live process has the number the ended one's parent has and does not ignore
      SIGCHLD. */
  lemma Awaiting(k: Kernel, ps: seq<Proc>, p: nat)
    requires p < |ps|
    ensures k.Awaited(ps, p) <==>
      exists j :: 0 <= j < |ps| && ps[j].used && !ps[j].zombie && !ps[j].ignoresChild && ps[j].pid == ps[p].ppid
  {
    if k.Awaited(ps, p) {
      var j :| 0 <= j < |ps| && Live(ps[j]) && !ps[j].ignoresChild && ps[j].pid == ps[p].ppid;
    }
  }

  /** What an exit does to another process: a live child has no parent any more, an ended one is gone, and nobody
      else is touched. */
  lemma Orphans(c: Proc, pid: nat)
    ensures !c.used || c.ppid != pid ==> Orphan(c, pid) == c
    ensures c.used && c.ppid == pid && !c.zombie ==> Orphan(c, pid) == c.(ppid := 0)
    ensures c.used && c.ppid == pid && c.zombie ==> Orphan(c, pid) == c.(used := false, zombie := false)
  {}
}
