/** The process table's own laws: numbering, parents, groups and sessions (kernel/app.c:3302-3739). */
module Processes {

  datatype Option<T> = None | Some(value: T)

  /** A slot of g_procs. `pid` is the process's number (seq in the table), `task` the task that runs
      it, -1 while it is being made. `blank` says that prepare cleared and numbered the slot and that
      nothing was written to it since; in the table that is an empty name. */
  datatype Proc = Proc(used: bool, zombie: bool, task: int, pid: nat, ppid: nat, pgid: int, sid: int,
                       ctty: Option<nat>, status: int, ignoresChild: bool, blank: bool)

  predicate Live(p: Proc) {
    p.used && !p.zombie
  }

  /** A fork's child before its parent has filled it in. */
  predicate Making(p: Proc) {
    p.used && p.zombie && p.task == -1
  }

  /** A slot as a start left it before reading the file: cleared, numbered, and free for anyone who looks. */
  predicate Cleared(p: Proc) {
    !p.used && p.blank
  }

  /** A process runs here, or has ended and waits for its parent. */
  predicate Ran(p: Proc) {
    p.used && !Making(p)
  }

  /** What prepare leaves in the slot before it reads the file. */
  function Reserved(n: nat): Proc {
    Proc(false, false, 0, n, 0, n, n, None, 0, false, true)
  }

  /** A process started on its own, of its own group and session. */
  function Begun(n: nat, task: int): Proc {
    Proc(true, false, task, n, 0, n, n, None, 0, false, false)
  }

  /** Ended, its exit status waiting for the parent. */
  predicate Ended(p: Proc) {
    p.used && p.zombie && p.task != -1
  }

  // ---- the laws ----------------------------------------------------------------------------

  predicate HasNumber(p: Proc) {
    p.used || p.blank
  }

  ghost predicate Numbered(ps: seq<Proc>, last: nat) {
    && (forall i :: 0 <= i < |ps| ==> ps[i].pid <= last)
    && (forall i :: 0 <= i < |ps| && HasNumber(ps[i]) ==> 1 <= ps[i].pid && ps[i].ppid < ps[i].pid)
    && (forall i, j :: 0 <= i < j < |ps| && HasNumber(ps[i]) && HasNumber(ps[j]) ==> ps[i].pid != ps[j].pid)
  }

  ghost predicate HasLive(ps: seq<Proc>, pid: int) {
    exists i :: 0 <= i < |ps| && Live(ps[i]) && ps[i].pid == pid
  }

  /** A parent that is named is alive, an ended process has one, a half-made one has none and no task yet. */
  ghost predicate Parented(ps: seq<Proc>) {
    && (forall i :: 0 <= i < |ps| && ps[i].used && ps[i].ppid != 0 ==> HasLive(ps, ps[i].ppid))
    && (forall i :: 0 <= i < |ps| && Ended(ps[i]) ==> ps[i].ppid != 0)
    && (forall i :: 0 <= i < |ps| && Making(ps[i]) ==> ps[i].ppid == 0)
    && (forall i :: 0 <= i < |ps| && Live(ps[i]) ==> ps[i].task != -1)
    && (forall i :: 0 <= i < |ps| && ps[i].blank ==> ps[i].(ctty := None) == Reserved(ps[i].pid))
  }

  /** A group lies in one session, and so does the process it is named after; a session leader leads its group. */
  ghost predicate Groups(ps: seq<Proc>, last: nat) {
    && (forall i :: 0 <= i < |ps| && Live(ps[i]) ==> 1 <= ps[i].pgid <= last && 1 <= ps[i].sid <= last)
    && (forall i :: 0 <= i < |ps| && Live(ps[i]) && ps[i].sid == ps[i].pid ==> ps[i].pgid == ps[i].pid)
    && (forall i, j :: 0 <= i < |ps| && 0 <= j < |ps| && Live(ps[i]) && Live(ps[j]) && ps[i].pgid == ps[j].pgid
          ==> ps[i].sid == ps[j].sid)
    && (forall i, j :: 0 <= i < |ps| && 0 <= j < |ps| && Live(ps[i]) && Live(ps[j]) && ps[i].pgid == ps[j].pid
          ==> ps[i].sid == ps[j].sid)
  }

  predicate Unready(p: Proc) {
    Making(p) || Cleared(p)
  }

  /** No group or session is named after a process still being made or started. */
  ghost predicate Unborn(ps: seq<Proc>) {
    forall i, c :: 0 <= i < |ps| && 0 <= c < |ps| && Live(ps[i]) && Unready(ps[c]) ==>
      ps[i].pgid != ps[c].pid && ps[i].sid != ps[c].pid
  }

  ghost predicate Lawful(ps: seq<Proc>, last: nat) {
    Numbered(ps, last) && Parented(ps) && Groups(ps, last) && Unborn(ps)
  }

  // ---- what keeps them -----------------------------------------------------------------------

  /** Only controlling terminals differ. */
  ghost predicate SameButTty(ps: seq<Proc>, qs: seq<Proc>) {
    |ps| == |qs| && forall i :: 0 <= i < |ps| ==> qs[i] == ps[i].(ctty := qs[i].ctty)
  }

  /** Some processes lost their controlling terminal; nothing else changed. */
  ghost predicate TtyLost(ps: seq<Proc>, qs: seq<Proc>) {
    |ps| == |qs| && forall i :: 0 <= i < |ps| ==> qs[i] == ps[i] || qs[i] == ps[i].(ctty := None)
  }

  lemma TtyLostTrans(ps: seq<Proc>, qs: seq<Proc>, rs: seq<Proc>)
    requires TtyLost(ps, qs) && TtyLost(qs, rs)
    ensures TtyLost(ps, rs)
  {}

  lemma LiveCarries(ps: seq<Proc>, qs: seq<Proc>, pid: nat, i: nat)
    requires |ps| == |qs| && i < |ps| && Live(ps[i]) && ps[i].pid == pid
    requires Live(qs[i]) && qs[i].pid == pid
    ensures HasLive(qs, pid)
  {}

  /** Fewer processes, none of them renumbered or moved. */
  lemma FewerGroups(ps: seq<Proc>, qs: seq<Proc>, last: nat)
    requires Groups(ps, last) && |ps| == |qs|
    requires forall i :: 0 <= i < |ps| && Live(qs[i]) ==>
      Live(ps[i]) && qs[i].pid == ps[i].pid && qs[i].pgid == ps[i].pgid && qs[i].sid == ps[i].sid
    ensures Groups(qs, last)
  {}

  lemma FewerUnborn(ps: seq<Proc>, qs: seq<Proc>)
    requires Unborn(ps) && |ps| == |qs|
    requires forall i ::
      0 <= i < |ps| && Live(qs[i]) ==> Live(ps[i]) && qs[i].pgid == ps[i].pgid && qs[i].sid == ps[i].sid
    requires forall i :: 0 <= i < |ps| && Unready(qs[i]) ==> Unready(ps[i]) && qs[i].pid == ps[i].pid
    ensures Unborn(qs)
  {}

  lemma FewerNumbered(ps: seq<Proc>, qs: seq<Proc>, last: nat)
    requires Numbered(ps, last) && |ps| == |qs| && forall i :: 0 <= i < |ps| ==> qs[i].pid <= last
    requires forall i ::
      0 <= i < |ps| && HasNumber(qs[i]) ==> HasNumber(ps[i]) && qs[i].pid == ps[i].pid && qs[i].ppid < qs[i].pid
    ensures Numbered(qs, last)
  {}

  lemma TtyLawful(ps: seq<Proc>, qs: seq<Proc>, last: nat)
    requires Lawful(ps, last) && SameButTty(ps, qs)
    ensures Lawful(qs, last)
  {
    hide Groups;
    hide Parented;
    FewerGroups(ps, qs, last);
    FewerNumbered(ps, qs, last);
    FewerUnborn(ps, qs);
    TtyParented(ps, qs);
  }

  lemma TtyParented(ps: seq<Proc>, qs: seq<Proc>)
    requires Parented(ps) && SameButTty(ps, qs)
    ensures Parented(qs)
  {
    forall i | 0 <= i < |qs| && qs[i].used && qs[i].ppid != 0
      ensures HasLive(qs, qs[i].ppid)
    {
      assert HasLive(ps, ps[i].ppid);
      var j :| 0 <= j < |ps| && Live(ps[j]) && ps[j].pid == ps[i].ppid;
      LiveCarries(ps, qs, ps[i].ppid, j);
    }
  }

  /** Whoever was alive still is, under the same number. */
  lemma LiveKept(ps: seq<Proc>, qs: seq<Proc>, pid: nat)
    requires |ps| == |qs| && forall i :: 0 <= i < |ps| && Live(ps[i]) ==> Live(qs[i]) && qs[i].pid == ps[i].pid
    requires HasLive(ps, pid)
    ensures HasLive(qs, pid)
  {
    var i :| 0 <= i < |ps| && Live(ps[i]) && ps[i].pid == pid;
    LiveCarries(ps, qs, pid, i);
  }

  /** A slot changes while everyone alive stays alive. */
  lemma SlotParented(ps: seq<Proc>, i: nat, q: Proc)
    requires Parented(ps) && i < |ps| && (Live(ps[i]) ==> Live(q) && q.pid == ps[i].pid)
    requires q.used && q.ppid != 0 ==> HasLive(ps, q.ppid)
    requires (Ended(q) ==> q.ppid != 0) && (Making(q) ==> q.ppid == 0) && (Live(q) ==> q.task != -1)
    requires q.blank ==> q.(ctty := None) == Reserved(q.pid)
    ensures Parented(ps[i := q])
  {
    var qs := ps[i := q];
    forall j | 0 <= j < |qs| && qs[j].used && qs[j].ppid != 0
      ensures HasLive(qs, qs[j].ppid)
    {
      assert j != i ==> HasLive(ps, ps[j].ppid);
      LiveKept(ps, qs, qs[j].ppid);
    }
  }

  /** setpgid: into its own group, or into one of its session. */
  lemma GroupSet(ps: seq<Proc>, t: nat, pgid: int, last: nat)
    requires Lawful(ps, last) && t < |ps| && Live(ps[t]) && ps[t].sid != ps[t].pid
    requires pgid == ps[t].pid || exists j ::
      0 <= j < |ps| && Live(ps[j]) && ps[j].pgid == pgid && ps[j].sid == ps[t].sid
    ensures Lawful(ps[t := ps[t].(pgid := pgid)], last)
  {
    hide Parented;
    SlotStays(ps, t, ps[t].(pgid := pgid));
    FewerNumbered(ps, ps[t := ps[t].(pgid := pgid)], last);
    GroupsSet(ps, t, pgid, last);
  }

  lemma GroupsSet(ps: seq<Proc>, t: nat, pgid: int, last: nat)
    requires Groups(ps, last) && Numbered(ps, last) && t < |ps| && Live(ps[t]) && ps[t].sid != ps[t].pid
    requires pgid == ps[t].pid || exists j ::
      0 <= j < |ps| && Live(ps[j]) && ps[j].pgid == pgid && ps[j].sid == ps[t].sid
    ensures Groups(ps[t := ps[t].(pgid := pgid)], last)
  {}

  lemma SlotStays(ps: seq<Proc>, i: nat, q: Proc)
    requires Parented(ps) && i < |ps| && Live(ps[i]) && Live(q) && q.pid == ps[i].pid && q.ppid == ps[i].ppid
    requires q.task == ps[i].task && q.blank == ps[i].blank
    ensures Parented(ps[i := q])
  {
    assert ps[i].ppid != 0 ==> HasLive(ps, ps[i].ppid);
    SlotParented(ps, i, q);
  }

  /** What a process does about its children's ends is its own affair. */
  lemma DispositionSet(ps: seq<Proc>, p: nat, ignores: bool, last: nat)
    requires Lawful(ps, last) && p < |ps| && Live(ps[p])
    ensures Lawful(ps[p := ps[p].(ignoresChild := ignores)], last)
  {
    hide Parented;
    hide Groups;
    var qs := ps[p := ps[p].(ignoresChild := ignores)];
    SlotStays(ps, p, qs[p]);
    FewerGroups(ps, qs, last);
    FewerNumbered(ps, qs, last);
    FewerUnborn(ps, qs);
  }

  /** setsid: a process no group is named after leads a session and a group of its own. */
  lemma SessionSet(ps: seq<Proc>, p: nat, last: nat)
    requires Lawful(ps, last) && p < |ps| && Live(ps[p])
    requires forall i :: 0 <= i < |ps| && Live(ps[i]) ==> ps[i].pgid != ps[p].pid
    ensures Lawful(ps[p := ps[p].(pgid := ps[p].pid, sid := ps[p].pid)], last)
  {
    hide Parented;
    SlotStays(ps, p, ps[p].(pgid := ps[p].pid, sid := ps[p].pid));
    FewerNumbered(ps, ps[p := ps[p].(pgid := ps[p].pid, sid := ps[p].pid)], last);
    SessionGroups(ps, p, last);
    hide Groups;
    hide Unborn;
  }

  lemma SessionGroups(ps: seq<Proc>, p: nat, last: nat)
    requires Groups(ps, last) && Unborn(ps) && Numbered(ps, last) && p < |ps| && Live(ps[p])
    requires forall i :: 0 <= i < |ps| && Live(ps[i]) ==> ps[i].pgid != ps[p].pid
    ensures Groups(ps[p := ps[p].(pgid := ps[p].pid, sid := ps[p].pid)], last)
    ensures Unborn(ps[p := ps[p].(pgid := ps[p].pid, sid := ps[p].pid)])
  {}

  /** A free slot becomes a half-made process, or a program started on its own. */
  lemma SlotTaken(ps: seq<Proc>, c: nat, q: Proc, last: nat)
    requires Lawful(ps, last) && c < |ps| && !ps[c].used && q.pid == last + 1 && q.ppid == 0
    requires if q.used then !q.blank && (q.zombie <==> q.task == -1) else q == Reserved(last + 1)
    requires !q.zombie ==> q.pgid == q.pid && q.sid == q.pid
    ensures Lawful(ps[c := q], last + 1)
  {
    TakenNumbered(ps, c, q, last);
    TakenUnborn(ps, c, q, last);
    TakenGroups(ps, c, q, last);
    hide Groups;
    hide Unborn;
    SlotParented(ps, c, q);
  }

  lemma TakenNumbered(ps: seq<Proc>, c: nat, q: Proc, last: nat)
    requires Numbered(ps, last) && c < |ps| && q.pid == last + 1 && q.ppid == 0
    ensures Numbered(ps[c := q], last + 1)
  {}

  lemma TakenUnborn(ps: seq<Proc>, c: nat, q: Proc, last: nat)
    requires Groups(ps, last) && Unborn(ps) && Numbered(ps, last) && c < |ps| && q.pid == last + 1
    requires Live(q) ==> q.pgid == q.pid && q.sid == q.pid
    ensures Unborn(ps[c := q])
  {}

  lemma TakenGroups(ps: seq<Proc>, c: nat, q: Proc, last: nat)
    requires Groups(ps, last) && Numbered(ps, last) && c < |ps| && !Live(ps[c]) && q.pid == last + 1
    requires !q.zombie ==> q.pgid == q.pid && q.sid == q.pid
    ensures Groups(ps[c := q], last + 1)
  {}

  /** A program's slot, still as prepare left it, is marked used. */
  lemma StartMade(ps: seq<Proc>, c: nat, task: int, last: nat)
    requires Lawful(ps, last) && c < |ps| && Cleared(ps[c]) && task != -1
    ensures Lawful(ps[c := Begun(ps[c].pid, task)], last)
  {
    var q := Begun(ps[c].pid, task);
    SlotParented(ps, c, q);
    hide Parented;
    FewerNumbered(ps, ps[c := q], last);
    StartGroups(ps, c, q, last);
  }

  lemma StartGroups(ps: seq<Proc>, c: nat, q: Proc, last: nat)
    requires Groups(ps, last) && Unborn(ps) && Numbered(ps, last) && c < |ps| && Cleared(ps[c])
    requires q.used && q.pid == ps[c].pid && q.pgid == q.pid && q.sid == q.pid
    requires !q.zombie && q.task != -1
    ensures Groups(ps[c := q], last) && Unborn(ps[c := q])
  {}

  /** A half-made process comes alive as p's child, in p's group and session. */
  lemma ChildMade(ps: seq<Proc>, c: nat, q: Proc, p: nat, last: nat)
    requires Lawful(ps, last) && c < |ps| && p < |ps| && Making(ps[c]) && Live(ps[p]) && ps[p].pid < ps[c].pid
    requires Live(q) && q.pid == ps[c].pid && q.ppid == ps[p].pid && q.pgid == ps[p].pgid && q.sid == ps[p].sid
    requires q.task != -1 && !q.blank
    ensures Lawful(ps[c := q], last)
  {
    assert HasLive(ps, ps[p].pid);
    SlotParented(ps, c, q);
    hide Parented;
    ChildGroups(ps, c, q, p, last);
  }

  lemma ChildGroups(ps: seq<Proc>, c: nat, q: Proc, p: nat, last: nat)
    requires Groups(ps, last) && Unborn(ps) && Numbered(ps, last) && c < |ps| && p < |ps| && Making(ps[c])
      && Live(ps[p])
    requires Live(q) && q.pid == ps[c].pid && q.pgid == ps[p].pgid && q.sid == ps[p].sid
    ensures Groups(ps[c := q], last) && Unborn(ps[c := q])
  {}

  /** A slot nobody lives in is freed. */
  lemma SlotFreed(ps: seq<Proc>, c: nat, q: Proc, last: nat)
    requires Lawful(ps, last) && c < |ps| && !Live(ps[c]) && !q.used && !q.blank && q.pid == ps[c].pid
    ensures Lawful(ps[c := q], last)
  {
    hide Groups;
    FewerGroups(ps, ps[c := q], last);
    FewerNumbered(ps, ps[c := q], last);
    FewerUnborn(ps, ps[c := q]);
    SlotParented(ps, c, q);
  }

  /** A child whose parent is ending is nobody's. */
  lemma ParentLost(ps: seq<Proc>, i: nat, last: nat)
    requires Lawful(ps, last) && i < |ps| && Live(ps[i])
    ensures Lawful(ps[i := ps[i].(ppid := 0)], last)
  {
    hide Groups;
    FewerGroups(ps, ps[i := ps[i].(ppid := 0)], last);
    FewerNumbered(ps, ps[i := ps[i].(ppid := 0)], last);
    FewerUnborn(ps, ps[i := ps[i].(ppid := 0)]);
    SlotParented(ps, i, ps[i].(ppid := 0));
  }

  /** What becomes of a process when the one numbered pid ends. */
  function Orphan(c: Proc, pid: nat): Proc {
    if !c.used || c.ppid != pid then c
    else if c.zombie then c.(used := false, zombie := false)
    else c.(ppid := 0)
  }

  /** Terminals lost before and after the children of p become nobody's. */
  lemma Orphaned(p0: seq<Proc>, p1: seq<Proc>, p2: seq<Proc>, p3: seq<Proc>, p: nat)
    requires TtyLost(p0, p1) && TtyLost(p2, p3) && |p1| == |p2| && p < |p0| && p2[p] == p1[p]
    requires forall i :: 0 <= i < |p1| && i != p ==> p2[i] == Orphan(p1[i], p1[p].pid)
    requires p0[p].sid == p0[p].pid ==> forall i :: 0 <= i < |p1| && p1[i].sid == p0[p].pid ==> p1[i].ctty == None
    ensures p3[p].(ctty := None) == p0[p].(ctty := None)
    ensures forall i :: 0 <= i < |p3| && i != p ==> p3[i].(ctty := None) == Orphan(p0[i], p0[p].pid).(ctty := None)
    ensures p0[p].sid == p0[p].pid ==> forall i :: 0 <= i < |p3| && p3[i].sid == p0[p].pid ==> p3[i].ctty == None
  {
    var pid := p0[p].pid;
    forall i | 0 <= i < |p3| && i != p
      ensures p3[i].(ctty := None) == Orphan(p0[i], pid).(ctty := None)
      ensures p3[i].sid == p0[i].sid && (p1[i].ctty == None ==> p3[i].ctty == None) && p1[i].sid == p0[i].sid
    {
      OneOrphaned(p0[i], p1[i], p2[i], p3[i], pid);
    }
    hide Orphan;
  }

  lemma OneOrphaned(a: Proc, b: Proc, c: Proc, d: Proc, pid: nat)
    requires (b == a || b == a.(ctty := None)) && c == Orphan(b, pid) && (d == c || d == c.(ctty := None))
    ensures d.(ctty := None) == Orphan(a, pid).(ctty := None)
    ensures d.sid == a.sid && b.sid == a.sid && (b.ctty == None ==> d.ctty == None)
  {}

  /** No one names p as its parent. */
  predicate Childless(ps: seq<Proc>, p: nat)
    requires p < |ps|
  {
    forall i :: 0 <= i < |ps| && ps[i].used ==> ps[i].ppid != ps[p].pid
  }

  /** A process without children ends: freed, or kept for a live parent. */
  lemma ProcessEnds(ps: seq<Proc>, p: nat, q: Proc, last: nat)
    requires Lawful(ps, last) && p < |ps| && Live(ps[p]) && Childless(ps, p)
    requires !q.blank && q.pid == ps[p].pid && (q.used ==> Ended(q) && q.ppid == ps[p].ppid != 0)
    ensures Lawful(ps[p := q], last)
  {
    hide Groups;
    hide Parented;
    FewerGroups(ps, ps[p := q], last);
    FewerNumbered(ps, ps[p := q], last);
    FewerUnborn(ps, ps[p := q]);
    EndParented(ps, p, q);
  }

  lemma EndParented(ps: seq<Proc>, p: nat, q: Proc)
    requires Parented(ps) && p < |ps| && Live(ps[p]) && Childless(ps, p)
    requires !q.blank && (q.used ==> Ended(q) && q.pid == ps[p].pid && q.ppid == ps[p].ppid != 0)
    ensures Parented(ps[p := q])
  {
    var qs := ps[p := q];
    forall j | 0 <= j < |qs| && qs[j].used && qs[j].ppid != 0
      ensures HasLive(qs, qs[j].ppid)
    {
      var k :| 0 <= k < |ps| && Live(ps[k]) && ps[k].pid == qs[j].ppid;
      LiveCarries(ps, qs, qs[j].ppid, k);
    }
  }

  // ---- exit statuses ---------------------------------------------------------------------------

  /** Every status ever kept for a parent, those a wait returned, those dropped with the parent; and the
      numbers processes have run under. */
  datatype Ledger = Ledger(kept: map<nat, int>, reaped: map<nat, int>, dropped: set<nat>, ran: set<nat>)

  ghost predicate HasEnded(ps: seq<Proc>, pid: nat) {
    exists i :: 0 <= i < |ps| && Ended(ps[i]) && ps[i].pid == pid
  }

  /** A number is used once. A free slot that is not as a start left it still holds the number of a process
      that ran, or was given up by a fork and names no group. */
  ghost predicate UsedOnce(ps: seq<Proc>, ran: set<nat>, last: nat) {
    && (forall n :: n in ran ==> n <= last)
    && (forall i :: 0 <= i < |ps| && Ran(ps[i]) ==> ps[i].pid in ran)
    && (forall i :: 0 <= i < |ps| && (Making(ps[i]) || Cleared(ps[i])) ==> ps[i].pid !in ran)
    && (forall i :: 0 <= i < |ps| && Making(ps[i]) ==> ps[i].pgid == 0)
    && (forall i :: 0 <= i < |ps| && !ps[i].used && !ps[i].blank ==> ps[i].pid in ran || ps[i].pgid == 0)
  }

  /** A kept status is in exactly one place: returned by a wait, dropped, or still in its slot. */
  ghost predicate Accounted(ps: seq<Proc>, l: Ledger, last: nat) {
    && l.reaped.Keys !! l.dropped
    && (forall k :: k in l.reaped ==> k in l.kept && l.reaped[k] == l.kept[k])
    && (forall k :: k in l.dropped ==> k in l.kept)
    && (forall k :: k in l.kept ==> k <= last)
    && (forall k :: k in l.kept && k !in l.reaped && k !in l.dropped ==> HasEnded(ps, k))
    && (forall i :: 0 <= i < |ps| && Ended(ps[i]) ==>
          ps[i].pid in l.kept && l.kept[ps[i].pid] == ps[i].status && ps[i].pid !in l.reaped && ps[i].pid !in l.dropped)
    && (forall i :: 0 <= i < |ps| && HasNumber(ps[i]) && !Ended(ps[i]) ==> ps[i].pid !in l.kept)
    && UsedOnce(ps, l.ran, last)
  }

  lemma EndedKept(ps: seq<Proc>, qs: seq<Proc>, pid: nat)
    requires |ps| == |qs| && HasEnded(ps, pid)
    requires forall i :: 0 <= i < |ps| && Ended(ps[i]) && ps[i].pid == pid ==> Ended(qs[i]) && qs[i].pid == pid
    ensures HasEnded(qs, pid)
  {
    var i :| 0 <= i < |ps| && Ended(ps[i]) && ps[i].pid == pid;
    assert Ended(qs[i]);
  }

  /** What may become of a slot without a process beginning in it. */
  ghost predicate Ages(p: Proc, q: Proc, last: nat) {
    || (q.pid == p.pid && Ran(p) && (Ran(q) || (!q.used && !q.blank)))
    || (q.pid == p.pid && q.pgid == p.pgid && Making(p) && (Making(q) || (!q.used && !q.blank)))
    || (q.pid == p.pid && q.pgid == p.pgid && !p.used && !q.used && q.blank == p.blank)
    || (q.pid > last && ((Making(q) && q.pgid == 0) || Cleared(q)))
  }

  ghost predicate AllAge(ps: seq<Proc>, qs: seq<Proc>, last: nat) {
    |ps| == |qs| && forall i :: 0 <= i < |ps| ==> Ages(ps[i], qs[i], last)
  }

  lemma AgesOnce(ps: seq<Proc>, qs: seq<Proc>, ran: set<nat>, last: nat, last': nat)
    requires UsedOnce(ps, ran, last) && AllAge(ps, qs, last) && last <= last'
    ensures UsedOnce(qs, ran, last')
  {
    forall i | 0 <= i < |qs|
      ensures Ran(qs[i]) ==> qs[i].pid in ran
      ensures (Making(qs[i]) || Cleared(qs[i])) ==> qs[i].pid !in ran
      ensures Making(qs[i]) ==> qs[i].pgid == 0
      ensures !qs[i].used && !qs[i].blank ==> qs[i].pid in ran || qs[i].pgid == 0
    {
      assert Ages(ps[i], qs[i], last);
    }
  }

  /** A process begins to run in a slot made or cleared for it, under that slot's number. */
  lemma Begins(ps: seq<Proc>, c: nat, q: Proc, l: Ledger, last: nat)
    requires Accounted(ps, l, last) && Numbered(ps, last) && c < |ps| && (Making(ps[c]) || Cleared(ps[c]))
    requires q.pid == ps[c].pid && Live(q)
    ensures Accounted(ps[c := q], l.(ran := l.ran + {q.pid}), last)
  {
    var qs := ps[c := q];
    forall k | k in l.kept && k !in l.reaped && k !in l.dropped
      ensures HasEnded(qs, k)
    {
      EndedKept(ps, qs, k);
    }
  }

  /** Nothing about ended processes changes. */
  lemma SameAccounts(ps: seq<Proc>, qs: seq<Proc>, l: Ledger, last: nat, last': nat)
    requires Accounted(ps, l, last) && |ps| == |qs| && last <= last'
    requires forall i :: 0 <= i < |ps| ==> (Ended(ps[i]) <==> Ended(qs[i]))
    requires forall i :: 0 <= i < |ps| && Ended(ps[i]) ==> qs[i].pid == ps[i].pid && qs[i].status == ps[i].status
    requires forall i ::
      0 <= i < |qs| && HasNumber(qs[i]) && !Ended(qs[i]) ==>
      qs[i].pid > last || (HasNumber(ps[i]) && qs[i].pid == ps[i].pid)
    requires AllAge(ps, qs, last)
    ensures Accounted(qs, l, last')
  {
    AgesOnce(ps, qs, l.ran, last, last');
    hide UsedOnce;
    hide AllAge;
    forall k | k in l.kept && k !in l.reaped && k !in l.dropped
      ensures HasEnded(qs, k)
    {
      EndedKept(ps, qs, k);
    }
  }

  /** A process ends and its status is kept. */
  lemma StatusKept(ps: seq<Proc>, p: nat, q: Proc, l: Ledger, last: nat)
    requires Accounted(ps, l, last) && Numbered(ps, last) && p < |ps| && Live(ps[p]) && Ended(q) && q.pid == ps[p].pid
    requires !ps[p].blank
    ensures Accounted(ps[p := q], l.(kept := l.kept[q.pid := q.status]), last)
  {
    var qs := ps[p := q];
    assert Ended(qs[p]);
    forall k | k in l.kept && k !in l.reaped && k !in l.dropped
      ensures HasEnded(qs, k)
    {
      EndedKept(ps, qs, k);
    }
  }

  /** An ended process's slot is freed: its status was returned, or dropped. */
  lemma StatusLeaves(ps: seq<Proc>, c: nat, q: Proc, l: Ledger, l': Ledger, last: nat)
    requires Accounted(ps, l, last) && Numbered(ps, last) && c < |ps| && Ended(ps[c]) && !q.used && !q.blank
      && q.pid == ps[c].pid
    requires l'.kept == l.kept && l'.ran == l.ran
    requires || (l'.reaped == l.reaped[ps[c].pid := ps[c].status] && l'.dropped == l.dropped)
             || (l'.reaped == l.reaped && l'.dropped == l.dropped + {ps[c].pid})
    ensures Accounted(ps[c := q], l', last)
  {
    var qs := ps[c := q];
    forall k | k in l'.kept && k !in l'.reaped && k !in l'.dropped
      ensures HasEnded(qs, k)
    {
      assert k != ps[c].pid;
      EndedKept(ps, qs, k);
    }
  }
}
