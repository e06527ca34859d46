/** The process table, descriptor tables and terminals, one method per system call (kernel/app.c).
    The kernel is cooperative on one core: a call runs to its end, or to where it sleeps, before
    another starts. */
module SystemCalls {
  import opened Processes
  import opened Terminals
  import opened Descriptors

  const APP_MAX: nat := 96
  const APP_FDS: nat := 256
  const TASK_MAX: nat := 256
  const HELD_MAX: nat := 4
  const ANY: int := -1

  const SIGKILL: int := 9
  const SIGCHLD: int := 17
  const SIGSTOP: int := 19
  const SIG_IGNORE: int := 1

  const EPERM: int := -1
  const ESRCH: int := -3
  const EBADF: int := -9
  const ECHILD: int := -10
  const EAGAIN: int := -11
  const ENOMEM: int := -12
  const EINVAL: int := -22
  const EMFILE: int := -24
  const ENOTTY: int := -25

  /** Descriptor tables have their fixed sizes and hold descriptions or nothing. */
  ghost predicate Shaped(procs: seq<Proc>, fds: seq<seq<int>>, cloexec: seq<seq<bool>>, held: seq<seq<int>>) {
    && |procs| == APP_MAX && |fds| == APP_MAX && |cloexec| == APP_MAX && |held| == TASK_MAX
    && (forall i :: 0 <= i < APP_MAX ==> |fds[i]| == APP_FDS && |cloexec[i]| == APP_FDS)
    && (forall i, k :: 0 <= i < APP_MAX && 0 <= k < |fds[i]| ==> fds[i][k] >= NULL)
    && (forall t, k :: 0 <= t < TASK_MAX && 0 <= k < |held[t]| ==> held[t][k] >= 0)
    && (forall t :: 0 <= t < TASK_MAX ==> |held[t]| <= HELD_MAX)
  }

  ghost predicate EmptyRow(row: seq<int>) {
    forall k :: 0 <= k < |row| ==> row[k] == NULL
  }

  /** r is the lowest free descriptor from min on. */
  predicate Lowest(row: seq<int>, min: int, r: int) {
    0 <= r < |row| && min <= r && row[r] == NULL && forall k :: 0 <= k < r && min <= k ==> row[k] != NULL
  }

  /** No descriptor from min on is free. */
  predicate Full(row: seq<int>, min: int) {
    forall k :: 0 <= k < |row| && min <= k ==> row[k] != NULL
  }

  /** At most one descriptor is free. */
  predicate NotTwo(row: seq<int>) {
    forall j, k :: 0 <= j < k < |row| ==> row[j] != NULL || row[k] != NULL
  }

  /** The two lowest free descriptors of p are open, each on a description of its own. */
  predicate Paired(was: seq<seq<int>>, now: seq<seq<int>>, p: nat, x: int, y: int) {
    && p < |was| && p < |now| && Lowest(was[p], 0, x) && Lowest(was[p], x + 1, y) && |now[p]| == |was[p]|
    && now[p][x] != NULL && now[p][y] != NULL && now[p][x] != now[p][y]
    && now == was[p := was[p][x := now[p][x]][y := now[p][y]]]
  }

  lemma FullNotTwo(row: seq<int>)
    requires Full(row, 0)
    ensures NotTwo(row)
  {}

  lemma OneLeft(row: seq<int>, x: nat, a: nat)
    requires x < |row| && Full(row[x := a], 0)
    ensures NotTwo(row)
  {
    forall j, k | 0 <= j < k < |row|
      ensures row[j] != NULL || row[k] != NULL
    {
      assert j != x ==> row[x := a][j] == row[j];
      assert k != x ==> row[x := a][k] == row[k];
    }
  }

  lemma NextLowest(row: seq<int>, x: nat, a: nat, y: int)
    requires Lowest(row, 0, x) && Lowest(row[x := a], 0, y)
    ensures Lowest(row, x + 1, y)
  {
    assert row[x := a][y] != a;
    forall k | 0 <= k < y && x + 1 <= k
      ensures row[k] != NULL
    {
      assert row[x := a][k] == row[k];
    }
  }

  /** Two descriptions with one reference each go, in either order. */
  lemma LetBothGo(files: map<nat, File>, a: nat, b: nat)
    requires a in files && b in files && files[a].refs == 1 && files[b].refs == 1 && a != b
    ensures a in AfterPut(files, b) && AfterPut(files, b)[a] == files[a]
      && AfterPut(AfterPut(files, b), a) == files - {a, b}
    ensures b in AfterPut(files, a) && AfterPut(files, a)[b] == files[b]
      && AfterPut(AfterPut(files, a), b) == files - {a, b}
  {}

  lemma EntryTaken(fs: seq<seq<int>>, p: nat, x: nat, a: int)
    requires p < |fs| && x < |fs[p]| && fs[p][x] == NULL
    ensures var now := fs[p := fs[p][x := a]]; now[p := now[p][x := NULL]] == fs
  {
    assert fs[p][x := a][x := NULL] == fs[p];
  }

  lemma EntriesSet(fs: seq<seq<int>>, p: nat, x: nat, a: int, y: nat, b: int)
    requires p < |fs| && x < |fs[p]| && y < |fs[p]|
    ensures var now := fs[p := fs[p][x := a]]; now[p := now[p][y := b]] == fs[p := fs[p][x := a][y := b]]
  {}

  lemma PairedBy(was: seq<seq<int>>, now: seq<seq<int>>, p: nat, x: int, y: int, a: nat, b: nat)
    requires p < |was| && Lowest(was[p], 0, x) && Lowest(was[p], x + 1, y) && a != b
    requires now == was[p := was[p][x := a][y := b]]
    ensures Paired(was, now, p, x, y)
  {
    assert now[p][x] == a && now[p][y] == b;
  }

  lemma PairFrame(was: seq<seq<int>>, now: seq<seq<int>>, p: nat, r: int, x: int, y: int)
    requires if r == 0 then Paired(was, now, p, x, y) else was == now
    ensures |was| == |now| && forall i :: 0 <= i < |now| && i != p ==> now[i] == was[i]
  {}

  /** Descriptor r of p is open on a description of its own, a slave end of t. */
  predicate OnSlave(was: seq<seq<int>>, now: seq<seq<int>>, files: map<nat, File>, p: nat, r: int, t: nat) {
    && p < |was| && p < |now| && 0 <= r < |was[p]| && r < |now[p]| && now[p][r] >= 0
    && now == was[p := was[p][r := now[p][r]]] && (var f: nat := now[p][r]; f in files && files[f] == File(Slave(t), 1))
  }

  lemma OnSlaveBy(was: seq<seq<int>>, now: seq<seq<int>>, files: map<nat, File>, p: nat, r: int, f: nat, t: nat)
    requires p < |was| && Lowest(was[p], 0, r) && now == was[p := was[p][r := f]] && f in files
      && files[f] == File(Slave(t), 1)
    ensures OnSlave(was, now, files, p, r, t) && r >= 0
  {}

  lemma SlaveFrame(was: seq<seq<int>>, now: seq<seq<int>>, files: map<nat, File>, p: nat, r: int, t: nat)
    requires if r < 0 then now == was else OnSlave(was, now, files, p, r, t)
    ensures |now| == |was| && forall i :: 0 <= i < |now| && i != p ==> now[i] == was[i]
  {}

  /** p leads a session without a terminal and t names none. */
  predicate TakesFree(p: Proc, t: Pty) {
    p.sid == p.pid && p.ctty == None && t.sid == 0
  }

  /** The descriptors of `want` that are open in a table row, in order. */
  function Opened(row: seq<int>, want: seq<int>): seq<int> {
    if |want| == 0 then []
    else
      var rest := Opened(row, want[..|want| - 1]);
      var fd := want[|want| - 1];
      if 0 <= fd < |row| && row[fd] != NULL then rest + [row[fd]] else rest
  }

  /** Only a live process has descriptors. */
  ghost predicate Shut(procs: seq<Proc>, fds: seq<seq<int>>) {
    forall i :: 0 <= i < |procs| && i < |fds| && !Live(procs[i]) ==> EmptyRow(fds[i])
  }

  ghost predicate Below(files: map<nat, File>, ptys: map<nat, Pty>, next: nat) {
    (forall f :: f in files ==> f < next) && (forall t :: t in ptys ==> t < next)
  }

  /** Taking note of a hangup changes no law. */
  lemma Told(files: map<nat, File>, procs: seq<Proc>, was: map<nat, Pty>, t: nat, next: nat)
    requires t in was && Terminals.Held(procs, was) && Named(procs, was, -1) && Ends(files, was, Plain) && Quiet(was, t)
    requires Below(files, was, next)
    ensures var ptys := was[t := was[t].(hangup := false)];
            && Terminals.Held(procs, ptys) && Named(procs, ptys, -1) && Ends(files, ptys, Plain) && Quiet(ptys, -1)
            && Below(files, ptys, next)
  {
    hide Holders;
    hide Open;
    var ptys := was[t := was[t].(hangup := false)];
    NamedSessions(procs, was, ptys, -1);
    EndsTold(files, was, t);
  }

  lemma EndsTold(files: map<nat, File>, was: map<nat, Pty>, t: nat)
    requires t in was && Ends(files, was, Plain)
    ensures Ends(files, was[t := was[t].(hangup := false)], Plain)
  {
    hide Open;
  }

  lemma HeldRenamed(procs: seq<Proc>, ts: map<nat, Pty>, t: nat, sid: int, fg: int)
    requires Terminals.Held(procs, ts) && t in ts
    ensures Terminals.Held(procs, ts[t := ts[t].(sid := sid, fg := fg)])
  {
    hide Holders;
  }

  lemma EndOpen(files: map<nat, File>, ptys: map<nat, Pty>, owed: Kind, t: nat)
    requires Ends(files, ptys, owed)
    ensures owed == Master(t) ==> t in ptys && ptys[t].masters > 0
    ensures owed == Slave(t) ==> t in ptys && ptys[t].slaves > 0
  {}

  /** One end of t closed: the counts become those of p. */
  lemma EndClosed(files: map<nat, File>, procs: seq<Proc>, ts: map<nat, Pty>, t: nat, p: Pty, owed: Kind, next: nat)
    requires Terminals.Held(procs, ts) && Named(procs, ts, -1) && Ends(files, ts, owed) && Quiet(ts, -1)
      && Below(files, ts, next)
    requires t in ts && (owed == Master(t) || owed == Slave(t))
    requires p.masters + Owed(owed, Master(t)) == ts[t].masters && p.slaves + Owed(owed, Slave(t)) == ts[t].slaves
    requires p.holds == ts[t].holds && p.sid == ts[t].sid && p.kernel == ts[t].kernel && (p.hung <==> p.masters == 0)
    ensures var ptys := Replaced(ts, t, p);
            && Terminals.Held(procs, ptys) && Named(procs, ptys, -1) && Ends(files, ptys, Plain)
            && Quiet(ptys, t) && (!p.hangup || t !in ptys ==> Quiet(ptys, -1)) && Below(files, ptys, next)
  {
    ReplacedHeld(procs, ts, t, p);
    ReplacedEnds(files, ts, t, p, owed);
    hide Ends;
    hide Terminals.Held;
    NamedSessions(procs, ts, Replaced(ts, t, p), -1);
  }

  lemma EndHung(files: map<nat, File>, ptys: map<nat, Pty>, owed: Kind, t: nat)
    requires Ends(files, ptys, owed) && Quiet(ptys, -1) && t in ptys
    ensures (ptys[t].hung <==> ptys[t].masters == 0) && !ptys[t].hangup
  {}

  /** A description taken on a terminal, or a terminal made with its first master. */
  lemma OpenedSound(files: map<nat, File>, procs: seq<Proc>, ptys: map<nat, Pty>, next: nat, f: nat, k: Kind,
      ts: map<nat, Pty>)
    requires Terminals.Held(procs, ptys) && Named(procs, ptys, -1) && Ends(files, ptys, Plain) && Quiet(ptys, -1)
    requires f !in files && !k.Plain?
    requires k.Slave? ==> k.pty in ptys && ts == ptys[k.pty := ptys[k.pty].(slaves := ptys[k.pty].slaves + 1)]
    requires k.Master? ==> k.pty !in ptys && ts == ptys[k.pty := Pty(1, 0, 0, false, false, 0, 0, 0)]
    ensures Terminals.Held(procs, ts) && Named(procs, ts, -1) && Ends(files[f := File(k, 1)], ts, Plain)
      && Quiet(ts, -1)
  {
    hide Open;
    hide Holders;
    hide HasLeader;
    if k.Master? { NobodyOpens(files, ptys, k.pty); }
    OpenedEnds(files, ptys, f, k, ts);
    OpenedHeld(procs, ptys, k, ts);
    OpenedNamed(procs, ptys, k, ts);
    hide Ends;
    hide Named;
    hide Terminals.Held;
  }

  lemma OpenedHeld(procs: seq<Proc>, ptys: map<nat, Pty>, k: Kind, ts: map<nat, Pty>)
    requires Terminals.Held(procs, ptys) && !k.Plain?
    requires k.Slave? ==> k.pty in ptys && ts == ptys[k.pty := ptys[k.pty].(slaves := ptys[k.pty].slaves + 1)]
    requires k.Master? ==> k.pty !in ptys && ts == ptys[k.pty := Pty(1, 0, 0, false, false, 0, 0, 0)]
    ensures Terminals.Held(procs, ts)
  {
    hide Holders;
    if k.Master? { NoHolders(procs, k.pty); }
  }

  lemma OpenedEnds(files: map<nat, File>, ptys: map<nat, Pty>, f: nat, k: Kind, ts: map<nat, Pty>)
    requires Ends(files, ptys, Plain) && f !in files && !k.Plain?
    requires k.Slave? ==> k.pty in ptys && ts == ptys[k.pty := ptys[k.pty].(slaves := ptys[k.pty].slaves + 1)]
    requires k.Master? ==> k.pty !in ptys && ts == ptys[k.pty := Pty(1, 0, 0, false, false, 0, 0, 0)]
    requires k.Master? ==> |Open(files, Master(k.pty))| == 0 && |Open(files, Slave(k.pty))| == 0
    ensures Ends(files[f := File(k, 1)], ts, Plain)
  {
    hide Open;
    EndsOpened(files, f, File(k, 1), ptys, ts);
  }

  lemma OpenedNamed(procs: seq<Proc>, ptys: map<nat, Pty>, k: Kind, ts: map<nat, Pty>)
    requires Terminals.Held(procs, ptys) && Named(procs, ptys, -1) && !k.Plain?
    requires k.Slave? ==> k.pty in ptys && ts == ptys[k.pty := ptys[k.pty].(slaves := ptys[k.pty].slaves + 1)]
    requires k.Master? ==> k.pty !in ptys && ts == ptys[k.pty := Pty(1, 0, 0, false, false, 0, 0, 0)]
    ensures Named(procs, ts, -1)
  {
    hide Holders;
    hide HasLeader;
  }

  /** Process p leads a session, has no terminal, and t names another session or none. */
  ghost predicate MayTake(ps: seq<Proc>, p: nat, t: Pty)
    requires p < |ps|
  {
    && Live(ps[p]) && ps[p].sid == ps[p].pid && ps[p].ctty == None && t.sid != ps[p].sid
    && forall i :: 0 <= i < |ps| && Live(ps[i]) ==> ps[i].sid > 0
  }

  /** The session t named keeps a terminal that no longer names it. */
  lemma Stolen(ps: seq<Proc>, ts: map<nat, Pty>, p: nat, t: nat, qs: seq<Proc>, ptys: map<nat, Pty>)
    requires Named(ps, ts, -1) && t in ts && ts[t].sid != 0 && p < |ps| && MayTake(ps, p, ts[t])
    requires qs == ps[p := ps[p].(ctty := Some(t))] && t in ptys && ptys[t].sid == ps[p].sid
    ensures !Named(qs, ptys, -1)
  {
    var j :| 0 <= j < |ps| && LeadsOn(ps[j], ts[t].sid, t);
    assert qs[j].ctty == Some(t) && qs[j].sid == ts[t].sid;
  }

  lemma TakenThere(ps: seq<Proc>, i: nat, t: nat, ptys: map<nat, Pty>)
    requires i < |ps| && t in ptys
    ensures t in Rebalance(ptys, ps[i := ps[i].(ctty := Some(t))])
  {
    HoldersPositive(ps[i := ps[i].(ctty := Some(t))], i, t);
  }

  /** A leader without a terminal has taken a free one. */
  lemma TakenSound(files: map<nat, File>, ps: seq<Proc>, ptys: map<nat, Pty>, next: nat, p: nat, t: nat,
      qs: seq<Proc>, mid: map<nat, Pty>, ts: map<nat, Pty>)
    requires Terminals.Held(ps, ptys) && Named(ps, ptys, -1) && Ends(files, ptys, Plain) && Quiet(ptys, -1)
      && Below(files, ptys, next)
    requires p < |ps| && Live(ps[p]) && ps[p].sid == ps[p].pid && ps[p].ctty == None && t in ptys && ptys[t].sid == 0
    requires forall i :: 0 <= i < |ps| && Live(ps[i]) ==> ps[i].sid > 0
    requires qs == ps[p := ps[p].(ctty := Some(t))] && mid == Rebalance(ptys, qs) && Terminals.Held(qs, mid)
    requires t in mid && ts == mid[t := mid[t].(sid := ps[p].sid, fg := ps[p].pgid)]
    ensures Terminals.Held(qs, ts) && Named(qs, ts, -1) && Ends(files, ts, Plain) && Quiet(ts, -1)
      && Below(files, ts, next)
  {
    hide Open;
    hide Holders;
    HeldRenamed(qs, mid, t, ps[p].sid, ps[p].pgid);
    TakeNamed(ps, p, t, ptys, ps[p].pgid);
    RebalanceEnds(ptys, qs);
    NamedSessions(qs, ptys[t := ptys[t].(sid := ps[p].sid, fg := ps[p].pgid)], ts, -1);
    EndsKept(files, ptys, ts);
    QuietKept(files, ptys, ts, next);
  }

  lemma SameTtyHeld(ps: seq<Proc>, i: nat, q: Proc, ptys: map<nat, Pty>)
    requires Terminals.Held(ps, ptys) && i < |ps| && q.ctty == ps[i].ctty && (Live(ps[i]) ==> Live(q))
    ensures Terminals.Held(ps[i := q], ptys)
  {
    hide Holders;
    forall t: nat
      ensures Holders(ps[i := q], t) == Holders(ps, t)
    {
      SameHolders(ps, ps[i := q], t);
    }
  }

  lemma Unlisted(row: seq<int>, i: nat, less: seq<int>)
    requires i < |row| && less == row[i := row[|row| - 1]][..|row| - 1] && forall k :: 0 <= k < |row| ==> row[k] >= 0
    ensures |less| == |row| - 1 && forall k :: 0 <= k < |less| ==> less[k] >= 0
    ensures multiset(less) + multiset{row[i]} == multiset(row) && multiset(less) == multiset(row) - multiset{row[i]}
  {
    var n := |row| - 1;
    var swapped := row[i := row[n]][n := row[i]];
    assert swapped == less + [row[i]];
    assert multiset(swapped) == multiset(row);
  }

  /** What a task that took these references one after the other has noted, and what it has not. */
  function Listed(taken: seq<int>): seq<int> {
    if |taken| <= HELD_MAX then taken else taken[..HELD_MAX]
  }

  ghost function Lost(taken: seq<int>): multiset<int> {
    if |taken| <= HELD_MAX then multiset{} else multiset(taken[HELD_MAX..])
  }

  lemma NothingHeld()
    ensures Listed([]) == [] && Lost([]) == multiset{}
  {}

  lemma ListedStep(taken: seq<int>, f: int)
    ensures |Listed(taken)| < HELD_MAX ==>
      Listed(taken + [f]) == Listed(taken) + [f] && Lost(taken + [f]) == Lost(taken)
    ensures |Listed(taken)| >= HELD_MAX ==>
      Listed(taken + [f]) == Listed(taken) && Lost(taken + [f]) == Lost(taken) + multiset{f}
  {
    if |taken| > HELD_MAX {
      assert (taken + [f])[HELD_MAX..] == taken[HELD_MAX..] + [f];
    } else if |taken| == HELD_MAX {
      assert (taken + [f])[HELD_MAX..] == [f];
    }
  }

  lemma Leaks(loose: multiset<int>, taken: seq<int>)
    ensures loose + Lost(taken) == loose <==> |taken| <= HELD_MAX
  {
    if |taken| > HELD_MAX {
      var f := taken[HELD_MAX];
      assert f == taken[HELD_MAX..][0] && f in multiset(taken[HELD_MAX..]);
      assert (loose + Lost(taken))[f] > loose[f];
    }
  }

  lemma RowEmpty(procs: seq<Proc>, fds: seq<seq<int>>, c: nat)
    requires Shut(procs, fds) && c < |procs| && c < |fds| && !Live(procs[c])
    ensures EmptyRow(fds[c])
  {}

  lemma NothingCounted(fds: seq<seq<int>>, held: seq<seq<int>>)
    requires forall i, k :: 0 <= i < |fds| && 0 <= k < |fds[i]| ==> fds[i][k] == NULL
    requires forall i :: 0 <= i < |held| ==> held[i] == []
    ensures Counted(fds, held, multiset{}, map[])
  {
    forall x: nat
      ensures Refs(map[], x) == Mentions(fds, held, multiset{}, x)
    {
      TotalZero(fds, x);
      TotalZero(held, x);
    }
  }

  lemma NobodyThere(procs: seq<Proc>, fds: seq<seq<int>>)
    requires forall i :: 0 <= i < |procs| ==> procs[i] == Proc(false, false, 0, 0, 0, 0, 0, None, 0, false, false)
    requires forall i, k :: 0 <= i < |fds| && 0 <= k < |fds[i]| ==> fds[i][k] == NULL
    ensures Lawful(procs, 0) && Shut(procs, fds) && Accounted(procs, Ledger(map[], map[], {}, {}), 0)
    ensures Terminals.Held(procs, map[]) && Named(procs, map[], -1) && Ends(map[], map[], Plain)
  {}

  /** The reference a table entry is. */
  function Holding(v: int): multiset<int> {
    if v == NULL then multiset{} else multiset{v}
  }

  /** What three new standard descriptors are put over. */
  function Overwritten(row: seq<int>): multiset<int>
    requires |row| >= 3
  {
    Holding(row[0]) + Holding(row[1]) + Holding(row[2])
  }

  /** A reference just taken goes where another was. */
  lemma MovedIn(loose: multiset<int>, was: int, f: nat)
    ensures Moved(loose + multiset{f}, was, f) == loose + Holding(was)
  {}

  /** Every description is as before but `was`, which has one reference fewer. */
  ghost predicate OneFewer(files: map<nat, File>, after: map<nat, File>, was: int) {
    && (forall x :: x in files && x != was ==> x in after && after[x] == files[x])
    && (was in files && files[was].refs > 1 ==> was in after && after[was] == files[was].(refs := files[was].refs - 1))
  }

  /** A slave's description came, and one reference to `was` is about to go. */
  lemma ReferencedBefore(files: map<nat, File>, f: nat, was: nat, t: nat)
    requires f !in files && was in files
    ensures var now := files[f := File(Slave(t), 1)];
            was in now && (now[was].refs > 0 ==> OneFewer(files, AfterPut(now, was), was))
  {}

  lemma OverwrittenBy(was: seq<seq<int>>, c: nat, f: int, loose: multiset<int>)
    requires c < |was| && 3 <= |was[c]|
    ensures var one := was[c := was[c][0 := f]]; var two := one[c := one[c][1 := f]];
            loose + Holding(was[c][0]) + Holding(one[c][1]) + Holding(two[c][2]) == loose + Overwritten(was[c])
  {
    hide Holding;
  }

  lemma NothingOverwritten(row: seq<int>)
    requires EmptyRow(row) && |row| >= 3
    ensures Overwritten(row) == multiset{}
  {}

  /** Descriptors 0, 1 and 2 of c are one new description, everything else as it was. */
  predicate Standard(was: seq<seq<int>>, now: seq<seq<int>>, files: map<nat, File>, after: map<nat, File>, c: nat) {
    && c < |was| && |was| == |now| && 3 <= |was[c]| && |now[c]| == |was[c]| && now[c][0] >= 0
    && (var f: nat := now[c][0];
        && f !in files && after == files[f := File(Plain, 3)]
        && now == was[c := was[c][0 := f][1 := f][2 := f]])
  }

  lemma StandardBy(was: seq<seq<int>>, files: map<nat, File>, c: nat, f: nat)
    requires c < |was| && 3 <= |was[c]| && f !in files
    ensures var one := was[c := was[c][0 := f]];
            var two := one[c := one[c][1 := f]];
            var now := two[c := two[c][2 := f]];
            var g := File(Plain, 1); var file := files[f := g][f := g.(refs := 2)][f := g.(refs := 3)];
            Standard(was, now, files, file, c)
  {
    var one := was[c := was[c][0 := f]];
    var two := one[c := one[c][1 := f]];
    var now := two[c := two[c][2 := f]];
    assert now == was[c := was[c][0 := f][1 := f][2 := f]];
    assert now[c][0] == f;
  }

  lemma StandardEntries(was: seq<seq<int>>, now: seq<seq<int>>, files: map<nat, File>, after: map<nat, File>, c: nat)
    requires Standard(was, now, files, after, c)
    ensures now[c][0] == now[c][1] == now[c][2] && now[c][0] >= 0
      && (var f: nat := now[c][0]; f in after && after[f] == File(Plain, 3))
    ensures forall k :: 3 <= k < |now[c]| ==> now[c][k] == was[c][k]
    ensures forall i :: 0 <= i < |now| && i != c ==> now[i] == was[i]
  {}

  /** A process began in a free slot, under a number no process had before. */
  predicate StartsAnew(was: Proc, now: Proc, ran: set<nat>, task: nat, tty: Option<nat>) {
    !was.used && now.pid !in ran && now == Begun(now.pid, task).(ctty := tty)
  }

  /** Three entries of row c were put over and the whole row then closed. */
  lemma Emptied(ps: seq<Proc>, fs: seq<seq<int>>, mid: seq<seq<int>>, fds: seq<seq<int>>, c: nat)
    requires Shut(ps, fs) && c < |ps| && c < |fs| && |fs| == |fds| == |mid| && |fs[c]| == |fds[c]| && |fs[c]| >= 3
    requires EmptyRow(fds[c]) && forall i :: 0 <= i < |fs| && i != c ==> mid[i] == fs[i] && fds[i] == mid[i]
    ensures Shut(ps, fds) && (!Live(ps[c]) ==> EmptyRow(fs[c]))
    ensures EmptyRow(fs[c]) ==> Overwritten(fs[c]) == multiset{} && fds == fs
    ensures fds == fs ==> EmptyRow(fs[c])
  {
    if EmptyRow(fs[c]) { assert fds[c] == fs[c]; }
  }

  /** One slot came alive and only its descriptors changed. */
  lemma ShutBut(ps: seq<Proc>, fs: seq<seq<int>>, procs: seq<Proc>, fds: seq<seq<int>>, after: map<nat, File>,
      files: map<nat, File>, c: nat)
    requires Shut(ps, fs) && c < |ps| == |procs| && procs == ps[c := procs[c]] && Live(procs[c])
      && Standard(fs, fds, files, after, c)
    ensures Shut(procs, fds)
  {}

  lemma PairGone(files: map<nat, File>, a: nat, b: nat)
    requires a !in files && b !in files
    ensures files[a := File(Plain, 1)][b := File(Plain, 1)] - {a, b} == files
  {}

  lemma QuietKept(files: map<nat, File>, a: map<nat, Pty>, b: map<nat, Pty>, next: nat)
    requires Quiet(a, -1) && SameEnds(a, b) && Below(files, a, next)
    ensures Quiet(b, -1) && Below(files, b, next)
  {}

  /** The kernel's own reference to a master is the one about to go. */
  lemma KernelOwes(files: map<nat, File>, procs: seq<Proc>, ts: map<nat, Pty>, t: nat, next: nat)
    requires Terminals.Held(procs, ts) && Named(procs, ts, -1) && Ends(files, ts, Plain) && Quiet(ts, -1)
      && Below(files, ts, next)
    requires t in ts && ts[t].kernel > 0
    ensures var ptys := ts[t := ts[t].(kernel := ts[t].kernel - 1)];
            && Terminals.Held(procs, ptys) && Named(procs, ptys, -1) && Ends(files, ptys, Master(t)) && Quiet(ptys, -1)
            && Below(files, ptys, next)
  {
    var ptys := ts[t := ts[t].(kernel := ts[t].kernel - 1)];
    KernelHeld(procs, ts, t);
    KernelEnds(files, ts, t);
    hide Terminals.Held;
    hide Ends;
    NamedSessions(procs, ts, ptys, -1);
    hide Named;
  }

  lemma KernelHeld(procs: seq<Proc>, ts: map<nat, Pty>, t: nat)
    requires Terminals.Held(procs, ts) && t in ts && ts[t].kernel > 0
    ensures Terminals.Held(procs, ts[t := ts[t].(kernel := ts[t].kernel - 1)])
  {
    hide Holders;
  }

  lemma KernelEnds(files: map<nat, File>, ts: map<nat, Pty>, t: nat)
    requires Ends(files, ts, Plain) && t in ts && ts[t].kernel > 0
    ensures Ends(files, ts[t := ts[t].(kernel := ts[t].kernel - 1)], Master(t))
  {
    hide Open;
  }

  /** A terminal whose master only the kernel holds. */
  lemma ConsoleSound(files: map<nat, File>, procs: seq<Proc>, ptys: map<nat, Pty>, t: nat)
    requires Terminals.Held(procs, ptys) && Named(procs, ptys, -1) && Ends(files, ptys, Plain) && Quiet(ptys, -1)
    requires t !in ptys
    ensures var ts := ptys[t := Pty(1, 0, 0, false, false, 0, 0, 1)];
            Terminals.Held(procs, ts) && Named(procs, ts, -1) && Ends(files, ts, Plain) && Quiet(ts, -1)
  {
    NobodyOpens(files, ptys, t);
    NoHolders(procs, t);
    hide Open;
    hide Holders;
    hide HasLeader;
  }

  class Kernel {
    var procs: seq<Proc>
    var fds: seq<seq<int>>
    var cloexec: seq<seq<bool>>
    var held: seq<seq<int>>
    var files: map<nat, File>
    var ptys: map<nat, Pty>
    var last: nat
    /** The next address the allocator gives out. */
    var next: nat
    /** References a running call has taken and not yet stored or let go. */
    ghost var loose: multiset<int>
    ghost var ledger: Ledger

    /** Descriptions, terminals and controlling terminals fit together. */
    ghost predicate Sound()
      reads this`procs, this`fds, this`held, this`files, this`ptys, this`next, this`loose
    {
      && Terminals.Held(procs, ptys) && Named(procs, ptys, -1)
      && Counted(fds, held, loose, files)
      && Ends(files, ptys, Plain) && Quiet(ptys, -1)
      && Below(files, ptys, next)
    }

    ghost predicate Inv()
      reads this
    {
      && Shaped(procs, fds, cloexec, held)
      && Sound()
      && Lawful(procs, last) && Shut(procs, fds) && Accounted(procs, ledger, last)
    }

    /** Nothing but controlling terminals changed in the process table, and only live process p's descriptors. */
    lemma Framed(ps: seq<Proc>, fs: seq<seq<int>>, p: nat)
      requires Lawful(ps, last) && Shut(ps, fs) && Accounted(ps, ledger, last) && SameButTty(ps, procs)
      requires p < |ps| && Live(ps[p]) && |fs| == |fds| && forall i :: 0 <= i < |fds| && i != p ==> fds[i] == fs[i]
      ensures Lawful(procs, last) && Shut(procs, fds) && Accounted(procs, ledger, last)
    {
      hide Lawful;
      TtyLawful(ps, procs, last);
      SameAccounts(ps, procs, ledger, last, last);
    }

    lemma Sizes()
      requires Inv()
      ensures |procs| == APP_MAX && |held| == TASK_MAX
    {}

    lemma EmptyRows()
      requires Inv()
      ensures |procs| == APP_MAX && |fds| == APP_MAX
      ensures forall i :: 0 <= i < APP_MAX && !Live(procs[i]) ==> |fds[i]| == APP_FDS && EmptyRow(fds[i])
    {
      hide Sound;
      hide Lawful;
      hide Accounted;
    }

    /** g_procs empty, nothing open, no terminal: how the kernel comes up. */
    constructor ()
      ensures Inv() && loose == multiset{} && ledger == Ledger(map[], map[], {}, {}) && last == 0
      ensures ptys == map[] && |procs| == APP_MAX && forall i :: 0 <= i < APP_MAX ==> !procs[i].used
    {
      procs := seq(APP_MAX, i => Proc(false, false, 0, 0, 0, 0, 0, None, 0, false, false));
      fds := seq(APP_MAX, i => seq(APP_FDS, j => NULL));
      cloexec := seq(APP_MAX, i => seq(APP_FDS, j => false));
      held := seq(TASK_MAX, i => []);
      files, ptys := map[], map[];
      last, next := 0, 0;
      loose, ledger := multiset{}, Ledger(map[], map[], {}, {});
      new;
      NothingCounted(fds, held);
      NobodyThere(procs, fds);
      hide Counted;
      hide Lawful;
      hide Accounted;
      hide Ends;
      hide Named;
      hide Terminals.Held;
    }

    // ---- controlling terminals ------------------------------------------------------------------

    /** pty_hold, freeing the terminal when nothing needs it any more. */
    method PtyHold(t: nat, delta: int)
      requires t in ptys && ptys[t].holds + delta >= 0
      modifies this`ptys
      ensures ptys == AfterHold(old(ptys), t, old(ptys)[t].holds + delta)
    {
      ptys := ptys[t := ptys[t].(holds := ptys[t].holds + delta)];
      MaybeFree(t);
    }

    method MaybeFree(t: nat)
      requires t in ptys
      modifies this`ptys
      ensures ptys == if Needed(old(ptys)[t]) then old(ptys) else map u | u in old(ptys) && u != t :: old(ptys)[u]
    {
      if ptys[t].masters > 0 || ptys[t].slaves > 0 || ptys[t].holds > 0 { return; }
      ptys := map u | u in ptys && u != t :: ptys[u];
    }

    /** ctty_set. */
    method CttySet(i: nat, c: Option<nat>)
      requires i < |procs| && Terminals.Held(procs, ptys) && (c.Some? ==> c.value in ptys)
      modifies this`procs, this`ptys
      ensures procs == old(procs)[i := old(procs)[i].(ctty := c)] && ptys == Rebalance(old(ptys), procs)
      ensures c.Some? ==> c.value in ptys
      ensures c.None? || Live(procs[i]) ==> Terminals.Held(procs, ptys)
    {
      hide Holders;
      hide Rebalance;
      ghost var ps, ts := procs, ptys;
      if procs[i].ctty == c {
        RebalanceHeld(ptys, procs);
        assert procs == ps[i := ps[i].(ctty := c)];
        return;
      }
      CttySetRebalances(ps, i, c, ts);
      if c.None? || Live(ps[i]) { RebalanceKeeps(ts, ps[i := ps[i].(ctty := c)]); }
      if c.Some? { TakenThere(ps, i, c.value, ts); }
      if c.Some? { PtyHold(c.value, 1); }
      assert ptys == Taken(ts, c);
      var was := procs[i].ctty;
      procs := procs[i := procs[i].(ctty := c)];
      if was.Some? { PtyHold(was.value, -1); }
    }

    /** Every process t controls, those of session s or all, but not slot e, loses it. */
    method ClearTty(t: nat, s: int, e: int)
      requires Terminals.Held(procs, ptys)
      requires s == ANY || forall i :: 0 <= i < |procs| && procs[i].ctty == Some(t) ==> procs[i].sid == s
      modifies this`procs, this`ptys
      ensures procs == Without(old(procs), t, e, |old(procs)|)
      ensures ptys == Rebalance(old(ptys), procs) && Terminals.Held(procs, ptys)
    {
      hide Rebalance;
      hide Holders;
      ghost var ps, ts := procs, ptys;
      RebalanceHeld(ptys, procs);
      assert procs == Without(ps, t, e, 0);
      var i := 0;
      while i < |procs|
        invariant 0 <= i <= |procs| == |ps|
        invariant procs == Without(ps, t, e, i)
        invariant ptys == Rebalance(ts, procs) && Terminals.Held(procs, ptys)
      {
        ghost var mid := procs;
        assert mid[i] == ps[i];
        if procs[i].used && i != e && (s == ANY || procs[i].sid == s) && procs[i].ctty == Some(t) {
          CttySet(i, None);
          RebalanceNext(ts, mid, procs);
        }
        i := i + 1;
        assert procs == Without(ps, t, e, i);
      }
    }

    /** pty_dispatch, as far as the process table goes: a hangup takes the terminal from its session. */
    method Dispatch(t: nat)
      requires t in ptys && Terminals.Held(procs, ptys) && Named(procs, ptys, -1)
      requires Ends(files, ptys, Plain) && Quiet(ptys, t) && Below(files, ptys, next)
      modifies this`procs, this`ptys
      ensures Terminals.Held(procs, ptys) && Named(procs, ptys, -1) && TtyLost(old(procs), procs)
      ensures Ends(files, ptys, Plain) && Quiet(ptys, -1) && Below(files, ptys, next)
      ensures old(ptys)[t].hangup ==> forall i :: 0 <= i < |procs| ==> procs[i].ctty != Some(t)
    {
      hide Terminals.Held;
      hide Named;
      hide Ends;
      hide Quiet;
      hide Below;
      hide Rebalance;
      hide SameEnds;
      ghost var was := ptys;
      var ev := ptys[t].hangup;
      ptys := ptys[t := ptys[t].(hangup := false)];
      Told(files, procs, was, t, next);
      if ev {
        ghost var ps, ts := procs, ptys;
        ptys := ptys[t := ptys[t].(sid := 0, fg := 0)];
        HeldRenamed(procs, ts, t, 0, 0);
        ClearTty(t, ANY, -1);
        HungUp(files, ps, ts, t, procs);
        QuietKept(files, ts, ptys, next);
        assert TtyLost(ps, procs);
      }
    }

    // ---- descriptions ---------------------------------------------------------------------------

    /** kfile_new with a description that is on no terminal. */
    method NewFile() returns (f: nat)
      requires Sound()
      modifies this`files, this`next, this`loose
      ensures Sound() && f !in old(files) && files == old(files)[f := File(Plain, 1)]
      ensures loose == old(loose) + multiset{f}
    {
      hide Open;
      f := next;
      next := next + 1;
      Referenced(fds, held, loose, files, f, File(Plain, 1));
      EndsOpened(files, f, File(Plain, 1), ptys, ptys);
      files := files[f := File(Plain, 1)];
      loose := loose + multiset{f};
    }

    /** kfile_ref. */
    method Ref(f: nat)
      requires Sound() && f in files
      modifies this`files, this`loose
      ensures Sound() && loose == old(loose) + multiset{f}
      ensures files == old(files)[f := old(files)[f].(refs := old(files)[f].refs + 1)]
    {
      hide Open;
      var g := files[f].(refs := files[f].refs + 1);
      Referenced(fds, held, loose, files, f, g);
      EndsRecounted(files, f, g, ptys);
      files := files[f := g];
      loose := loose + multiset{f};
    }

    /** The last reference to a master is gone (pty_master_ref(t, -1)); whether the terminal went too. */
    method MasterGone(t: nat) returns (freed: bool)
      requires Terminals.Held(procs, ptys) && Named(procs, ptys, -1) && Ends(files, ptys, Master(t)) && Quiet(ptys, -1)
      requires Below(files, ptys, next)
      modifies this`ptys
      ensures Terminals.Held(procs, ptys) && Named(procs, ptys, -1) && Ends(files, ptys, Plain) && Quiet(ptys, t)
      ensures Below(files, ptys, next) && (freed <==> t !in ptys) && (freed ==> Quiet(ptys, -1))
      ensures t in old(ptys) && (!freed && old(ptys)[t].masters == 1 ==> ptys[t].hangup)
    {
      hide Terminals.Held;
      hide Named;
      hide Ends;
      hide Quiet;
      hide Below;
      ghost var ts := ptys;
      EndOpen(files, ts, Master(t), t);
      EndHung(files, ts, Master(t), t);
      var p := ptys[t].(masters := ptys[t].masters - 1);
      if p.masters <= 0 && !p.hung { p := p.(hung := true, hangup := true); }
      EndClosed(files, procs, ts, t, p, Master(t), next);
      ptys := ptys[t := p];
      MaybeFree(t);
      assert ptys == Replaced(ts, t, p);
      freed := t !in ptys;
    }

    /** The last reference to a slave end is gone (pty_slave_ref(t, -1)). */
    method SlaveGone(t: nat)
      requires Terminals.Held(procs, ptys) && Named(procs, ptys, -1) && Ends(files, ptys, Slave(t)) && Quiet(ptys, -1)
      requires Below(files, ptys, next)
      modifies this`ptys
      ensures Terminals.Held(procs, ptys) && Named(procs, ptys, -1) && Ends(files, ptys, Plain) && Quiet(ptys, -1)
      ensures Below(files, ptys, next)
    {
      hide Terminals.Held;
      hide Named;
      hide Ends;
      hide Quiet;
      hide Below;
      ghost var ts := ptys;
      EndOpen(files, ts, Slave(t), t);
      EndHung(files, ts, Slave(t), t);
      var p := ptys[t].(slaves := ptys[t].slaves - 1);
      EndClosed(files, procs, ts, t, p, Slave(t), next);
      ptys := ptys[t := p];
      MaybeFree(t);
      assert ptys == Replaced(ts, t, p);
    }

    /** kfile_put: one reference fewer; the last one closes what the description is for, and the last
        master of a terminal hangs it up. */
    method Put(f: nat)
      requires Sound() && loose[f] > 0
      modifies this`procs, this`files, this`ptys, this`loose
      ensures Sound() && TtyLost(old(procs), procs) && loose == old(loose) - multiset{f}
      ensures f in old(files) && files == AfterPut(old(files), f)
      ensures old(files)[f].kind == Plain ==> procs == old(procs) && ptys == old(ptys)
      ensures !old(files)[f].kind.Master? ==> procs == old(procs)
    {
      hide Terminals.Held;
      hide Named;
      hide Ends;
      hide Quiet;
      hide Counted;
      Released(fds, held, loose, files, f);
      ghost var fs := files;
      var g := files[f];
      loose := loose - multiset{f};
      if g.refs > 1 {
        EndsRecounted(files, f, g.(refs := g.refs - 1), ptys);
        files := files[f := g.(refs := g.refs - 1)];
        return;
      }
      files := map x | x in files && x != f :: files[x];
      EndsOwed(fs, f, files, ptys);
      match g.kind {
        case Plain =>
        case Master(t) =>
          var freed := MasterGone(t);
          if !freed { Dispatch(t); }
        case Slave(t) =>
          SlaveGone(t);
      }
    }

    // ---- descriptors ------------------------------------------------------------------------------

    /** Entry (p, k) of the descriptor tables becomes v, and its close-on-exec mark cx. */
    method SetEntry(p: nat, k: nat, v: int, cx: bool)
      requires Shaped(procs, fds, cloexec, held) && Sound() && p < APP_MAX && k < APP_FDS
      requires v == NULL || (v >= 0 && loose[v] > 0)
      modifies this`fds, this`cloexec, this`loose
      ensures Shaped(procs, fds, cloexec, held) && Sound()
      ensures fds == old(fds)[p := old(fds)[p][k := v]] && cloexec == old(cloexec)[p := old(cloexec)[p][k := cx]]
      ensures loose == Moved(old(loose), old(fds)[p][k], v)
    {
      hide Counted;
      hide Ends;
      hide Named;
      hide Terminals.Held;
      Entered(fds, held, loose, files, p, k, v);
      loose := Moved(loose, fds[p][k], v);
      fds := fds[p := fds[p][k := v]];
      cloexec := cloexec[p := cloexec[p][k := cx]];
    }

    /** fd_install: f at the lowest free descriptor from min on, or let go. */
    method FdInstall(p: nat, f: nat, min: int, cx: bool) returns (r: int)
      requires Shaped(procs, fds, cloexec, held) && Sound() && p < APP_MAX && loose[f] > 0
      modifies this`procs, this`fds, this`cloexec, this`files, this`ptys, this`loose
      ensures Shaped(procs, fds, cloexec, held) && Sound() && TtyLost(old(procs), procs)
      ensures loose == old(loose) - multiset{f} && f in old(files)
      ensures r == EMFILE <==> Full(old(fds)[p], min)
      ensures r != EMFILE ==> Lowest(old(fds)[p], min, r)
      ensures r == EMFILE ==> fds == old(fds) && cloexec == old(cloexec) && files == AfterPut(old(files), f)
      ensures r != EMFILE ==>
        && fds == old(fds)[p := old(fds)[p][r := f]]
        && cloexec == old(cloexec)[p := old(cloexec)[p][r := cx]]
        && files == old(files) && ptys == old(ptys) && procs == old(procs)
      ensures old(files)[f].kind == Plain ==> procs == old(procs) && ptys == old(ptys)
      ensures !old(files)[f].kind.Master? ==> procs == old(procs)
    {
      hide Counted;
      hide Ends;
      hide Named;
      hide Terminals.Held;
      Released(fds, held, loose, files, f);
      var i := if min < 0 then 0 else min;
      while i < APP_FDS
        invariant 0 <= i && min <= i
        invariant forall k :: 0 <= k < APP_FDS && min <= k < i ==> fds[p][k] != NULL
      {
        if fds[p][i] == NULL {
          SetEntry(p, i, f, cx);
          return i;
        }
        i := i + 1;
      }
      Put(f);
      r := EMFILE;
    }

    /** fd_close. */
    method FdClose(p: nat, fd: int) returns (r: int)
      requires Shaped(procs, fds, cloexec, held) && Sound() && p < APP_MAX
      modifies this`procs, this`fds, this`cloexec, this`files, this`ptys, this`loose
      ensures Shaped(procs, fds, cloexec, held) && Sound() && TtyLost(old(procs), procs) && loose == old(loose)
      ensures r == if 0 <= fd < APP_FDS && old(fds)[p][fd] != NULL then 0 else EBADF
      ensures r == EBADF ==>
        procs == old(procs) && fds == old(fds) && cloexec == old(cloexec) && files == old(files) && ptys == old(ptys)
      ensures r == 0 ==>
        && fds == old(fds)[p := old(fds)[p][fd := NULL]] && cloexec == old(cloexec)[p := old(cloexec)[p][fd := false]]
        && old(fds)[p][fd] >= 0
        && (var f: nat := old(fds)[p][fd];
            && f in old(files) && old(files)[f].refs > 0 && files == AfterPut(old(files), f)
            && (old(files)[f].kind == Plain ==> procs == old(procs) && ptys == old(ptys)))
    {
      hide Counted;
      hide Ends;
      hide Named;
      hide Terminals.Held;
      if fd < 0 || fd >= APP_FDS || fds[p][fd] == NULL {
        return EBADF;
      }
      var f := fds[p][fd];
      SetEntry(p, fd, NULL, false);
      Released(fds, held, loose, files, f);
      Put(f);
      r := 0;
    }

    /** close. */
    method CloseFd(p: nat, fd: int) returns (r: int)
      requires Inv() && p < APP_MAX && Live(procs[p])
      modifies this`procs, this`fds, this`cloexec, this`files, this`ptys, this`loose
      ensures Inv() && loose == old(loose)
      ensures r == if 0 <= fd < APP_FDS && old(fds)[p][fd] != NULL then 0 else EBADF
      ensures fds == if r == 0 then old(fds)[p := old(fds)[p][fd := NULL]] else old(fds)
    {
      hide Sound;
      hide Lawful;
      hide Accounted;
      hide Shut;
      hide AfterPut;
      r := FdClose(p, fd);
      Framed(old(procs), old(fds), p);
    }

    /** open of a plain file, folder or device: a new description at the lowest free descriptor.
        `room` says whether the allocator found memory. */
    method OpenPlain(p: nat, room: bool) returns (r: int)
      requires Inv() && p < APP_MAX && Live(procs[p])
      modifies this`procs, this`fds, this`cloexec, this`files, this`ptys, this`loose, this`next
      ensures Inv() && loose == old(loose)
      ensures if !room then r == ENOMEM else if Full(old(fds)[p], 0) then r == EMFILE else Lowest(old(fds)[p], 0, r)
      ensures r < 0 ==> fds == old(fds) && files == old(files)
      ensures r >= 0 ==>
        && fds[p][r] >= 0 && fds == old(fds)[p := old(fds)[p][r := fds[p][r]]]
        && (var f: nat := fds[p][r]; f !in old(files) && files == old(files)[f := File(Plain, 1)])
    {
      hide Sound;
      hide Lawful;
      hide Accounted;
      hide Shut;
      if !room {
        return ENOMEM;
      }
      var f := NewFile();
      r := FdInstall(p, f, 0, false);
      Framed(old(procs), old(fds), p);
    }

    /** a_fd_dup without BANANA_DUP_TO: another descriptor for f, from `to` on. */
    method DupFrom(p: nat, f: nat, to: int, cx: bool) returns (r: int)
      requires Inv() && p < APP_MAX && Live(procs[p]) && f in files
      modifies this`procs, this`fds, this`cloexec, this`files, this`ptys, this`loose
      ensures Inv() && loose == old(loose)
      ensures r == EMFILE <==> Full(old(fds)[p], to)
      ensures r != EMFILE ==> Lowest(old(fds)[p], to, r)
      ensures r == EMFILE ==> fds == old(fds) && cloexec == old(cloexec)
      ensures r != EMFILE ==>
        && old(fds)[p][r] == NULL && fds == old(fds)[p := old(fds)[p][r := f]]
        && cloexec == old(cloexec)[p := old(cloexec)[p][r := cx]]
    {
      hide Sound;
      hide Lawful;
      hide Accounted;
      hide Shut;
      Ref(f);
      r := FdInstall(p, f, to, cx);
      Framed(old(procs), old(fds), p);
    }

    /** a_fd_dup with BANANA_DUP_TO onto another descriptor: what was there is closed first. */
    method DupOnto(p: nat, f: nat, to: nat, cx: bool)
      requires Inv() && p < APP_MAX && Live(procs[p]) && f in files && to < APP_FDS
      modifies this`procs, this`fds, this`cloexec, this`files, this`ptys, this`loose
      ensures Inv() && loose == old(loose)
      ensures fds == old(fds)[p := old(fds)[p][to := f]] && cloexec == old(cloexec)[p := old(cloexec)[p][to := cx]]
    {
      hide Sound;
      hide Lawful;
      hide Accounted;
      hide Shut;
      hide AfterPut;
      Ref(f);
      var was := FdClose(p, to);
      SetEntry(p, to, f, cx);
      assert fds[p] == old(fds)[p][to := f];
      assert cloexec[p] == old(cloexec)[p][to := cx];
      Framed(old(procs), old(fds), p);
    }

    /** a_fd_dup. */
    method Dup(p: nat, fd: int, to: int, exact: bool, cx: bool) returns (r: int)
      requires Inv() && p < APP_MAX && Live(procs[p])
      modifies this`procs, this`fds, this`cloexec, this`files, this`ptys, this`loose
      ensures Inv() && loose == old(loose)
      ensures !(0 <= fd < APP_FDS) || old(fds)[p][fd] == NULL ==> r == EBADF
      ensures 0 <= fd < APP_FDS && old(fds)[p][fd] != NULL ==>
        if !(0 <= to < APP_FDS) then r == (if exact then EBADF else EINVAL)
        else if exact then r == to
        else if Full(old(fds)[p], to) then r == EMFILE
        else Lowest(old(fds)[p], to, r)
      ensures r < 0 ==> fds == old(fds)
      ensures r >= 0 ==>
        && 0 <= fd < APP_FDS && 0 <= r < APP_FDS
        && fds == old(fds)[p := old(fds)[p][r := old(fds)[p][fd]]]
        && cloexec == old(cloexec)[p := old(cloexec)[p][r := cx]]
    {
      hide Counted;
      hide Ends;
      hide Named;
      hide Terminals.Held;
      hide Lawful;
      hide Accounted;
      if fd < 0 || fd >= APP_FDS || fds[p][fd] == NULL {
        return EBADF;
      }
      var f := fds[p][fd];
      EntryIsOpen(fds, held, loose, files, p, fd);
      if to < 0 || to >= APP_FDS {
        r := if exact then EBADF else EINVAL;
      } else if !exact {
        r := DupFrom(p, f, to, cx);
      } else if to == fd {
        cloexec := cloexec[p := cloexec[p][to := cx]];
        assert fds[p][to := f] == fds[p] && fds[p := fds[p]] == fds;
        r := to;
      } else {
        DupOnto(p, f, to, cx);
        r := to;
      }
    }

    /** Both ends of a pair installed, or both let go. */
    method InstallPair(p: nat, a: nat, b: nat, cx: bool) returns (r: int, x: int, y: int)
      requires Shaped(procs, fds, cloexec, held) && Sound() && p < APP_MAX && a != b && loose[a] > 0 && loose[b] > 0
      requires a in files && b in files && files[a] == File(Plain, 1) && files[b] == File(Plain, 1)
      modifies this`procs, this`fds, this`cloexec, this`files, this`ptys, this`loose
      ensures Shaped(procs, fds, cloexec, held) && Sound() && procs == old(procs) && ptys == old(ptys)
      ensures loose == old(loose) - multiset{a} - multiset{b}
      ensures r == 0 || r == EMFILE
      ensures r == EMFILE ==> fds == old(fds) && files == old(files) - {a, b} && NotTwo(old(fds)[p])
      ensures r == 0 ==>
        && Lowest(old(fds)[p], 0, x) && Lowest(old(fds)[p], x + 1, y) && files == old(files)
        && fds == old(fds)[p := old(fds)[p][x := a][y := b]]
    {
      hide Sound;
      hide NotTwo;
      hide AfterPut;
      hide Full;
      ghost var fs, row := fds, fds[p];
      LetBothGo(files, a, b);
      x := FdInstall(p, a, 0, cx);
      if x == EMFILE {
        FullNotTwo(row);
        Put(b);
        return EMFILE, -1, -1;
      }
      y := FdInstall(p, b, 0, cx);
      if y == EMFILE {
        OneLeft(row, x, a);
        var was := FdClose(p, x);
        EntryTaken(fs, p, x, a);
        return EMFILE, -1, -1;
      }
      NextLowest(row, x, a, y);
      EntriesSet(fs, p, x, a, y, b);
      r := 0;
    }

    /** A pipe's two descriptions, installed or let go. */
    method MakePair(p: nat, cx: bool) returns (r: int, x: int, y: int)
      requires Shaped(procs, fds, cloexec, held) && Sound() && p < APP_MAX
      modifies this`procs, this`fds, this`cloexec, this`files, this`ptys, this`loose, this`next
      ensures Shaped(procs, fds, cloexec, held) && Sound() && procs == old(procs) && ptys == old(ptys)
        && loose == old(loose)
      ensures r == 0 || r == EMFILE
      ensures r == EMFILE ==> fds == old(fds) && files == old(files) && NotTwo(old(fds)[p])
      ensures r == 0 ==> Paired(old(fds), fds, p, x, y)
    {
      hide Sound;
      hide Lowest;
      hide NotTwo;
      ghost var fs, row := fds, fds[p];
      var a := NewFile();
      var b := NewFile();
      r, x, y := InstallPair(p, a, b, cx);
      PairGone(old(files), a, b);
      if r == 0 { PairedBy(fs, fds, p, x, y, a, b); }
    }

    /** pair_fds: a pipe's two ends at the two lowest free descriptors, or neither. */
    method Pipe(p: nat, cx: bool, room: bool) returns (r: int, x: int, y: int)
      requires Inv() && p < APP_MAX && Live(procs[p])
      modifies this`procs, this`fds, this`cloexec, this`files, this`ptys, this`loose, this`next
      ensures Inv() && loose == old(loose) && procs == old(procs) && ptys == old(ptys)
      ensures r < 0 ==> fds == old(fds) && files == old(files)
      ensures (r == 0 || r == EMFILE || r == ENOMEM) && (r == ENOMEM <==> !room)
      ensures r == 0 ==> Paired(old(fds), fds, p, x, y)
      ensures r == EMFILE ==> NotTwo(old(fds)[p])
    {
      hide Sound;
      hide Lawful;
      hide Accounted;
      hide Shut;
      hide NotTwo;
      if !room {
        return ENOMEM, -1, -1;
      }
      r, x, y := MakePair(p, cx);
      PairFrame(old(fds), fds, p, r, x, y);
      hide Paired;
      Framed(old(procs), old(fds), p);
    }

    // ---- terminals --------------------------------------------------------------------------------

    /** kfile_new and pty_slave_ref(t, 1): a description open on t's slave end. */
    method NewSlave(t: nat) returns (f: nat)
      requires Sound() && t in ptys
      modifies this`files, this`ptys, this`next, this`loose
      ensures Sound() && loose == old(loose) + multiset{f} && f !in old(files)
      ensures files == old(files)[f := File(Slave(t), 1)]
      ensures ptys == old(ptys)[t := old(ptys)[t].(slaves := old(ptys)[t].slaves + 1)]
    {
      hide Counted;
      hide Ends;
      hide Terminals.Held;
      hide Named;
      f := next;
      next := next + 1;
      Referenced(fds, held, loose, files, f, File(Slave(t), 1));
      ghost var ts := ptys[t := ptys[t].(slaves := ptys[t].slaves + 1)];
      OpenedSound(files, procs, ptys, next, f, Slave(t), ts);
      files := files[f := File(Slave(t), 1)];
      ptys := ptys[t := ptys[t].(slaves := ptys[t].slaves + 1)];
      loose := loose + multiset{f};
    }

    /** pty_new and its master's description. */
    method NewMaster() returns (f: nat, t: nat)
      requires Sound()
      modifies this`files, this`ptys, this`next, this`loose
      ensures Sound() && loose == old(loose) + multiset{f} && f !in old(files) && t !in old(ptys)
      ensures files == old(files)[f := File(Master(t), 1)]
      ensures ptys == old(ptys)[t := Pty(1, 0, 0, false, false, 0, 0, 0)]
    {
      hide Counted;
      hide Ends;
      hide Terminals.Held;
      hide Named;
      t := next;
      f := next + 1;
      next := next + 2;
      Referenced(fds, held, loose, files, f, File(Master(t), 1));
      ghost var ts := ptys[t := Pty(1, 0, 0, false, false, 0, 0, 0)];
      OpenedSound(files, procs, ptys, next, f, Master(t), ts);
      ptys := ptys[t := Pty(1, 0, 0, false, false, 0, 0, 0)];
      files := files[f := File(Master(t), 1)];
      loose := loose + multiset{f};
    }

    /** Process p takes t: its controlling terminal, session and foreground group. For a leader without a
        terminal this is sound exactly when t names no session. */
    method TakeTerminal(p: nat, t: nat)
      requires Sound() && p < |procs| && t in ptys
      modifies this`procs, this`ptys
      ensures procs == old(procs)[p := old(procs)[p].(ctty := Some(t))]
      ensures t in ptys && ptys[t].sid == procs[p].sid && ptys[t].fg == procs[p].pgid
      ensures MayTake(old(procs), p, old(ptys)[t]) ==> (Sound() <==> old(ptys)[t].sid == 0)
    {
      hide Counted;
      hide Ends;
      hide Named;
      hide Rebalance;
      hide Holders;
      hide Quiet;
      ghost var ps, ts := procs, ptys;
      CttySet(p, Some(t));
      ghost var mid := ptys;
      assert procs[p].ctty == Some(t);
      ptys := ptys[t := ptys[t].(sid := procs[p].sid, fg := procs[p].pgid)];
      if MayTake(ps, p, ts[t]) {
        if ts[t].sid == 0 {
          TakenSound(files, ps, ts, next, p, t, procs, mid, ptys);
        } else {
          Stolen(ps, ts, p, t, procs, ptys);
        }
      }
    }

    /** /dev/ptmx. */
    method OpenMaster(p: nat, room: bool) returns (r: int)
      requires Inv() && p < APP_MAX && Live(procs[p])
      modifies this`procs, this`fds, this`cloexec, this`files, this`ptys, this`loose, this`next
      ensures Inv() && loose == old(loose)
      ensures if !room then r == ENOMEM else if Full(old(fds)[p], 0) then r == EMFILE else Lowest(old(fds)[p], 0, r)
      ensures r < 0 ==> fds == old(fds)
      ensures r >= 0 ==>
        && fds[p][r] >= 0 && fds == old(fds)[p := old(fds)[p][r := fds[p][r]]]
        && (var f: nat := fds[p][r];
            f in files && files[f].kind.Master? && files[f].kind.pty !in old(ptys)
                && files == old(files)[f := files[f]])
    {
      hide Sound;
      hide Lawful;
      hide Accounted;
      hide Shut;
      if !room {
        return ENOMEM;
      }
      var f, t := NewMaster();
      r := FdInstall(p, f, 0, false);
      Framed(old(procs), old(fds), p);
    }

    lemma SessionsPositive()
      requires Lawful(procs, last)
      ensures forall i :: 0 <= i < |procs| && Live(procs[i]) ==> procs[i].sid > 0
    {}

    /** pts_open: a slave descriptor; a session leader without a terminal takes a free one. */
    method PtsOpen(p: nat, t: nat, noctty: bool, room: bool) returns (r: int)
      requires Inv() && p < APP_MAX && Live(procs[p]) && t in ptys
      modifies this`procs, this`fds, this`cloexec, this`files, this`ptys, this`loose, this`next
      ensures Inv() && loose == old(loose)
      ensures if !room then r == ENOMEM else if Full(old(fds)[p], 0) then r == EMFILE else Lowest(old(fds)[p], 0, r)
      ensures r < 0 ==> fds == old(fds)
      ensures r >= 0 ==> OnSlave(old(fds), fds, files, p, r, t) && t in ptys
      ensures procs == if room && !noctty && TakesFree(old(procs)[p], old(ptys)[t])
                       then old(procs)[p := old(procs)[p].(ctty := Some(t))] else old(procs)
      ensures r >= 0 ==>
        ptys[t].sid == if !noctty && TakesFree(old(procs)[p], old(ptys)[t]) then old(procs)[p].sid else old(ptys)[t].sid
    {
      hide Sound;
      hide Lawful;
      hide Accounted;
      hide Shut;
      if !room {
        return ENOMEM;
      }
      SessionsPositive();
      hide Lowest;
      hide Full;
      r := OpenSlave(p, t, noctty);
      SlaveFrame(old(fds), fds, files, p, r, t);
      Framed(old(procs), old(fds), p);
    }

    /** What the open does to descriptions and terminals. */
    method OpenSlave(p: nat, t: nat, noctty: bool) returns (r: int)
      requires Shaped(procs, fds, cloexec, held) && Sound() && p < APP_MAX && Live(procs[p]) && t in ptys
      requires forall i :: 0 <= i < |procs| && Live(procs[i]) ==> procs[i].sid > 0
      modifies this`procs, this`fds, this`cloexec, this`files, this`ptys, this`loose, this`next
      ensures Shaped(procs, fds, cloexec, held) && Sound() && loose == old(loose) && SameButTty(old(procs), procs)
      ensures if Full(old(fds)[p], 0) then r == EMFILE else Lowest(old(fds)[p], 0, r)
      ensures r < 0 ==> fds == old(fds)
      ensures r >= 0 ==> OnSlave(old(fds), fds, files, p, r, t) && t in ptys
      ensures procs == if !noctty && TakesFree(old(procs)[p], old(ptys)[t])
                       then old(procs)[p := old(procs)[p].(ctty := Some(t))] else old(procs)
      ensures r >= 0 ==>
        ptys[t].sid == if !noctty && TakesFree(old(procs)[p], old(ptys)[t]) then old(procs)[p].sid else old(ptys)[t].sid
    {
      hide Sound;
      hide AfterPut;
      hide Lowest;
      hide Full;
      hide OnSlave;
      ghost var fs, ps := fds, procs;
      var f := NewSlave(t);
      if !noctty {
        TakeIfFree(p, t);
      }
      assert SameButTty(ps, procs);
      hide SameButTty;
      r := FdInstall(p, f, 0, false);
      if r != EMFILE { OnSlaveBy(fs, fds, files, p, r, f, t); }
    }

    /** A session leader with no terminal takes t if it names no session. */
    method TakeIfFree(p: nat, t: nat)
      requires Sound() && p < |procs| && Live(procs[p]) && t in ptys
      requires forall i :: 0 <= i < |procs| && Live(procs[i]) ==> procs[i].sid > 0
      modifies this`procs, this`ptys
      ensures Sound() && SameButTty(old(procs), procs) && t in ptys
      ensures procs == if TakesFree(old(procs)[p], old(ptys)[t])
        then old(procs)[p := old(procs)[p].(ctty := Some(t))] else old(procs)
      ensures ptys[t].sid == if TakesFree(old(procs)[p], old(ptys)[t]) then old(procs)[p].sid else old(ptys)[t].sid
    {
      hide Sound;
      if procs[p].sid == procs[p].pid && procs[p].ctty == None && ptys[t].sid == 0 {
        assert MayTake(procs, p, ptys[t]);
        TakeTerminal(p, t);
      }
    }

    // ---- groups and sessions ------------------------------------------------------------------------

    /** proc_by_pid: the live process with this number, if there is one. */
    method ProcByPid(pid: int) returns (j: int)
      ensures j == -1 || (0 <= j < |procs| && Live(procs[j]) && procs[j].pid == pid)
      ensures j == -1 ==> !HasLive(procs, pid)
    {
      j := 0;
      while j < |procs|
        invariant 0 <= j <= |procs|
        invariant forall i :: 0 <= i < j ==> !(Live(procs[i]) && procs[i].pid == pid)
      {
        if procs[j].used && !procs[j].zombie && procs[j].pid == pid {
          return;
        }
        j := j + 1;
      }
      j := -1;
    }

    /** Whether session sid has a live process in group pgid. */
    method GroupInSession(pgid: int, sid: int) returns (ok: bool)
      ensures ok <==> exists i :: 0 <= i < |procs| && Live(procs[i]) && procs[i].pgid == pgid && procs[i].sid == sid
    {
      ok := false;
      var i := 0;
      while i < |procs| && !ok
        invariant 0 <= i <= |procs|
        invariant ok <==> exists k :: 0 <= k < i && Live(procs[k]) && procs[k].pgid == pgid && procs[k].sid == sid
      {
        ok := procs[i].used && !procs[i].zombie && procs[i].pgid == pgid && procs[i].sid == sid;
        i := i + 1;
      }
    }

    /** Slot i keeps its number, session and terminal. */
    method Reseat(i: nat, q: Proc)
      requires Sound() && i < |procs|
      requires q.ctty == procs[i].ctty && q.sid == procs[i].sid && q.pid == procs[i].pid
        && (Live(q) <==> Live(procs[i]))
      modifies this`procs
      ensures Sound() && procs == old(procs)[i := q]
    {
      hide Counted;
      hide Ends;
      hide Named;
      hide Terminals.Held;
      SameSeatNamed(procs, i, q, ptys);
      procs := procs[i := q];
    }

    /** A slot without a terminal gets an occupant without one. */
    method Reoccupy(i: nat, q: Proc)
      requires Sound() && i < |procs| && procs[i].ctty == None && q.ctty == None
      modifies this`procs
      ensures Sound() && procs == old(procs)[i := q]
    {
      hide Counted;
      hide Ends;
      hide Named;
      hide Terminals.Held;
      NoTtyHeld(procs, i, q, ptys);
      NoTtyNamed(procs, i, q, ptys);
      procs := procs[i := q];
    }

    /** Slot t is the process setpgid's first argument names, 0 naming the caller. */
    predicate Names(ps: seq<Proc>, p: nat, pid: int, t: nat)
      requires p < |ps|
    {
      t < |ps| && Live(ps[t]) && (if pid == 0 then t == p else ps[t].pid == pid) && (t == p || ps[t].ppid == ps[p].pid)
    }

    /** t may move to group `pgid`: of the caller's session, no leader, and into its own or an existing group. */
    ghost predicate MayMove(ps: seq<Proc>, p: nat, t: nat, pgid: int)
      requires p < |ps| && t < |ps|
    {
      && ps[t].sid == ps[p].sid && ps[t].pid != ps[t].sid
      && (pgid == ps[t].pid || exists i :: 0 <= i < |ps| && Live(ps[i]) && ps[i].pgid == pgid && ps[i].sid == ps[p].sid)
    }

    /** a_proc_setpgid. */
    method Setpgid(p: nat, pid: int, want: int) returns (r: int)
      requires Inv() && p < APP_MAX && Live(procs[p])
      modifies this`procs
      ensures Inv()
      ensures r != 0 ==> procs == old(procs)
      ensures want < 0 ==> r == EINVAL
      ensures want >= 0 && (forall t :: 0 <= t < APP_MAX ==> !Names(old(procs), p, pid, t)) ==> r == ESRCH
      ensures forall t :: 0 <= t < APP_MAX && Names(old(procs), p, pid, t) && want >= 0 ==>
        (var pgid := if want == 0 then old(procs)[t].pid else want;
         if MayMove(old(procs), p, t, pgid) then r == 0 && procs == old(procs)[t := old(procs)[t].(pgid := pgid)]
             else r == EPERM)
    {
      hide Sound;
      hide Accounted;
      hide Lawful;
      if want < 0 {
        return EINVAL;
      }
      var t := p;
      if pid != 0 {
        t := ProcByPid(pid);
      }
      OneNamed(p, pid, t);
      if t == -1 || (t != p && procs[t].ppid != procs[p].pid) {
        return ESRCH;
      }
      assert Names(procs, p, pid, t);
      hide MayMove;
      r := MoveTo(p, t, if want == 0 then procs[t].pid else want);
    }

    /** The checks and the move, once the process is found. */
    method MoveTo(p: nat, t: nat, pgid: int) returns (r: int)
      requires Inv() && p < APP_MAX && t < APP_MAX && Live(procs[p]) && Live(procs[t])
      modifies this`procs
      ensures Inv()
      ensures r == if MayMove(old(procs), p, t, pgid) then 0 else EPERM
      ensures procs == if r == 0 then old(procs)[t := old(procs)[t].(pgid := pgid)] else old(procs)
    {
      hide Sound;
      hide Accounted;
      hide Lawful;
      if procs[t].sid != procs[p].sid || procs[t].pid == procs[t].sid {
        return EPERM;
      }
      if pgid != procs[t].pid {
        var ok := GroupInSession(pgid, procs[p].sid);
        if !ok {
          return EPERM;
        }
      }
      GroupSet(procs, t, pgid, last);
      SameAccounts(procs, procs[t := procs[t].(pgid := pgid)], ledger, last, last);
      Reseat(t, procs[t].(pgid := pgid));
      r := 0;
    }

    /** The slot found is the only one named. */
    lemma OneNamed(p: nat, pid: int, t: int)
      requires Lawful(procs, last) && p < |procs|
      requires pid == 0 ==> t == p
      requires pid != 0 ==> t == -1 || (0 <= t < |procs| && Live(procs[t]) && procs[t].pid == pid)
      requires pid != 0 && t == -1 ==> !HasLive(procs, pid)
      ensures forall u :: 0 <= u < |procs| && Names(procs, p, pid, u) ==> u == t
    {}

    lemma LeaderLeadsGroup(p: nat)
      requires Lawful(procs, last) && p < |procs| && Live(procs[p])
      ensures procs[p].sid == procs[p].pid ==> procs[p].pgid == procs[p].pid
    {}

    /** A process that leads nothing starts a session of its own, without a terminal. */
    method StartSession(p: nat)
      requires Sound() && p < |procs| && procs[p].sid != procs[p].pid
      modifies this`procs, this`ptys
      ensures Sound() && procs == old(procs)[p := old(procs)[p].(pgid := old(procs)[p].pid, sid := old(procs)[p].pid,
        ctty := None)]
    {
      hide Counted;
      hide Ends;
      hide Named;
      hide Rebalance;
      hide Holders;
      ghost var ps, ts := procs, ptys;
      NoTtyNamed(ps, p, ps[p].(pgid := ps[p].pid, sid := ps[p].pid, ctty := None), ts);
      SameTtyHeld(ps, p, ps[p].(pgid := ps[p].pid, sid := ps[p].pid), ts);
      procs := procs[p := procs[p].(pgid := procs[p].pid, sid := procs[p].pid)];
      CttySet(p, None);
      assert procs == ps[p := ps[p].(pgid := ps[p].pid, sid := ps[p].pid, ctty := None)];
      RebalanceEnds(ts, procs);
      NamedSessions(procs, ts, ptys, -1);
      EndsKept(files, ts, ptys);
      QuietKept(files, ts, ptys, next);
    }

    /** a_proc_setsid. */
    method Setsid(p: nat) returns (r: int)
      requires Inv() && p < APP_MAX && Live(procs[p])
      modifies this`procs, this`ptys
      ensures Inv()
      ensures r == EPERM <==>
        exists i :: 0 <= i < APP_MAX && Live(old(procs)[i]) && old(procs)[i].pgid == old(procs)[p].pid
      ensures r == EPERM ==> procs == old(procs)
      ensures r != EPERM ==>
        && r == procs[p].pid
        && procs == old(procs)[p := old(procs)[p].(pgid := r, sid := r, ctty := None)]
    {
      hide Sound;
      hide Accounted;
      hide Lawful;
      var i := 0;
      while i < |procs|
        invariant 0 <= i <= |procs|
        invariant forall k :: 0 <= k < i && Live(procs[k]) ==> procs[k].pgid != procs[p].pid
      {
        if procs[i].used && !procs[i].zombie && procs[i].pgid == procs[p].pid {
          return EPERM;
        }
        i := i + 1;
      }
      ghost var ps := procs;
      LeaderLeadsGroup(p);
      SessionSet(ps, p, last);
      r := procs[p].pid;
      StartSession(p);
      TtyLawful(ps[p := ps[p].(pgid := ps[p].pid, sid := ps[p].pid)], procs, last);
      SameAccounts(ps, procs, ledger, last, last);
    }

    /** a_sig_action, as far as children's ends go: whether p ignores SIGCHLD. */
    method SigAction(p: nat, sig: int, disp: int) returns (r: int)
      requires Inv() && p < APP_MAX && Live(procs[p])
      modifies this`procs
      ensures Inv()
      ensures r == -1 <==> !(1 <= sig <= 64) || !(0 <= disp <= 2) || ((sig == SIGKILL || sig == SIGSTOP) && disp != 0)
      ensures r == -1 ==> procs == old(procs)
      ensures r != -1 ==>
        && r == 0
        && procs == if sig == SIGCHLD then old(procs)[p := old(procs)[p].(ignoresChild := disp == SIG_IGNORE)]
            else old(procs)
    {
      hide Sound;
      hide Accounted;
      hide Lawful;
      if sig < 1 || sig > 64 || disp < 0 || disp > 2 || ((sig == SIGKILL || sig == SIGSTOP) && disp != 0) {
        return -1;
      }
      r := 0;
      if sig == SIGCHLD {
        var q := procs[p].(ignoresChild := disp == SIG_IGNORE);
        DispositionSet(procs, p, disp == SIG_IGNORE, last);
        SameAccounts(procs, procs[p := q], ledger, last, last);
        Reseat(p, q);
      }
    }

    // ---- ioctls on a terminal ---------------------------------------------------------------------------

    /** TIOCSCTTY. Only a forced one can take a terminal from another session. */
    method Tiocsctty(p: nat, t: nat, forced: bool) returns (r: int)
      requires Inv() && p < APP_MAX && Live(procs[p]) && t in ptys
      modifies this`procs, this`ptys
      ensures r == 0 || r == EPERM
      ensures r == EPERM ==> procs == old(procs) && ptys == old(ptys)
      ensures r == 0 <==>
        && old(procs)[p].sid == old(procs)[p].pid
        && (old(procs)[p].ctty == Some(t) || (old(procs)[p].ctty == None && (forced || old(ptys)[t].sid == 0)))
      ensures r == 0 && old(procs)[p].ctty == None ==>
        && procs == old(procs)[p := old(procs)[p].(ctty := Some(t))]
        && t in ptys && ptys[t].sid == procs[p].sid && ptys[t].fg == procs[p].pgid
      ensures r == 0 && old(procs)[p].ctty == Some(t) ==> procs == old(procs) && ptys == old(ptys)
      ensures Inv() <==>
        !(forced && old(procs)[p].sid == old(procs)[p].pid && old(procs)[p].ctty == None && old(ptys)[t].sid != 0)
    {
      hide Sound;
      hide Accounted;
      hide Lawful;
      hide Named;
      hide Terminals.Held;
      if procs[p].sid != procs[p].pid {
        return EPERM;
      }
      if procs[p].ctty == Some(t) {
        return 0;
      }
      NotYetNamed(p, t);
      if procs[p].ctty.Some? || (ptys[t].sid != 0 && ptys[t].sid != procs[p].sid && !forced) {
        return EPERM;
      }
      r := 0;
      ghost var ps := procs;
      SessionsPositive();
      assert MayTake(procs, p, ptys[t]);
      TakeTerminal(p, t);
      if old(ptys)[t].sid == 0 { Framed(ps, fds, p); }
    }

    /** A leader without a terminal is not yet the session any terminal names. */
    lemma NotYetNamed(p: nat, t: nat)
      requires Sound() && Lawful(procs, last) && p < |procs| && Live(procs[p]) && t in ptys
      requires procs[p].sid == procs[p].pid && procs[p].ctty != Some(t)
      ensures ptys[t].sid != procs[p].sid
    {
      hide Counted;
      hide Ends;
      hide Holders;
      assert ptys[t].sid != 0 ==> HasLeader(procs, ptys[t].sid, t);
    }

    /** The session of leader p loses terminal t, which names it. Slot e is left to its caller. */
    method LoseTerminal(p: nat, t: nat, e: int)
      requires Sound() && p < |procs| && t in ptys && procs[p].ctty == Some(t) && procs[p].sid == procs[p].pid
      requires e == -1 || e == p
      modifies this`procs, this`ptys
      ensures Terminals.Held(procs, ptys) && procs == Without(old(procs), t, e, |old(procs)|)
      ensures ptys == Rebalance(old(ptys)[t := old(ptys)[t].(sid := 0, fg := 0)], procs)
    {
      hide Counted;
      hide Ends;
      hide Rebalance;
      hide Holders;
      hide HasLeader;
      HeldRenamed(procs, ptys, t, 0, 0);
      ptys := ptys[t := ptys[t].(sid := 0, fg := 0)];
      ClearTty(t, procs[p].sid, e);
    }

    /** TIOCNOTTY: a process gives its terminal up, a leader for its whole session. */
    method Tiocnotty(p: nat, t: nat) returns (r: int)
      requires Inv() && p < APP_MAX && Live(procs[p]) && t in ptys
      modifies this`procs, this`ptys
      ensures Inv()
      ensures r == if old(procs)[p].ctty == Some(t) then 0 else ENOTTY
      ensures r != 0 ==> procs == old(procs) && ptys == old(ptys)
      ensures r == 0 ==>
        procs == if old(procs)[p].sid == old(procs)[p].pid then Without(old(procs), t, -1, |old(procs)|)
                 else old(procs)[p := old(procs)[p].(ctty := None)]
    {
      hide Sound;
      hide Lawful;
      hide Accounted;
      if procs[p].ctty != Some(t) {
        return ENOTTY;
      }
      r := 0;
      ghost var ps := procs;
      if procs[p].sid == procs[p].pid {
        GiveUp(p, t);
      } else {
        DropOwn(p);
      }
      Framed(ps, fds, p);
    }

    /** A leader's session loses t. */
    method GiveUp(p: nat, t: nat)
      requires Sound() && p < |procs| && t in ptys && procs[p].ctty == Some(t) && procs[p].sid == procs[p].pid
      modifies this`procs, this`ptys
      ensures Sound() && SameButTty(old(procs), procs) && procs == Without(old(procs), t, -1, |old(procs)|)
    {
      hide Counted;
      hide Ends;
      hide Named;
      hide Terminals.Held;
      hide Rebalance;
      hide Quiet;
      hide Below;
      ghost var ps, ts := procs, ptys;
      LoseTerminal(p, t, -1);
      HungUp(files, ps, ts, t, procs);
      QuietKept(files, ts, ptys, next);
    }

    /** A process that leads no terminal's session lets its own terminal go. */
    method DropOwn(p: nat)
      requires Sound() && p < |procs| && (procs[p].ctty == None || procs[p].sid != procs[p].pid)
      modifies this`procs, this`ptys
      ensures Sound() && SameButTty(old(procs), procs) && procs == old(procs)[p := old(procs)[p].(ctty := None)]
    {
      hide Counted;
      hide Ends;
      hide Named;
      hide Rebalance;
      hide Holders;
      ghost var ps, ts := procs, ptys;
      NoTtyNamed(ps, p, ps[p].(ctty := None), ts);
      CttySet(p, None);
      RebalanceEnds(ts, procs);
      NamedSessions(procs, ts, ptys, -1);
      EndsKept(files, ts, ptys);
      QuietKept(files, ts, ptys, next);
    }

    /** TIOCSPGRP, `background` being what bg_check answered. */
    method Tiocspgrp(p: nat, t: nat, pg: int, background: int) returns (r: int)
      requires Inv() && p < APP_MAX && Live(procs[p]) && t in ptys
      modifies this`ptys
      ensures Inv()
      ensures r ==
        if procs[p].ctty != Some(t) || old(ptys)[t].sid != procs[p].sid then ENOTTY
        else if pg <= 0 then EINVAL
        else if background != 0 then background
        else if exists i ::
            0 <= i < APP_MAX && Live(procs[i]) && procs[i].pgid == pg && procs[i].sid == procs[p].sid then 0
        else EPERM
      ensures ptys == if r == 0 && background == 0 then old(ptys)[t := old(ptys)[t].(fg := pg)] else old(ptys)
    {
      hide Sound;
      hide Lawful;
      hide Accounted;
      if procs[p].ctty != Some(t) || ptys[t].sid != procs[p].sid {
        return ENOTTY;
      }
      if pg <= 0 {
        return EINVAL;
      }
      if background != 0 {
        return background;
      }
      var ok := GroupInSession(pg, procs[p].sid);
      if !ok {
        return EPERM;
      }
      SetForeground(t, pg);
      r := 0;
    }

    /** pty_set_fg. */
    method SetForeground(t: nat, pg: int)
      requires Sound() && t in ptys
      modifies this`ptys
      ensures Sound() && ptys == old(ptys)[t := old(ptys)[t].(fg := pg)]
    {
      hide Counted;
      hide Ends;
      hide Named;
      hide Terminals.Held;
      ghost var ts := ptys;
      HeldRenamed(procs, ts, t, ts[t].sid, pg);
      ptys := ptys[t := ptys[t].(fg := pg)];
      assert ptys[t] == ts[t].(sid := ts[t].sid, fg := pg);
      NamedSessions(procs, ts, ptys, -1);
      EndsKept(files, ts, ptys);
    }

    // ---- processes ------------------------------------------------------------------------------------------

    method FreeSlot() returns (c: int)
      ensures c == -1 || (0 <= c < |procs| && !procs[c].used)
      ensures c == -1 ==> forall i :: 0 <= i < |procs| ==> procs[i].used
      ensures forall i :: 0 <= i < c ==> procs[i].used
    {
      c := 0;
      while c < |procs|
        invariant 0 <= c <= |procs|
        invariant forall i :: 0 <= i < c ==> procs[i].used
      {
        if !procs[c].used {
          return;
        }
        c := c + 1;
      }
      c := -1;
    }

    lemma FreeHasNoTty(c: nat)
      requires Sound() && c < |procs| && !Live(procs[c])
      ensures procs[c].ctty == None
    {
      hide Holders;
      hide Ends;
      hide Counted;
    }

    lemma NotBlank(i: nat)
      requires Lawful(procs, last) && i < |procs| && procs[i].used
      ensures !procs[i].blank
    {}

    /** a_proc_fork up to where it may sleep: a free slot is reserved, under a new number. */
    method ForkBegin(p: nat) returns (c: int)
      requires Inv() && p < APP_MAX && Live(procs[p])
      modifies this`procs, this`last
      ensures Inv()
      ensures c == EAGAIN <==> forall i :: 0 <= i < APP_MAX ==> old(procs)[i].used
      ensures c == EAGAIN ==> procs == old(procs)
      ensures c != EAGAIN ==>
        && 0 <= c < APP_MAX && !old(procs)[c].used && Making(procs[c])
        && procs[c].pid == last == old(last) + 1 && procs[p].pid < procs[c].pid
        && procs == old(procs)[c := procs[c]]
    {
      hide Sound;
      hide Lawful;
      hide Accounted;
      c := FreeSlot();
      if c == -1 {
        return EAGAIN;
      }
      ghost var ps := procs;
      var q := Proc(true, true, -1, last + 1, 0, 0, 0, None, 0, procs[p].ignoresChild, false);
      FreeHasNoTty(c);
      LastIsLast(p);
      SlotTaken(procs, c, q, last);
      SameAccounts(procs, procs[c := q], ledger, last, last + 1);
      Reoccupy(c, q);
      last := last + 1;
    }

    lemma LastIsLast(p: nat)
      requires Lawful(procs, last) && p < |procs| && procs[p].used
      ensures procs[p].pid <= last
    {}

    /** A fork that failed gives its slot back. */
    method ForkAbort(c: nat)
      requires Inv() && c < APP_MAX && Making(procs[c])
      modifies this`procs
      ensures Inv() && procs == old(procs)[c := old(procs)[c].(used := false, zombie := false)]
    {
      hide Sound;
      hide Lawful;
      hide Accounted;
      var q := procs[c].(used := false, zombie := false);
      FreeHasNoTty(c);
      NotBlank(c);
      SlotFreed(procs, c, q, last);
      SameAccounts(procs, procs[c := q], ledger, last, last);
      Reoccupy(c, q);
    }

    /** The child's descriptors: its parent's, each with one more reference. */
    method CopyDescriptors(p: nat, c: nat)
      requires Shaped(procs, fds, cloexec, held) && Sound() && p < APP_MAX && c < APP_MAX && p != c && EmptyRow(fds[c])
      modifies this`fds, this`cloexec, this`files, this`loose
      ensures Shaped(procs, fds, cloexec, held) && Sound() && loose == old(loose)
      ensures fds == old(fds)[c := old(fds)[p]]
      ensures forall k :: 0 <= k < APP_FDS && fds[c][k] != NULL ==> cloexec[c][k] == cloexec[p][k]
    {
      hide Counted;
      hide Ends;
      hide Named;
      hide Terminals.Held;
      ghost var fs := fds;
      var i := 0;
      while i < APP_FDS
        invariant 0 <= i <= APP_FDS
        invariant Shaped(procs, fds, cloexec, held) && Sound() && loose == old(loose)
        invariant forall j :: 0 <= j < APP_MAX && j != c ==> fds[j] == fs[j]
        invariant forall k :: 0 <= k < APP_FDS ==> fds[c][k] == if k < i then fs[p][k] else NULL
        invariant forall k :: 0 <= k < i && fds[c][k] != NULL ==> cloexec[c][k] == cloexec[p][k]
      {
        if fds[p][i] != NULL {
          EntryIsOpen(fds, held, loose, files, p, i);
          AddEntry(c, i, fds[p][i], cloexec[p][i]);
        }
        i := i + 1;
      }
      assert fds[c] == fs[p];
      assert fds == fs[c := fs[p]];
    }

    /** a_proc_fork once everything is there: the child comes alive with its parent's group, session,
        terminal and descriptors. */
    method ForkFinish(p: nat, c: nat, task: nat)
      requires Inv() && p < APP_MAX && c < APP_MAX && Live(procs[p]) && Making(procs[c]) && procs[p].pid < procs[c].pid
      modifies this`procs, this`fds, this`cloexec, this`files, this`ptys, this`loose, this`ledger
      ensures Inv() && loose == old(loose)
      ensures ledger == old(ledger).(ran := old(ledger).ran + {old(procs)[c].pid})
      ensures procs == old(procs)[c := old(procs)[c].(zombie := false, task := task, ppid := old(procs)[p].pid,
        pgid := old(procs)[p].pgid, sid := old(procs)[p].sid, ctty := old(procs)[p].ctty)]
      ensures fds == old(fds)[c := old(fds)[p]]
    {
      hide Sound;
      hide Lawful;
      hide Accounted;
      ghost var ps := procs;
      FreeHasNoTty(c);
      NotBlank(c);
      CopyDescriptors(p, c);
      JoinParent(p, c, task);
      ChildMade(ps, c, procs[c], p, last);
      ChildBegins(ps, c, procs[c]);
      ledger := ledger.(ran := ledger.ran + {procs[c].pid});
    }

    lemma ChildBegins(ps: seq<Proc>, c: nat, q: Proc)
      requires Lawful(ps, last) && Accounted(ps, ledger, last) && c < |ps| && Making(ps[c]) && q.pid == ps[c].pid
        && Live(q)
      ensures Accounted(ps[c := q], ledger.(ran := ledger.ran + {q.pid}), last)
    {
      Begins(ps, c, q, ledger, last);
    }

    method JoinParent(p: nat, c: nat, task: nat)
      requires Sound() && p < |procs| && c < |procs| && p != c && Live(procs[p]) && procs[c].used
        && procs[c].ctty == None
      modifies this`procs, this`ptys
      ensures Sound()
      ensures procs == old(procs)[c := old(procs)[c].(zombie := false, task := task, ppid := old(procs)[p].pid,
        pgid := old(procs)[p].pgid, sid := old(procs)[p].sid, ctty := old(procs)[p].ctty)]
    {
      hide Counted;
      hide Ends;
      hide Named;
      hide Rebalance;
      hide Holders;
      ghost var ps, ts := procs, ptys;
      var q := procs[c].(zombie := false, task := task, ppid := procs[p].pid, pgid := procs[p].pgid,
          sid := procs[p].sid);
      NoTtyHeld(procs, c, q, ptys);
      procs := procs[c := q];
      JoinNamed(ps, c, q.(ctty := ps[p].ctty), p, ptys);
      CttySet(c, procs[p].ctty);
      assert procs == ps[c := q.(ctty := ps[p].ctty)];
      RebalanceEnds(ts, procs);
      NamedSessions(procs, ts, ptys, -1);
      EndsKept(files, ts, ptys);
      QuietKept(files, ts, ptys, next);
    }

    /** a_proc_exec, as far as descriptors go: those marked close-on-exec are closed, the others kept. */
    method Exec(p: nat)
      requires Inv() && p < APP_MAX && Live(procs[p])
      modifies this`procs, this`fds, this`cloexec, this`files, this`ptys, this`loose
      ensures Inv() && loose == old(loose)
      ensures forall j :: 0 <= j < APP_MAX && j != p ==> fds[j] == old(fds)[j]
      ensures forall k :: 0 <= k < APP_FDS ==> fds[p][k] == if old(cloexec)[p][k] then NULL else old(fds)[p][k]
    {
      hide Sound;
      hide Lawful;
      hide Accounted;
      hide Shut;
      hide AfterPut;
      var i := 0;
      while i < APP_FDS
        invariant 0 <= i <= APP_FDS
        invariant Shaped(procs, fds, cloexec, held) && Sound() && TtyLost(old(procs), procs) && loose == old(loose)
        invariant forall j :: 0 <= j < APP_MAX && j != p ==> fds[j] == old(fds)[j]
        invariant forall k :: 0 <= k < i ==> fds[p][k] == if old(cloexec)[p][k] then NULL else old(fds)[p][k]
        invariant forall k :: i <= k < APP_FDS ==> fds[p][k] == old(fds)[p][k] && cloexec[p][k] == old(cloexec)[p][k]
      {
        ghost var ps := procs;
        if fds[p][i] != NULL && cloexec[p][i] {
          var was := FdClose(p, i);
          TtyLostTrans(old(procs), ps, procs);
        }
        i := i + 1;
      }
      Framed(old(procs), old(fds), p);
    }

    /** The descriptors part of teardown: everything p has open is closed. */
    method CloseAll(p: nat)
      requires Shaped(procs, fds, cloexec, held) && Sound() && p < APP_MAX
      modifies this`procs, this`fds, this`cloexec, this`files, this`ptys, this`loose
      ensures Shaped(procs, fds, cloexec, held) && Sound() && TtyLost(old(procs), procs) && loose == old(loose)
      ensures EmptyRow(fds[p]) && forall j :: 0 <= j < APP_MAX && j != p ==> fds[j] == old(fds)[j]
      ensures old(procs)[p].ctty == None ==> procs[p].ctty == None
    {
      hide Sound;
      hide AfterPut;
      var i := 0;
      while i < APP_FDS
        invariant 0 <= i <= APP_FDS
        invariant Shaped(procs, fds, cloexec, held) && Sound() && TtyLost(old(procs), procs) && loose == old(loose)
        invariant forall j :: 0 <= j < APP_MAX && j != p ==> fds[j] == old(fds)[j]
        invariant forall k :: 0 <= k < i ==> fds[p][k] == NULL
        invariant old(procs)[p].ctty == None ==> procs[p].ctty == None
      {
        ghost var ps := procs;
        var was := FdClose(p, i);
        TtyLostTrans(old(procs), ps, procs);
        i := i + 1;
      }
    }

    /** Every process of a session with a terminal shares it with the session's leader. */
    lemma SharesWithLeader(p: nat, i: nat)
      requires Sound() && Lawful(procs, last) && p < |procs| && i < |procs| && Live(procs[p])
      requires procs[p].sid == procs[p].pid == procs[i].sid && procs[i].ctty.Some?
      ensures procs[i].ctty == procs[p].ctty
    {
      hide Counted;
      hide Ends;
      hide Holders;
      assert HasLeader(procs, ptys[procs[i].ctty.value].sid, procs[i].ctty.value);
    }

    /** The first part of proc_finish: a session leader takes its session's terminal with it, anyone
        else only its own. */
    method LeaveTerminal(p: nat)
      requires Sound() && Lawful(procs, last) && p < |procs| && Live(procs[p])
      modifies this`procs, this`ptys
      ensures Sound() && TtyLost(old(procs), procs) && procs[p].ctty == None
      ensures procs[p].sid == procs[p].pid ==>
        forall i :: 0 <= i < |procs| && procs[i].sid == procs[p].pid ==> procs[i].ctty == None
    {
      hide Sound;
      hide Lawful;
      ghost var ps := procs;
      forall i | 0 <= i < |ps| && ps[p].sid == ps[p].pid == ps[i].sid && ps[i].ctty.Some?
        ensures ps[i].ctty == ps[p].ctty
      {
        SharesWithLeader(p, i);
      }
      var tty := procs[p].ctty;
      if tty.Some? {
        TtyThere(p, tty.value);
      }
      if tty.Some? && procs[p].sid == procs[p].pid && ptys[tty.value].sid == procs[p].sid {
        LeaderLeaves(p, tty.value);
      } else {
        DropOwn(p);
      }
    }

    lemma TtyThere(p: nat, t: nat)
      requires Sound() && p < |procs| && procs[p].ctty == Some(t)
      ensures t in ptys && ptys[t].sid == procs[p].sid
    {
      hide Counted;
      hide Ends;
      hide Holders;
      hide HasLeader;
    }

    method LeaderLeaves(p: nat, t: nat)
      requires Sound() && p < |procs| && t in ptys && procs[p].ctty == Some(t) && procs[p].sid == procs[p].pid
      modifies this`procs, this`ptys
      ensures Sound() && TtyLost(old(procs), procs) && procs == Without(old(procs), t, -1, |old(procs)|)
    {
      hide Counted;
      hide Ends;
      hide Named;
      hide Terminals.Held;
      hide Rebalance;
      hide Quiet;
      hide Below;
      ghost var ps, ts := procs, ptys;
      LoseTerminal(p, t, p);
      ghost var mid := procs;
      CttySet(p, None);
      assert procs == Without(ps, t, -1, |ps|);
      RebalanceNext(ts[t := ts[t].(sid := 0, fg := 0)], mid, procs);
      HungUp(files, ps, ts, t, procs);
      QuietKept(files, ts, ptys, next);
    }

    /** The children of an ending process: the living are nobody's, the ended ones' statuses are dropped. */
    method DropChildren(p: nat)
      requires Inv() && p < APP_MAX && Live(procs[p])
      modifies this`procs, this`ledger
      ensures Inv() && Childless(procs, p)
      ensures ledger.kept == old(ledger).kept && ledger.reaped == old(ledger).reaped
      ensures |procs| == |old(procs)| && procs[p] == old(procs)[p]
      ensures forall i :: 0 <= i < |procs| && i != p ==> procs[i] == Orphan(old(procs)[i], old(procs)[p].pid)
    {
      hide Sound;
      hide Lawful;
      hide Accounted;
      ghost var ps := procs;
      OwnParent(p);
      var i := 0;
      while i < |procs|
        invariant 0 <= i <= |procs| == |ps|
        invariant Inv()
        invariant ledger.kept == old(ledger).kept && ledger.reaped == old(ledger).reaped
        invariant procs[p] == ps[p]
        invariant forall j :: 0 <= j < |ps| && j != p ==> procs[j] == if j < i then Orphan(ps[j], ps[p].pid) else ps[j]
      {
        if procs[i].used && i != p && procs[i].ppid == procs[p].pid {
          OrphanOne(p, i);
        }
        i := i + 1;
      }
    }

    method OrphanOne(p: nat, i: nat)
      requires Inv() && p < APP_MAX && i < APP_MAX && i != p && Live(procs[p])
      requires procs[i].used && procs[i].ppid == procs[p].pid && procs[p].pid > 0
      modifies this`procs, this`ledger
      ensures Inv() && procs == old(procs)[i := Orphan(old(procs)[i], old(procs)[p].pid)]
      ensures ledger.kept == old(ledger).kept && ledger.reaped == old(ledger).reaped
    {
      hide Sound;
      hide Lawful;
      hide Accounted;
      if procs[i].zombie {
        DropStatus(i);
      } else {
        ParentLost(procs, i, last);
        SameAccounts(procs, procs[i := procs[i].(ppid := 0)], ledger, last, last);
        Reseat(i, procs[i].(ppid := 0));
      }
    }

    lemma OwnParent(p: nat)
      requires Lawful(procs, last) && p < |procs| && Live(procs[p])
      ensures 0 <= procs[p].ppid < procs[p].pid && procs[p].task != -1
    {}

    lemma HasTask(i: nat)
      requires Lawful(procs, last) && i < |procs| && procs[i].used && procs[i].zombie && procs[i].ppid != 0
      ensures Ended(procs[i])
    {}

    /** An ended child of an ending parent: its slot is free, its status lost. */
    method DropStatus(i: nat)
      requires Inv() && i < APP_MAX && procs[i].used && procs[i].zombie && procs[i].ppid != 0
      modifies this`procs, this`ledger
      ensures Inv() && procs == old(procs)[i := old(procs)[i].(used := false, zombie := false)]
      ensures ledger == old(ledger).(dropped := old(ledger).dropped + {old(procs)[i].pid})
    {
      hide Sound;
      hide Lawful;
      hide Accounted;
      HasTask(i);
      FreeHasNoTty(i);
      NotBlank(i);
      var q := procs[i].(used := false, zombie := false);
      SlotFreed(procs, i, q, last);
      ghost var l := ledger.(dropped := ledger.dropped + {procs[i].pid});
      Leave(i, q, l);
      Reoccupy(i, q);
      ledger := l;
    }

    lemma Leave(i: nat, q: Proc, l: Ledger)
      requires Lawful(procs, last) && Accounted(procs, ledger, last) && i < |procs| && Ended(procs[i])
      requires !q.used && !q.blank && q.pid == procs[i].pid
      requires || l == ledger.(dropped := ledger.dropped + {procs[i].pid})
               || l == ledger.(reaped := ledger.reaped[procs[i].pid := procs[i].status])
      ensures Accounted(procs[i := q], l, last)
      ensures procs[i].pid !in ledger.reaped && procs[i].pid in ledger.kept
        && ledger.kept[procs[i].pid] == procs[i].status
    {
      StatusLeaves(procs, i, q, ledger, l, last);
    }

    /** The exit status a parent reads: the signal, or the exit code in the second byte. */
    function Status(code: int, sig: nat): int {
      if sig != 0 then sig % 128 else code % 256 * 256
    }

    /** What a parent decodes: the low seven bits are the signal, and where they are zero the process ended by
        itself with the second byte as its code, or by signal 128 or a multiple of it. */
    lemma StatusDecoded(code: int, sig: nat)
      ensures Status(code, sig) % 0x80 == sig % 0x80
      ensures sig == 0 ==> Status(code, sig) % 0x100 == 0 && 0 <= Status(code, sig) / 0x100 < 0x100
      ensures sig == 0 ==> (Status(code, sig) / 0x100 - code) % 0x100 == 0
      ensures sig != 0 ==> Status(code, sig) / 0x80 == 0
      ensures sig < 0x80 ==> (Status(code, sig) % 0x80 == 0 <==> sig == 0)
    {
      assert code == code / 0x100 * 0x100 + code % 0x100;
      assert (code % 0x100 - code) % 0x100 == (-(code / 0x100)) * 0x100 % 0x100;
    }

    /** Whether a parent is there to keep p's status for. */
    ghost predicate Awaited(ps: seq<Proc>, p: nat)
      requires p < |ps|
    {
      exists j :: 0 <= j < |ps| && Live(ps[j]) && !ps[j].ignoresChild && ps[j].pid == ps[p].ppid
    }

    /** proc_finish up to where teardown may sleep until p's threads are out: the terminal left, the parent's
        slot looked up, the children nobody's. */
    method FinishBegin(p: nat) returns (parent: int)
      requires Inv() && p < APP_MAX && Live(procs[p])
      modifies this`procs, this`ptys, this`ledger
      ensures Inv() && Childless(procs, p) && procs[p] == old(procs)[p].(ctty := None)
      ensures parent == -1 || (0 <= parent < APP_MAX && parent != p && Live(procs[parent]) && procs[p].ppid != 0)
      ensures Keeps(procs, parent) <==> Awaited(old(procs), p)
      ensures parent != -1 ==> procs[parent].pid == procs[p].ppid
      ensures ledger.kept == old(ledger).kept && ledger.reaped == old(ledger).reaped
      ensures forall i :: 0 <= i < APP_MAX && i != p ==>
        procs[i].(ctty := None) == Orphan(old(procs)[i], old(procs)[p].pid).(ctty := None)
      ensures old(procs)[p].sid == old(procs)[p].pid ==>
        forall i :: 0 <= i < APP_MAX && procs[i].sid == old(procs)[p].pid ==> procs[i].ctty == None
    {
      hide Sound;
      hide Lawful;
      hide Accounted;
      ghost var p0 := procs;
      OwnParent(p);
      LeaveTerminal(p);
      Framed(p0, fds, p);
      parent := -1;
      if procs[p].ppid != 0 {
        parent := ProcByPid(procs[p].ppid);
      }
      OneParent(p, parent);
      ghost var p1 := procs;
      DropChildren(p);
      Orphaned(p0, p1, procs, procs, p);
      SameAwaited(p0, p1, p);
      if parent != -1 { Retired(p1, p, parent); }
      hide Orphan;
    }

    /** proc_finish once p's threads are out: descriptors closed, and the slot kept or freed by what the slot
        found for the parent says now. The laws survive exactly when no child came meanwhile and, if p is kept,
        it still has a parent. */
    method FinishEnd(p: nat, parent: int, code: int, sig: nat)
      requires Inv() && p < APP_MAX && Live(procs[p]) && procs[p].ctty == None && -1 <= parent < APP_MAX
      modifies this`procs, this`fds, this`cloexec, this`files, this`ptys, this`loose, this`ledger
      ensures |procs| == APP_MAX && |fds| == APP_MAX
      ensures loose == old(loose) && EmptyRow(fds[p])
      ensures procs[p] == if Keeps(old(procs), parent) then old(procs)[p].(zombie := true, status := Status(code, sig))
                          else old(procs)[p].(used := false)
      ensures forall i :: 0 <= i < APP_MAX && i != p ==>
        procs[i] == old(procs)[i] || procs[i] == old(procs)[i].(ctty := None)
      ensures ledger == if Keeps(old(procs), parent)
        then old(ledger).(kept := old(ledger).kept[old(procs)[p].pid := Status(code, sig)])
                        else old(ledger)
      ensures Inv() <==> Childless(old(procs), p) && (Keeps(old(procs), parent) ==> old(procs)[p].ppid != 0)
    {
      hide Sound;
      hide Lawful;
      hide Accounted;
      hide EmptyRow;
      hide Shut;
      hide Childless;
      ghost var p0, f0 := procs, fds;
      OwnParent(p);
      CloseAll(p);
      Framed(p0, f0, p);
      SameChildless(p0, procs, p);
      if parent != -1 && !procs[parent].ignoresChild {
        EndKept(p, procs[p].(zombie := true, status := Status(code, sig)));
      } else {
        EndFreed(p, procs[p].(used := false));
      }
    }

    /** proc_finish, when nothing runs in between. */
    method Finish(p: nat, code: int, sig: nat)
      requires Inv() && p < APP_MAX && Live(procs[p])
      modifies this`procs, this`fds, this`cloexec, this`files, this`ptys, this`loose, this`ledger
      ensures Inv() && loose == old(loose)
      ensures EmptyRow(fds[p])
      ensures procs[p].(ctty := old(procs)[p].ctty) ==
              if Awaited(old(procs), p) then old(procs)[p].(zombie := true, status := Status(code, sig))
                  else old(procs)[p].(used := false)
      ensures procs[p].ctty == None
      ensures ledger.kept == if Awaited(old(procs), p) then old(ledger).kept[old(procs)[p].pid := Status(code, sig)]
        else old(ledger).kept
      ensures ledger.reaped == old(ledger).reaped
      ensures forall i :: 0 <= i < APP_MAX && i != p ==>
        procs[i].(ctty := None) == Orphan(old(procs)[i], old(procs)[p].pid).(ctty := None)
      ensures old(procs)[p].sid == old(procs)[p].pid ==>
        forall i :: 0 <= i < APP_MAX && procs[i].sid == old(procs)[p].pid ==> procs[i].ctty == None
    {
      hide Inv;
      hide Childless;
      hide EmptyRow;
      hide Orphan;
      hide Awaited;
      var parent := FinishBegin(p);
      FinishEnd(p, parent, code, sig);
    }

    /** What the slot found for the parent says about keeping a child's status. */
    ghost predicate Keeps(ps: seq<Proc>, parent: int) {
      0 <= parent < |ps| && !ps[parent].ignoresChild
    }

    lemma SameAwaited(p0: seq<Proc>, p1: seq<Proc>, p: nat)
      requires TtyLost(p0, p1) && p < |p0|
      ensures Awaited(p0, p) <==> Awaited(p1, p)
    {
      if Awaited(p0, p) {
        var j :| 0 <= j < |p0| && Live(p0[j]) && !p0[j].ignoresChild && p0[j].pid == p0[p].ppid;
        assert Live(p1[j]);
      }
      if Awaited(p1, p) {
        var j :| 0 <= j < |p1| && Live(p1[j]) && !p1[j].ignoresChild && p1[j].pid == p1[p].ppid;
        assert Live(p0[j]);
      }
    }

    lemma SameChildless(p0: seq<Proc>, p1: seq<Proc>, p: nat)
      requires TtyLost(p0, p1) && p < |p0|
      ensures Childless(p0, p) <==> Childless(p1, p)
    {}

    lemma Retired(p0: seq<Proc>, p: nat, j: nat)
      requires |p0| == |procs| && p < |p0| && j < |p0| && j != p && Live(p0[j])
      requires procs[j] == Orphan(p0[j], p0[p].pid)
      ensures Live(procs[j]) && procs[j].pid == p0[j].pid && procs[j].ignoresChild == p0[j].ignoresChild
    {}

    /** The parent found is the only one there could be. */
    lemma OneParent(p: nat, parent: int)
      requires Lawful(procs, last) && p < |procs| && Live(procs[p])
      requires parent == -1 || (0 <= parent < |procs| && Live(procs[parent]) && procs[parent].pid == procs[p].ppid)
      requires parent == -1 ==> procs[p].ppid == 0 || !HasLive(procs, procs[p].ppid)
      ensures Awaited(procs, p) <==> parent != -1 && !procs[parent].ignoresChild
      ensures parent != p && (parent != -1 ==> procs[p].ppid != 0)
    {}

    lemma NoChildren(p: nat, q: Proc)
      requires Lawful(procs, last) && p < |procs| && Live(procs[p]) && Childless(procs, p)
      requires q.blank == procs[p].blank && q.pid == procs[p].pid
        && (q.used ==> Ended(q) && q.ppid == procs[p].ppid != 0)
      ensures Lawful(procs[p := q], last) && !procs[p].blank
    {
      NotBlank(p);
      ProcessEnds(procs, p, q, last);
    }

    /** A child names p as its parent, or p is kept for nobody. */
    lemma Unlawful(p: nat, q: Proc)
      requires Lawful(procs, last) && p < |procs| && Live(procs[p]) && !Live(q) && q.pid == procs[p].pid
      requires !Childless(procs, p) || (Ended(q) && q.ppid == 0)
      ensures !Lawful(procs[p := q], last)
    {
      var qs := procs[p := q];
      if !Childless(procs, p) {
        var i :| 0 <= i < |procs| && procs[i].used && procs[i].ppid == procs[p].pid;
        assert i != p && qs[i] == procs[i];
        forall j | 0 <= j < |qs| && Live(qs[j])
          ensures qs[j].pid != q.pid
        {
          assert j != p;
        }
        assert !HasLive(qs, qs[i].ppid);
      } else {
        assert qs[p] == q;
      }
    }

    /** The status stays for the parent, if there is one. */
    method EndKept(p: nat, q: Proc)
      requires Inv() && p < APP_MAX && Live(procs[p]) && EmptyRow(fds[p]) && procs[p].ctty == None
      requires q == procs[p].(zombie := true, status := q.status) && q.task != -1
      modifies this`procs, this`ledger
      ensures procs == old(procs)[p := q]
      ensures ledger == old(ledger).(kept := old(ledger).kept[q.pid := q.status])
      ensures Inv() <==> Childless(old(procs), p) && q.ppid != 0
    {
      hide Sound;
      hide Lawful;
      hide Accounted;
      if Childless(procs, p) && q.ppid != 0 {
        NoChildren(p, q);
      } else {
        Unlawful(p, q);
      }
      KeepStatus(p, q);
      Reoccupy(p, q);
      ledger := ledger.(kept := ledger.kept[q.pid := q.status]);
    }

    lemma KeepStatus(p: nat, q: Proc)
      requires Lawful(procs, last) && Accounted(procs, ledger, last) && p < |procs| && Live(procs[p])
      requires Ended(q) && q.pid == procs[p].pid
      ensures Accounted(procs[p := q], ledger.(kept := ledger.kept[q.pid := q.status]), last)
    {
      NotBlank(p);
      StatusKept(procs, p, q, ledger, last);
    }

    /** Nobody will ask: the slot is free. */
    method EndFreed(p: nat, q: Proc)
      requires Inv() && p < APP_MAX && Live(procs[p]) && EmptyRow(fds[p]) && procs[p].ctty == None
      requires q == procs[p].(used := false)
      modifies this`procs
      ensures procs == old(procs)[p := q] && (Inv() <==> Childless(old(procs), p))
    {
      hide Sound;
      hide Lawful;
      hide Accounted;
      NotBlank(p);
      if Childless(procs, p) {
        NoChildren(p, q);
      } else {
        Unlawful(p, q);
      }
      SameAccounts(procs, procs[p := q], ledger, last, last);
      Reoccupy(p, q);
    }

    /** Whether wait's first argument selects child c of caller p. */
    predicate Selects(c: Proc, p: Proc, pid: int) {
      pid == -1 || (pid > 0 && c.pid == pid) || (pid == 0 && c.pgid == p.pgid) || (pid < -1 && c.pgid == -pid)
    }

    predicate WaitsFor(c: Proc, p: Proc, pid: int) {
      c.used && c.ppid == p.pid && c.task != -1 && Selects(c, p, pid)
    }

    /** One pass of a_proc_wait: the first ended child selected is reaped. 0 is what WNOHANG returns, and
        where a blocking wait sleeps before the next pass. */
    method Wait(p: nat, pid: int) returns (r: int, status: int)
      requires Inv() && p < APP_MAX && Live(procs[p])
      modifies this`procs, this`ledger
      ensures Inv()
      ensures r == ECHILD <==> forall i :: 0 <= i < APP_MAX && i != p ==> !WaitsFor(old(procs)[i], old(procs)[p], pid)
      ensures r > 0 <==>
        exists i :: 0 <= i < APP_MAX && i != p && WaitsFor(old(procs)[i], old(procs)[p], pid) && old(procs)[i].zombie
      ensures r == 0 || r == ECHILD || r > 0
      ensures r <= 0 ==> procs == old(procs) && ledger == old(ledger)
      ensures r > 0 ==>
        && r !in old(ledger).reaped && r in old(ledger).kept && status == old(ledger).kept[r]
        && ledger == old(ledger).(reaped := old(ledger).reaped[r := status])
      ensures r > 0 ==> (exists i ::
        && 0 <= i < APP_MAX && i != p && WaitsFor(old(procs)[i], old(procs)[p], pid) && Ended(old(procs)[i])
        && old(procs)[i].pid == r
        && procs == old(procs)[i := old(procs)[i].(used := false, zombie := false)])
    {
      hide Sound;
      hide Lawful;
      hide Accounted;
      var found := false;
      status := 0;
      var i := 0;
      while i < |procs|
        invariant 0 <= i <= |procs|
        invariant found <==> exists k :: 0 <= k < i && k != p && WaitsFor(procs[k], procs[p], pid)
        invariant forall k :: 0 <= k < i && k != p && WaitsFor(procs[k], procs[p], pid) ==> !procs[k].zombie
      {
        if i != p && WaitsFor(procs[i], procs[p], pid) {
          found := true;
          if procs[i].zombie {
            r, status := Reap(p, i);
            return;
          }
        }
        i := i + 1;
      }
      r := if found then 0 else ECHILD;
    }

    lemma PidPositive(i: nat)
      requires Lawful(procs, last) && i < |procs| && procs[i].used
      ensures procs[i].pid > 0
    {}

    method Reap(p: nat, i: nat) returns (r: int, status: int)
      requires Inv() && p < APP_MAX && i < APP_MAX && Ended(procs[i])
      modifies this`procs, this`ledger
      ensures Inv() && r == old(procs)[i].pid && r > 0 && status == old(procs)[i].status
      ensures r !in old(ledger).reaped && r in old(ledger).kept && status == old(ledger).kept[r]
      ensures procs == old(procs)[i := old(procs)[i].(used := false, zombie := false)]
      ensures ledger == old(ledger).(reaped := old(ledger).reaped[r := status])
    {
      hide Sound;
      hide Lawful;
      hide Accounted;
      FreeHasNoTty(i);
      NotBlank(i);
      PidPositive(i);
      status := procs[i].status;
      r := procs[i].pid;
      var q := procs[i].(used := false, zombie := false);
      SlotFreed(procs, i, q, last);
      ghost var l := ledger.(reaped := ledger.reaped[procs[i].pid := status]);
      Leave(i, q, l);
      Reoccupy(i, q);
      ledger := l;
    }

    // ---- references held by a running call ---------------------------------------------------------------

    /** hold: a reference to what fd stands for, noted in the task's list while that has room. */
    method Hold(p: nat, task: nat, fd: int) returns (f: int)
      requires Inv() && p < APP_MAX && task < TASK_MAX
      modifies this`files, this`held, this`loose
      ensures Inv()
      ensures f == if 0 <= fd < APP_FDS then fds[p][fd] else NULL
      ensures f == NULL ==> files == old(files) && held == old(held) && loose == old(loose)
      ensures f != NULL ==>
        if |old(held)[task]| < HELD_MAX then held == old(held)[task := old(held)[task] + [f]] && loose == old(loose)
        else held == old(held) && loose == old(loose) + multiset{f}
    {
      hide Sound;
      hide Lawful;
      hide Accounted;
      hide Shut;
      if fd < 0 || fd >= APP_FDS || fds[p][fd] == NULL {
        return NULL;
      }
      f := fds[p][fd];
      OpenEntry(p, fd);
      Ref(f);
      if |held[task]| < HELD_MAX {
        Relist(task, held[task] + [f], multiset{}, multiset{f});
        assert loose == old(loose);
      }
    }

    lemma OpenEntry(p: nat, fd: nat)
      requires Sound() && p < |fds| && fd < |fds[p]| && fds[p][fd] >= 0
      ensures fds[p][fd] in files
    {
      hide Counted;
      hide Ends;
      hide Named;
      hide Terminals.Held;
      EntryIsOpen(fds, held, loose, files, p, fd);
    }

    /** A task's list becomes `row`: `gone` left it and is in flight, `come` was in flight and joined it. */
    method Relist(task: nat, row: seq<int>, ghost gone: multiset<int>, ghost come: multiset<int>)
      requires Shaped(procs, fds, cloexec, held) && Sound() && task < TASK_MAX && |row| <= HELD_MAX
      requires (forall k :: 0 <= k < |row| ==> row[k] >= 0) && come <= loose
      requires multiset(row) + gone == multiset(held[task]) + come
      modifies this`held, this`loose
      ensures Shaped(procs, fds, cloexec, held) && Sound() && held == old(held)[task := row]
      ensures loose == old(loose) + gone - come
    {
      hide Counted;
      hide Ends;
      hide Named;
      hide Terminals.Held;
      HeldChanged(fds, held, loose, files, task, row, gone, come);
      held := held[task := row];
      loose := loose + gone - come;
    }

    /** One entry taken out of a task's list, the last one moved into its place. */
    method Unlist(task: nat, i: nat)
      requires Shaped(procs, fds, cloexec, held) && Sound() && task < TASK_MAX && i < |held[task]|
      modifies this`held, this`loose
      ensures Shaped(procs, fds, cloexec, held) && Sound() && loose == old(loose) + multiset{old(held)[task][i]}
      ensures held == old(held)[task := held[task]]
      ensures multiset(held[task]) == multiset(old(held)[task]) - multiset{old(held)[task][i]}
      ensures |held[task]| == |old(held)[task]| - 1
    {
      hide Sound;
      var row, n := held[task], |held[task]| - 1;
      var less := row[i := row[n]][..n];
      Unlisted(row, i, less);
      hide Shaped;
      Relist(task, less, multiset{row[i]}, multiset{});
    }

    /** unhold: f leaves the task's list if it is there, and is let go. */
    method Unhold(task: nat, f: nat)
      requires Inv() && task < TASK_MAX && (f in held[task] || loose[f] > 0)
      modifies this`procs, this`files, this`ptys, this`held, this`loose
      ensures Inv()
      ensures f in old(held)[task] ==>
        && loose == old(loose) && multiset(held[task]) == multiset(old(held)[task]) - multiset{f}
        && held == old(held)[task := held[task]]
      ensures f !in old(held)[task] ==> held == old(held) && loose == old(loose) - multiset{f}
    {
      hide Sound;
      hide Lawful;
      hide Accounted;
      hide Shut;
      RowSizes();
      hide Shaped;
      ghost var ps := procs;
      var i := |held[task]| - 1;
      while i >= 0 && held[task][i] != f
        invariant -1 <= i < |held[task]|
        invariant forall k :: i < k < |held[task]| ==> held[task][k] != f
      {
        i := i - 1;
      }
      if i >= 0 {
        Unlist(task, i);
      }
      Put(f);
      TablesFramed(ps);
    }

    /** Nothing but controlling terminals changed in the process table. */
    lemma TablesFramed(ps: seq<Proc>)
      requires Lawful(ps, last) && Shut(ps, fds) && Accounted(ps, ledger, last) && TtyLost(ps, procs)
      ensures Lawful(procs, last) && Shut(procs, fds) && Accounted(procs, ledger, last)
    {
      hide Lawful;
      TtyLawful(ps, procs, last);
      SameAccounts(ps, procs, ledger, last, last);
    }

    /** held_drop: a call that never returns lets go of all it had noted. */
    method HeldDrop(task: nat)
      requires Inv() && task < TASK_MAX
      modifies this`procs, this`files, this`ptys, this`held, this`loose
      ensures Inv() && loose == old(loose) && held == old(held)[task := []]
    {
      hide Inv;
      Sizes();
      while |held[task]| > 0
        invariant |held| == TASK_MAX && Inv() && loose == old(loose) && held == old(held)[task := held[task]]
        decreases |held[task]|
      {
        DropLast(task);
      }
    }

    method DropLast(task: nat)
      requires Inv() && task < TASK_MAX && |held[task]| > 0
      modifies this`procs, this`files, this`ptys, this`held, this`loose
      ensures Inv() && loose == old(loose) && |held| == TASK_MAX
      ensures held == old(held)[task := held[task]] && |held[task]| == |old(held)[task]| - 1
    {
      hide Sound;
      hide Lawful;
      hide Accounted;
      hide Shut;
      ghost var ps := procs;
      var n := |held[task]| - 1;
      var f := held[task][n];
      Unlist(task, n);
      Put(f);
      TablesFramed(ps);
    }

    /** The descriptors of `want` held one after the other. */
    method HoldAll(p: nat, task: nat, want: seq<int>)
      requires Inv() && p < APP_MAX && task < TASK_MAX && held[task] == []
      modifies this`files, this`held, this`loose
      ensures Inv() && held == old(held)[task := Listed(Opened(fds[p], want))]
      ensures loose == old(loose) + Lost(Opened(fds[p], want))
    {
      hide Sound;
      hide Lawful;
      hide Accounted;
      hide Shut;
      hide Listed;
      hide Lost;
      ghost var row := fds[p];
      NothingHeld();
      var i := 0;
      while i < |want|
        invariant 0 <= i <= |want|
        invariant Inv() && held == old(held)[task := Listed(Opened(row, want[..i]))]
        invariant loose == old(loose) + Lost(Opened(row, want[..i]))
      {
        assert want[..i + 1][..i] == want[..i];
        ghost var taken := Opened(row, want[..i]);
        var f := Hold(p, task, want[i]);
        ListedStep(taken, f);
        i := i + 1;
      }
      assert want[..|want|] == want;
    }

    /** A call that holds the descriptors of `want` and is then abandoned leaks exactly what it held
        beyond the fourth. */
    method AbandonedCall(p: nat, task: nat, want: seq<int>)
      requires Inv() && p < APP_MAX && task < TASK_MAX && held[task] == []
      modifies this`procs, this`files, this`ptys, this`held, this`loose
      ensures Inv() && held == old(held)
      ensures loose == old(loose) + Lost(Opened(fds[p], want))
      ensures loose == old(loose) <==> |Opened(fds[p], want)| <= HELD_MAX
    {
      hide Sound;
      hide Lawful;
      hide Accounted;
      hide Shut;
      HoldAll(p, task, want);
      HeldDrop(task);
      Leaks(old(loose), Opened(fds[p], want));
    }

    // ---- programs and terminals the kernel starts -----------------------------------------------------------

    /** prepare up to where it reads the program's file and may sleep: the lowest free slot is cleared and
        numbered, and stays free for anyone who looks. */
    method SpawnBegin() returns (c: int)
      requires Inv()
      modifies this`procs, this`last
      ensures Inv()
      ensures c == -1 <==> forall i :: 0 <= i < APP_MAX ==> old(procs)[i].used
      ensures c == -1 ==> procs == old(procs) && last == old(last)
      ensures c != -1 ==>
        && 0 <= c < APP_MAX && !old(procs)[c].used && (forall i :: 0 <= i < c ==> old(procs)[i].used)
        && last == old(last) + 1 && procs == old(procs)[c := Reserved(last)]
    {
      hide Sound;
      hide Lawful;
      hide Accounted;
      c := FreeSlot();
      if c == -1 {
        return;
      }
      var q := Reserved(last + 1);
      FreeHasNoTty(c);
      SlotTaken(procs, c, q, last);
      SameAccounts(procs, procs[c := q], ledger, last, last + 1);
      Reoccupy(c, q);
      last := last + 1;
    }

    /** prepare once the file is there: three descriptors, and the slot is marked used, whoever has it by now.
        A process begins under a number no process had, in a slot nobody had, with nothing lost and all laws
        kept, exactly when the slot is free and still as a start cleared it. */
    method SpawnFinish(c: nat, task: nat)
      requires Inv() && c < APP_MAX
      modifies this`procs, this`fds, this`cloexec, this`files, this`loose, this`next, this`ledger
      ensures Shaped(procs, fds, cloexec, held) && Sound()
      ensures procs == old(procs)[c := old(procs)[c].(used := true, blank := false, task := task)]
      ensures ledger == old(ledger).(ran := old(ledger).ran + {procs[c].pid})
      ensures Standard(old(fds), fds, old(files), files, c)
      ensures loose == old(loose) + Overwritten(old(fds)[c])
      ensures Inv() && loose == old(loose) && StartsAnew(old(procs)[c], procs[c], old(ledger).ran, task, None)
              <==> Cleared(old(procs)[c])
    {
      hide Sound;
      hide Lawful;
      hide Accounted;
      hide Standard;
      hide Overwritten;
      ghost var ps, fs := procs, fds;
      SpentNumber(c);
      if Cleared(ps[c]) {
        RowEmpty(ps, fs, c);
        NothingOverwritten(fs[c]);
      }
      StdDescriptors(c);
      MarkUsed(c, task);
      if Cleared(ps[c]) {
        ShutBut(ps, fs, procs, fds, files, old(files), c);
      } else {
        NumberedWhenUsed(c);
      }
    }

    /** A free slot that is not as a start left it has no number for a new process. */
    lemma SpentNumber(c: nat)
      requires Lawful(procs, last) && Accounted(procs, ledger, last) && c < |procs|
      ensures Cleared(procs[c]) ==> procs[c].(ctty := None) == Reserved(procs[c].pid) && procs[c].pid !in ledger.ran
      ensures !procs[c].used && !procs[c].blank ==> procs[c].pid in ledger.ran || procs[c].pgid == 0
    {}

    lemma NumberedWhenUsed(c: nat)
      requires c < |procs| && procs[c].used
      ensures Lawful(procs, last) ==> procs[c].pid > 0
    {}

    method MarkUsed(c: nat, task: nat)
      requires Shaped(procs, fds, cloexec, held) && Sound() && Lawful(procs, last) && Accounted(procs, ledger, last)
      requires c < APP_MAX
      modifies this`procs, this`ledger
      ensures procs == old(procs)[c := old(procs)[c].(used := true, blank := false, task := task)]
      ensures ledger == old(ledger).(ran := old(ledger).ran + {procs[c].pid})
      ensures Shaped(procs, fds, cloexec, held) && Sound()
      ensures Cleared(old(procs)[c]) ==>
        Lawful(procs, last) && Accounted(procs, ledger, last) && procs[c] == Begun(procs[c].pid, task)
    {
      hide Counted;
      hide Ends;
      hide Named;
      hide Terminals.Held;
      hide Lawful;
      hide Accounted;
      var q := procs[c].(used := true, blank := false, task := task);
      if Live(procs[c]) {
        SameSeatNamed(procs, c, q, ptys);
      } else {
        FreeHasNoTty(c);
        NoTtyHeld(procs, c, q, ptys);
        NoTtyNamed(procs, c, q, ptys);
      }
      SpentNumber(c);
      if Cleared(procs[c]) {
        Started(c, q);
      }
      procs := procs[c := q];
      ledger := ledger.(ran := ledger.ran + {q.pid});
    }

    lemma Started(c: nat, q: Proc)
      requires Lawful(procs, last) && Accounted(procs, ledger, last) && c < |procs| && Cleared(procs[c])
      requires q == Begun(procs[c].pid, q.task) && q.task != -1
      ensures Lawful(procs[c := q], last) && Accounted(procs[c := q], ledger.(ran := ledger.ran + {q.pid}), last)
    {
      StartMade(procs, c, q.task, last);
      Begins(procs, c, q, ledger, last);
    }

    lemma FreeRow(c: nat)
      requires Inv() && c < APP_MAX && !Live(procs[c])
      ensures |fds| == APP_MAX && |fds[c]| == APP_FDS && Overwritten(fds[c]) == multiset{}
    {
      RowEmpty(procs, fds, c);
      NothingOverwritten(fds[c]);
    }

    /** prepare when the program cannot be loaded after its descriptors were opened: discard closes all the slot
        has. It leaves descriptors alone exactly when the slot had none, which it has when nobody took it. */
    method SpawnFail(c: nat)
      requires Inv() && c < APP_MAX
      modifies this`procs, this`fds, this`cloexec, this`files, this`ptys, this`loose, this`next
      ensures Inv() && TtyLost(old(procs), procs) && loose == old(loose) + Overwritten(old(fds)[c])
      ensures EmptyRow(fds[c]) && forall i :: 0 <= i < APP_MAX && i != c ==> fds[i] == old(fds)[i]
      ensures loose == old(loose) && fds == old(fds) <==> EmptyRow(old(fds)[c])
      ensures !Live(old(procs)[c]) ==> EmptyRow(old(fds)[c])
    {
      hide Sound;
      hide Lawful;
      hide Accounted;
      ghost var ps, fs := procs, fds;
      StdDescriptors(c);
      StandardEntries(fs, fds, old(files), files, c);
      ghost var mid := fds;
      CloseAll(c);
      Emptied(ps, fs, mid, fds, c);
      TablesFramed(ps);
    }

    /** app_spawn, when nothing runs in between: a program on its own, the console at descriptors 0, 1 and 2. */
    method Spawn(task: nat) returns (c: int)
      requires Inv()
      modifies this`procs, this`fds, this`cloexec, this`files, this`loose, this`next, this`last, this`ledger
      ensures Inv() && loose == old(loose) && ptys == old(ptys) && held == old(held)
      ensures c == -1 <==> forall i :: 0 <= i < APP_MAX ==> old(procs)[i].used
      ensures c == -1 ==> procs == old(procs) && ledger == old(ledger)
      ensures c != -1 ==>
        && 0 <= c < APP_MAX && !old(procs)[c].used && (forall i :: 0 <= i < c ==> old(procs)[i].used)
        && last == old(last) + 1 && procs == old(procs)[c := Begun(last, task)]
        && ledger == old(ledger).(ran := old(ledger).ran + {last})
        && Standard(old(fds), fds, old(files), files, c)
    {
      hide Inv;
      hide Standard;
      hide Overwritten;
      hide Sound;
      hide Shaped;
      Sizes();
      c := SpawnBegin();
      if c == -1 {
        return;
      }
      SpawnFinish(c, task);
    }

    lemma RowSizes()
      requires Shaped(procs, fds, cloexec, held)
      ensures |procs| == APP_MAX && |fds| == APP_MAX && |cloexec| == APP_MAX && |held| == TASK_MAX
      ensures forall i :: 0 <= i < APP_MAX ==> |fds[i]| == APP_FDS && |cloexec[i]| == APP_FDS
    {}

    /** fd_std: one console description, three references, over whatever the entries held. */
    method StdDescriptors(c: nat)
      requires Shaped(procs, fds, cloexec, held) && Sound() && c < APP_MAX
      modifies this`fds, this`cloexec, this`files, this`loose, this`next
      ensures Shaped(procs, fds, cloexec, held) && Sound() && loose == old(loose) + Overwritten(old(fds)[c])
      ensures Standard(old(fds), fds, old(files), files, c)
    {
      hide Sound;
      RowSizes();
      hide Shaped;
      hide Moved;
      hide Standard;
      hide Holding;
      hide Overwritten;
      ghost var fs, gs, l := fds, files, loose;
      var f := NewFile();
      SetEntry(c, 0, f, false);
      MovedIn(l, fs[c][0], f);
      AddEntry(c, 1, f, false);
      AddEntry(c, 2, f, false);
      StandardBy(fs, gs, c, f);
      OverwrittenBy(fs, c, f, l);
    }

    /** Another descriptor for f: one more reference, and what the entry held is nobody's. */
    method AddEntry(c: nat, k: nat, f: nat, cx: bool)
      requires Shaped(procs, fds, cloexec, held) && Sound() && c < APP_MAX && k < APP_FDS && f in files
      modifies this`fds, this`cloexec, this`files, this`loose
      ensures Shaped(procs, fds, cloexec, held) && Sound() && loose == old(loose) + Holding(old(fds)[c][k])
      ensures fds == old(fds)[c := old(fds)[c][k := f]] && cloexec == old(cloexec)[c := old(cloexec)[c][k := cx]]
      ensures files == old(files)[f := old(files)[f].(refs := old(files)[f].refs + 1)]
    {
      hide Sound;
      Ref(f);
      SetEntry(c, k, f, cx);
    }

    /** A console's or serial line's terminal, its master kept by the kernel. */
    method NewConsole() returns (t: nat)
      requires Inv()
      modifies this`ptys, this`next
      ensures Inv() && t !in old(ptys) && ptys == old(ptys)[t := Pty(1, 0, 0, false, false, 0, 0, 1)]
    {
      hide Counted;
      hide Ends;
      hide Named;
      hide Terminals.Held;
      hide Lawful;
      hide Accounted;
      t := next;
      next := next + 1;
      ConsoleSound(files, procs, ptys, t);
      ptys := ptys[t := Pty(1, 0, 0, false, false, 0, 0, 1)];
    }

    /** app_pty_close: the kernel lets a master go, which may hang the terminal up. */
    method CloseConsole(t: nat)
      requires Inv() && t in ptys && ptys[t].kernel > 0
      modifies this`procs, this`ptys
      ensures Inv() && TtyLost(old(procs), procs)
      ensures t in ptys && old(ptys)[t].masters == 1 ==> forall i :: 0 <= i < APP_MAX ==> procs[i].ctty != Some(t)
    {
      hide Counted;
      hide Ends;
      hide Named;
      hide Terminals.Held;
      hide Quiet;
      hide Below;
      hide Lawful;
      hide Accounted;
      ghost var ps := procs;
      KernelOwes(files, procs, ptys, t, next);
      EndHung(files, ptys, Plain, t);
      ptys := ptys[t := ptys[t].(kernel := ptys[t].kernel - 1)];
      var freed := MasterGone(t);
      if !freed { Dispatch(t); }
      TablesFramed(ps);
    }

    /** Descriptor fd of p becomes a slave end of t. */
    method PutOnTerminal(c: nat, fd: nat, t: nat)
      requires Shaped(procs, fds, cloexec, held) && Sound() && c < APP_MAX && fd < APP_FDS && t in ptys
      requires fds[c][fd] >= 0 && (var f: nat := fds[c][fd]; f in files && files[f].kind == Plain)
      modifies this`procs, this`fds, this`cloexec, this`files, this`ptys, this`loose, this`next
      ensures Shaped(procs, fds, cloexec, held) && Sound() && loose == old(loose) && procs == old(procs)
      ensures t in ptys && ptys == old(ptys)[t := old(ptys)[t].(slaves := old(ptys)[t].slaves + 1)]
      ensures |fds| == APP_MAX && |fds[c]| == APP_FDS && fds == old(fds)[c := old(fds)[c][fd := fds[c][fd]]]
      ensures OneFewer(old(files), files, old(fds)[c][fd])
    {
      hide Sound;
      RowSizes();
      hide Shaped;
      hide AfterPut;
      hide OneFewer;
      ghost var gs, l := files, loose;
      var f, was := SlaveAt(c, fd, t);
      RowSizes();
      ReferencedBefore(gs, f, was, t);
      Put(was);
    }

    /** A new slave end of t at descriptor fd; the reference that was there is in flight. */
    method SlaveAt(c: nat, fd: nat, t: nat) returns (f: nat, was: nat)
      requires Shaped(procs, fds, cloexec, held) && Sound() && c < APP_MAX && fd < APP_FDS && t in ptys
        && fds[c][fd] >= 0
      modifies this`fds, this`cloexec, this`files, this`ptys, this`loose, this`next
      ensures Shaped(procs, fds, cloexec, held) && Sound()
      ensures was == old(fds)[c][fd] && loose == old(loose) + multiset{was}
      ensures f !in old(files) && files == old(files)[f := File(Slave(t), 1)]
      ensures fds == old(fds)[c := old(fds)[c][fd := f]]
      ensures ptys == old(ptys)[t := old(ptys)[t].(slaves := old(ptys)[t].slaves + 1)]
    {
      hide Sound;
      RowSizes();
      hide Shaped;
      hide Moved;
      ghost var l := loose;
      f := NewSlave(t);
      was := fds[c][fd];
      SetEntry(c, fd, f, false);
      MovedIn(l, was, f);
    }

    /** app_spawn_tty once prepare has its file: descriptors on t, and t its controlling terminal, whatever t
        names by now. A leader begins on t with all laws kept exactly when the slot is as a start cleared it and
        t, at this moment, names no session. */
    method SpawnTtyFinish(c: nat, t: nat, task: nat)
      requires Inv() && c < APP_MAX && t in ptys
      modifies this`procs, this`fds, this`cloexec, this`files, this`ptys, this`loose, this`next, this`ledger
      ensures procs == old(procs)[c := old(procs)[c].(used := true, blank := false, task := task, ctty := Some(t))]
      ensures ledger == old(ledger).(ran := old(ledger).ran + {procs[c].pid})
      ensures loose == old(loose) + Overwritten(old(fds)[c])
      ensures t in ptys && ptys[t].sid == procs[c].sid && ptys[t].fg == procs[c].pgid
      ensures Inv() && loose == old(loose) && StartsAnew(old(procs)[c], procs[c], old(ledger).ran, task, Some(t))
              <==> Cleared(old(procs)[c]) && old(ptys)[t].sid == 0
      ensures Cleared(old(procs)[c]) ==>
        && loose == old(loose) && StartsAnew(old(procs)[c], procs[c], old(ledger).ran, task, Some(t))
        && (Inv() <==> old(ptys)[t].sid == 0)
    {
      hide Sound;
      hide Lawful;
      hide Accounted;
      hide Shut;
      hide Overwritten;
      ghost var p0 := procs;
      SpentNumber(c);
      SpawnFinish(c, task);
      ghost var ps, fs := procs, fds;
      StandardEntries(old(fds), fds, old(files), files, c);
      hide Standard;
      StdOnTerminal(c, t);
      if Cleared(p0[c]) {
        Framed(ps, fs, c);
        SessionsPositive();
        NotYetNamed(c, t);
        assert MayTake(procs, c, ptys[t]);
      }
      TakeTerminal(c, t);
      if Cleared(p0[c]) {
        if old(ptys)[t].sid == 0 { Framed(ps, fs, c); }
      } else {
        NumberedWhenUsed(c);
      }
    }

    /** app_spawn_tty, when nothing runs in between. */
    method SpawnTty(t: nat, task: nat) returns (c: int)
      requires Inv() && t in ptys
      modifies this`procs, this`fds, this`cloexec, this`files, this`ptys, this`loose, this`next, this`last, this`ledger
      ensures loose == old(loose) && held == old(held)
      ensures c == -1 <==> forall i :: 0 <= i < APP_MAX ==> old(procs)[i].used
      ensures |procs| == APP_MAX
      ensures c != -1 ==>
        && 0 <= c < APP_MAX && !old(procs)[c].used && last == old(last) + 1
        && procs == old(procs)[c := Begun(last, task).(ctty := Some(t))]
        && t in ptys && ptys[t].sid == last && ptys[t].fg == last
      ensures Inv() <==> (c == -1 || old(ptys)[t].sid == 0)
    {
      hide Inv;
      hide Overwritten;
      Sizes();
      c := SpawnBegin();
      if c == -1 {
        return;
      }
      SpawnTtyFinish(c, t, task);
    }

    /** Descriptors 0, 1 and 2, one description so far, become slave ends of t. */
    method StdOnTerminal(c: nat, t: nat)
      requires Shaped(procs, fds, cloexec, held) && Sound() && c < APP_MAX && t in ptys
      requires fds[c][0] == fds[c][1] == fds[c][2] && fds[c][0] >= 0
      requires var f: nat := fds[c][0]; f in files && files[f] == File(Plain, 3)
      modifies this`procs, this`fds, this`cloexec, this`files, this`ptys, this`loose, this`next
      ensures Shaped(procs, fds, cloexec, held) && Sound() && loose == old(loose) && procs == old(procs)
      ensures t in ptys && ptys[t].sid == old(ptys)[t].sid
      ensures forall i :: 0 <= i < APP_MAX && i != c ==> fds[i] == old(fds)[i]
    {
      hide Sound;
      PutOnTerminal(c, 0, t);
      PutOnTerminal(c, 1, t);
      PutOnTerminal(c, 2, t);
    }
  }
}
