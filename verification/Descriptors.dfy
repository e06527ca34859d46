/** Open descriptions and who refers to them: descriptor tables, references held by running system
    calls, and references in flight inside one (kernel/app.c:690-744, kernel/kfile.c:39-108). */
module Descriptors {
  import opened Processes
  import opened Terminals

  datatype Kind = Plain | Master(pty: nat) | Slave(pty: nat)
  datatype File = File(kind: Kind, refs: nat)

  const NULL: int := -1

  // ---- counting references ------------------------------------------------------------------

  ghost function Total(rows: seq<seq<int>>, x: int): nat {
    if |rows| == 0 then 0 else Total(rows[..|rows| - 1], x) + multiset(rows[|rows| - 1])[x]
  }

  lemma {:induction false} TotalRow(rows: seq<seq<int>>, i: nat, row: seq<int>, x: int)
    requires i < |rows|
    ensures Total(rows[i := row], x) + multiset(rows[i])[x] == Total(rows, x) + multiset(row)[x]
  {
    var n := |rows| - 1;
    if i == n {
      assert rows[i := row][..n] == rows[..n];
    } else {
      TotalRow(rows[..n], i, row, x);
      assert rows[i := row][..n] == rows[..n][i := row];
    }
  }

  function One(y: int, x: int): nat {
    if y == x then 1 else 0
  }

  lemma RowEntry(row: seq<int>, k: nat, v: int, x: int)
    requires k < |row|
    ensures multiset(row[k := v])[x] + One(row[k], x) == multiset(row)[x] + One(v, x)
  {
    assert row[k] in multiset(row);
    assert multiset(row[k := v]) == multiset(row) - multiset{row[k]} + multiset{v};
  }

  lemma TotalEntry(rows: seq<seq<int>>, i: nat, k: nat, v: int, x: int)
    requires i < |rows| && k < |rows[i]|
    ensures Total(rows[i := rows[i][k := v]], x) + One(rows[i][k], x) == Total(rows, x) + One(v, x)
  {
    TotalRow(rows, i, rows[i][k := v], x);
    RowEntry(rows[i], k, v, x);
  }

  lemma {:induction false} TotalPositive(rows: seq<seq<int>>, i: nat, k: nat)
    requires i < |rows| && k < |rows[i]|
    ensures Total(rows, rows[i][k]) > 0
  {
    assert rows[i][k] in multiset(rows[i]);
    if i < |rows| - 1 { TotalPositive(rows[..|rows| - 1], i, k); }
  }

  lemma {:induction false} TotalZero(rows: seq<seq<int>>, x: int)
    requires forall i, k :: 0 <= i < |rows| && 0 <= k < |rows[i]| ==> rows[i][k] != x
    ensures Total(rows, x) == 0
  {
    if |rows| > 0 {
      TotalZero(rows[..|rows| - 1], x);
      assert x !in rows[|rows| - 1];
    }
  }

  ghost function Mentions(fds: seq<seq<int>>, held: seq<seq<int>>, loose: multiset<int>, x: int): nat {
    Total(fds, x) + Total(held, x) + loose[x]
  }

  function Refs(files: map<nat, File>, x: nat): nat {
    if x in files then files[x].refs else 0
  }

  /** A description's count is the number of places that refer to it; nothing refers to a freed
      description and none that nobody refers to is left. */
  ghost predicate Counted(fds: seq<seq<int>>, held: seq<seq<int>>, loose: multiset<int>, files: map<nat, File>) {
    && (forall x: nat :: Refs(files, x) == Mentions(fds, held, loose, x))
    && (forall x :: x in files ==> files[x].refs > 0)
  }

  lemma EntryIsOpen(fds: seq<seq<int>>, held: seq<seq<int>>, loose: multiset<int>, files: map<nat, File>, i: nat,
      k: nat)
    requires Counted(fds, held, loose, files) && i < |fds| && k < |fds[i]| && fds[i][k] >= 0
    ensures fds[i][k] in files
  {
    TotalPositive(fds, i, k);
    assert Refs(files, fds[i][k]) == Mentions(fds, held, loose, fds[i][k]);
  }

  /** A new reference, still in flight (kfile_ref, and kfile_new with f fresh). */
  lemma Referenced(fds: seq<seq<int>>, held: seq<seq<int>>, loose: multiset<int>, files: map<nat, File>, f: nat,
      g: File)
    requires Counted(fds, held, loose, files) && g.refs == Refs(files, f) + 1
    ensures Counted(fds, held, loose + multiset{f}, files[f := g])
  {
    forall x: nat
      ensures Refs(files[f := g], x) == Mentions(fds, held, loose + multiset{f}, x)
    {
      assert Refs(files, x) == Mentions(fds, held, loose, x);
    }
  }

  /** One reference in flight fewer, the last one freeing the description (kfile_put). */
  function AfterPut(files: map<nat, File>, f: nat): map<nat, File>
    requires f in files && files[f].refs > 0
  {
    if files[f].refs > 1 then files[f := files[f].(refs := files[f].refs - 1)]
    else map x | x in files && x != f :: files[x]
  }

  lemma Released(fds: seq<seq<int>>, held: seq<seq<int>>, loose: multiset<int>, files: map<nat, File>, f: nat)
    requires Counted(fds, held, loose, files) && loose[f] > 0
    ensures f in files && files[f].refs > 0
    ensures Counted(fds, held, loose - multiset{f}, AfterPut(files, f))
  {
    assert Refs(files, f) == Mentions(fds, held, loose, f);
    forall x: nat
      ensures Refs(AfterPut(files, f), x) == Mentions(fds, held, loose - multiset{f}, x)
    {
      assert Refs(files, x) == Mentions(fds, held, loose, x);
    }
  }

  /** A table entry changes: what it held is in flight, what it now holds no longer is. */
  ghost function Moved(loose: multiset<int>, was: int, now: int): multiset<int> {
    (if was == NULL then loose else loose + multiset{was}) - (if now == NULL then multiset{} else multiset{now})
  }

  lemma Entered(fds: seq<seq<int>>, held: seq<seq<int>>, loose: multiset<int>, files: map<nat, File>, i: nat, k: nat,
      v: int)
    requires Counted(fds, held, loose, files) && i < |fds| && k < |fds[i]|
    requires v == NULL || loose[v] > 0
    ensures Counted(fds[i := fds[i][k := v]], held, Moved(loose, fds[i][k], v), files)
  {
    forall x: nat
      ensures Refs(files, x) == Mentions(fds[i := fds[i][k := v]], held, Moved(loose, fds[i][k], v), x)
    {
      assert Refs(files, x) == Mentions(fds, held, loose, x);
      TotalEntry(fds, i, k, v, x);
    }
  }

  /** A held list changes by `gone` leaving and `come` joining it. */
  lemma HeldChanged(fds: seq<seq<int>>, held: seq<seq<int>>, loose: multiset<int>, files: map<nat, File>,
                    t: nat, row: seq<int>, gone: multiset<int>, come: multiset<int>)
    requires Counted(fds, held, loose, files) && t < |held| && come <= loose
    requires multiset(row) + gone == multiset(held[t]) + come
    ensures Counted(fds, held[t := row], loose + gone - come, files)
  {
    forall x: nat
      ensures Refs(files, x) == Mentions(fds, held[t := row], loose + gone - come, x)
    {
      assert Refs(files, x) == Mentions(fds, held, loose, x);
      TotalRow(held, t, row, x);
      assert (multiset(row) + gone)[x] == (multiset(held[t]) + come)[x];
    }
  }

  // ---- terminal ends ----------------------------------------------------------------------------

  ghost function Open(files: map<nat, File>, k: Kind): set<nat> {
    set f | f in files && files[f].kind == k
  }

  predicate OnTerminal(k: Kind, ptys: map<nat, Pty>) {
    k.Plain? || k.pty in ptys
  }

  function Owed(owed: Kind, k: Kind): nat {
    if owed == k then 1 else 0
  }

  /** Each end's count is the number of descriptions open on it (and the kernel's own masters, and
      one still `owed` by a description just freed); a terminal has hung up exactly when no master is
      left, and no description names a freed one. */
  ghost predicate Ends(files: map<nat, File>, ptys: map<nat, Pty>, owed: Kind) {
    && OnTerminal(owed, ptys)
    && (forall f :: f in files ==> OnTerminal(files[f].kind, ptys))
    && (forall t :: t in ptys ==>
          && ptys[t].masters == ptys[t].kernel + |Open(files, Master(t))| + Owed(owed, Master(t))
          && ptys[t].slaves == |Open(files, Slave(t))| + Owed(owed, Slave(t))
          && (ptys[t].hung <==> ptys[t].masters == 0))
  }

  /** No hangup is waiting to be told, except on x. */
  ghost predicate Quiet(ptys: map<nat, Pty>, x: int) {
    forall t :: t in ptys && t != x ==> !ptys[t].hangup
  }

  /** Only holds, sessions and foreground groups differ; what is gone had no end open. */
  ghost predicate SameEnds(a: map<nat, Pty>, b: map<nat, Pty>) {
    && b.Keys <= a.Keys
    && (forall t :: t in b ==> b[t] == a[t].(holds := b[t].holds, sid := b[t].sid, fg := b[t].fg))
    && (forall t :: t in a && t !in b ==> a[t].masters == 0 && a[t].slaves == 0)
  }

  lemma SameEndsTrans(a: map<nat, Pty>, b: map<nat, Pty>, c: map<nat, Pty>)
    requires SameEnds(a, b) && SameEnds(b, c)
    ensures SameEnds(a, c)
  {}

  lemma RebalanceEnds(ptys: map<nat, Pty>, ps: seq<Proc>)
    ensures SameEnds(ptys, Rebalance(ptys, ps)) && SameSessions(ptys, Rebalance(ptys, ps))
  {
    hide Holders;
  }

  lemma EndsKept(files: map<nat, File>, a: map<nat, Pty>, b: map<nat, Pty>)
    requires Ends(files, a, Plain) && SameEnds(a, b)
    ensures Ends(files, b, Plain)
  {
    forall f | f in files
      ensures OnTerminal(files[f].kind, b)
    {
      assert f in Open(files, files[f].kind);
    }
  }

  lemma OpenUnchanged(files: map<nat, File>, f: nat, g: File, k: Kind)
    requires f in files && g.kind == files[f].kind
    ensures Open(files[f := g], k) == Open(files, k)
  {}

  lemma EndsRecounted(files: map<nat, File>, f: nat, g: File, ptys: map<nat, Pty>)
    requires Ends(files, ptys, Plain) && f in files && g.kind == files[f].kind
    ensures Ends(files[f := g], ptys, Plain)
  {
    forall k: Kind
      ensures Open(files[f := g], k) == Open(files, k)
    {
      OpenUnchanged(files, f, g, k);
    }
  }

  lemma OpenAdded(files: map<nat, File>, f: nat, g: File, k: Kind)
    requires f !in files
    ensures |Open(files[f := g], k)| == |Open(files, k)| + Owed(g.kind, k)
  {
    assert Open(files[f := g], k) == Open(files, k) + (if g.kind == k then {f} else {});
  }

  lemma OpenRemoved(files: map<nat, File>, f: nat, rest: map<nat, File>, k: Kind)
    requires f in files && rest == map x | x in files && x != f :: files[x]
    ensures |Open(files, k)| == |Open(rest, k)| + Owed(files[f].kind, k)
  {
    assert Open(files, k) == Open(rest, k) + (if files[f].kind == k then {f} else {});
  }

  /** The description is gone, its end of the terminal not yet told. */
  lemma EndsOwed(files: map<nat, File>, f: nat, rest: map<nat, File>, ptys: map<nat, Pty>)
    requires Ends(files, ptys, Plain) && f in files && rest == map x | x in files && x != f :: files[x]
    ensures Ends(rest, ptys, files[f].kind)
  {
    forall t | t in ptys
      ensures |Open(files, Master(t))| == |Open(rest, Master(t))| + Owed(files[f].kind, Master(t))
      ensures |Open(files, Slave(t))| == |Open(rest, Slave(t))| + Owed(files[f].kind, Slave(t))
    {
      OpenRemoved(files, f, rest, Master(t));
      OpenRemoved(files, f, rest, Slave(t));
    }
  }

  /** A new description, its end of the terminal already counted in ts. */
  lemma EndsOpened(files: map<nat, File>, f: nat, g: File, ptys: map<nat, Pty>, ts: map<nat, Pty>)
    requires Ends(files, ptys, Plain) && f !in files && OnTerminal(g.kind, ts)
    requires ptys.Keys <= ts.Keys
    requires forall t :: t in ts ==>
      && ts[t].masters == ts[t].kernel + |Open(files, Master(t))| + Owed(g.kind, Master(t))
      && ts[t].slaves == |Open(files, Slave(t))| + Owed(g.kind, Slave(t))
      && (ts[t].hung <==> ts[t].masters == 0)
    ensures Ends(files[f := g], ts, Plain)
  {
    forall t | t in ts
      ensures |Open(files[f := g], Master(t))| == |Open(files, Master(t))| + Owed(g.kind, Master(t))
      ensures |Open(files[f := g], Slave(t))| == |Open(files, Slave(t))| + Owed(g.kind, Slave(t))
    {
      OpenAdded(files, f, g, Master(t));
      OpenAdded(files, f, g, Slave(t));
    }
  }

  lemma NobodyOpens(files: map<nat, File>, ptys: map<nat, Pty>, t: nat)
    requires Ends(files, ptys, Plain) && t !in ptys
    ensures |Open(files, Master(t))| == 0 && |Open(files, Slave(t))| == 0
  {
    assert Open(files, Master(t)) == {} && Open(files, Slave(t)) == {};
  }

  // ---- an end closes ------------------------------------------------------------------------------

  /** Terminal t after its counts became those of p: freed when nothing needs it. */
  function Replaced(ptys: map<nat, Pty>, t: nat, p: Pty): map<nat, Pty> {
    if Needed(p) then ptys[t := p] else map u | u in ptys && u != t :: ptys[u]
  }

  lemma ReplacedHeld(ps: seq<Proc>, ptys: map<nat, Pty>, t: nat, p: Pty)
    requires Held(ps, ptys) && t in ptys && p.holds == ptys[t].holds
    ensures Held(ps, Replaced(ptys, t, p))
  {
    hide Holders;
    forall i | 0 <= i < |ps| && ps[i].ctty.Some?
      ensures ps[i].ctty.value in Replaced(ptys, t, p)
    {
      HoldersPositive(ps, i, ps[i].ctty.value);
    }
  }

  lemma ReplacedEnds(files: map<nat, File>, ptys: map<nat, Pty>, t: nat, p: Pty, owed: Kind)
    requires Ends(files, ptys, owed) && t in ptys && (owed == Master(t) || owed == Slave(t))
    requires p.masters + Owed(owed, Master(t)) == ptys[t].masters && p.slaves + Owed(owed, Slave(t)) == ptys[t].slaves
    requires p.kernel == ptys[t].kernel && (p.hung <==> p.masters == 0)
    ensures Ends(files, Replaced(ptys, t, p), Plain)
  {
    forall f | f in files
      ensures OnTerminal(files[f].kind, Replaced(ptys, t, p))
    {
      assert f in Open(files, files[f].kind);
    }
  }

  /** A hangup was told: the session lost the terminal. */
  lemma HungUp(files: map<nat, File>, ps: seq<Proc>, ts: map<nat, Pty>, t: nat, qs: seq<Proc>)
    requires Named(ps, ts, -1) && Ends(files, ts, Plain) && t in ts && qs == Without(ps, t, -1, |ps|)
    ensures Named(qs, Rebalance(ts[t := ts[t].(sid := 0, fg := 0)], qs), -1)
    ensures Ends(files, Rebalance(ts[t := ts[t].(sid := 0, fg := 0)], qs), Plain)
    ensures SameEnds(ts, Rebalance(ts[t := ts[t].(sid := 0, fg := 0)], qs))
  {
    hide Open;
    hide Rebalance;
    var mid := ts[t := ts[t].(sid := 0, fg := 0)];
    var us := Rebalance(mid, qs);
    ClearedNamed(ps, ts, t, qs, 0);
    RebalanceEnds(mid, qs);
    NamedSessions(qs, mid, us, -1);
    SameEndsTrans(ts, mid, us);
    EndsKept(files, ts, us);
  }
}
