/** Controlling terminals: who holds which, and whose session a terminal names
    (kernel/app.c:3775-3805, kernel/pty.c:144-178). */
module Terminals {
  import opened Processes

  /** A pseudo-terminal: descriptors on either end, holds by processes it controls, whether its
      master hung up, a hangup still to be told, its session and foreground group. `kernel` counts
      the master references the kernel itself keeps. */
  datatype Pty = Pty(masters: nat, slaves: nat, holds: nat, hung: bool, hangup: bool, sid: int, fg: int, kernel: nat)

  function Holders(ps: seq<Proc>, t: nat): nat {
    if |ps| == 0 then 0
    else Holders(ps[..|ps| - 1], t) + if ps[|ps| - 1].ctty == Some(t) then 1 else 0
  }

  function Mark(p: Proc, t: nat): nat {
    if p.ctty == Some(t) then 1 else 0
  }

  lemma {:induction false} HoldersUpdate(ps: seq<Proc>, i: nat, p: Proc, t: nat)
    requires i < |ps|
    ensures Holders(ps[i := p], t) + Mark(ps[i], t) == Holders(ps, t) + Mark(p, t)
  {
    var n := |ps| - 1;
    if i == n {
      assert ps[i := p][..n] == ps[..n];
    } else {
      HoldersUpdate(ps[..n], i, p, t);
      assert ps[i := p][..n] == ps[..n][i := p];
    }
  }

  lemma {:induction false} HoldersPositive(ps: seq<Proc>, i: nat, t: nat)
    requires i < |ps| && ps[i].ctty == Some(t)
    ensures Holders(ps, t) > 0
  {
    if i < |ps| - 1 { HoldersPositive(ps[..|ps| - 1], i, t); }
  }

  lemma {:induction false} NoHolders(ps: seq<Proc>, t: nat)
    requires forall i :: 0 <= i < |ps| ==> ps[i].ctty != Some(t)
    ensures Holders(ps, t) == 0
  {
    if |ps| > 0 { NoHolders(ps[..|ps| - 1], t); }
  }

  lemma {:induction false} SameHolders(ps: seq<Proc>, qs: seq<Proc>, t: nat)
    requires |ps| == |qs| && forall i :: 0 <= i < |ps| ==> ps[i].ctty == qs[i].ctty
    ensures Holders(ps, t) == Holders(qs, t)
  {
    if |ps| > 0 { SameHolders(ps[..|ps| - 1], qs[..|qs| - 1], t); }
  }

  // ---- the laws ----------------------------------------------------------------------------

  /** maybe_free: a terminal stays while an end is open or a process holds it. */
  predicate Needed(t: Pty) {
    t.masters > 0 || t.slaves > 0 || t.holds > 0
  }

  /** Holds are exactly the live processes the terminal controls, and no process names a freed one. */
  ghost predicate Held(ps: seq<Proc>, ptys: map<nat, Pty>) {
    && (forall i :: 0 <= i < |ps| && ps[i].ctty.Some? ==> Live(ps[i]) && ps[i].ctty.value in ptys)
    && (forall t :: t in ptys ==> ptys[t].holds == Holders(ps, t) && Needed(ptys[t]))
  }

  /** Slot i is the live leader of session s, controlled by t. */
  predicate LeadsOn(p: Proc, s: int, t: nat) {
    Live(p) && p.pid == s && p.sid == s && p.ctty == Some(t)
  }

  ghost predicate HasLeader(ps: seq<Proc>, s: int, t: nat) {
    exists i :: 0 <= i < |ps| && LeadsOn(ps[i], s, t)
  }

  /** Apart from terminal x, a controlled process is in the session its terminal names, and that
      session's leader is alive and controlled by the same terminal. */
  ghost predicate Named(ps: seq<Proc>, ptys: map<nat, Pty>, x: int) {
    && (forall i :: 0 <= i < |ps| && ps[i].ctty.Some? && ps[i].ctty.value != x && ps[i].ctty.value in ptys
          ==> ps[i].sid == ptys[ps[i].ctty.value].sid)
    && (forall t :: t in ptys && t != x && ptys[t].sid != 0 ==> HasLeader(ps, ptys[t].sid, t))
  }

  // ---- hold counts after a change of controlling terminals -------------------------------------

  /** The terminals once ps holds them: counts follow, and what nobody needs is freed. */
  function Rebalance(ptys: map<nat, Pty>, ps: seq<Proc>): map<nat, Pty> {
    map t | t in ptys && Needed(ptys[t].(holds := Holders(ps, t))) :: ptys[t].(holds := Holders(ps, t))
  }

  lemma RebalanceKeeps(ptys: map<nat, Pty>, ps: seq<Proc>)
    requires forall i :: 0 <= i < |ps| && ps[i].ctty.Some? ==> Live(ps[i]) && ps[i].ctty.value in ptys
    ensures Held(ps, Rebalance(ptys, ps))
  {
    forall i | 0 <= i < |ps| && ps[i].ctty.Some?
      ensures ps[i].ctty.value in Rebalance(ptys, ps)
    {
      HoldersPositive(ps, i, ps[i].ctty.value);
    }
  }

  lemma RebalanceHeld(ptys: map<nat, Pty>, ps: seq<Proc>)
    requires Held(ps, ptys)
    ensures Rebalance(ptys, ps) == ptys
  {}

  /** Letting go in two rounds frees what letting go at once frees. */
  lemma RebalanceTwice(ptys: map<nat, Pty>, ps: seq<Proc>, qs: seq<Proc>)
    requires forall t :: t in ptys ==> Holders(qs, t) <= Holders(ps, t)
    ensures Rebalance(Rebalance(ptys, ps), qs) == Rebalance(ptys, qs)
  {
    var a, b := Rebalance(Rebalance(ptys, ps), qs), Rebalance(ptys, qs);
    forall t
      ensures t in a <==> t in b
      ensures t in a ==> a[t] == b[t]
    {
      if t in ptys { assert Holders(qs, t) <= Holders(ps, t); }
    }
  }

  /** What pty_hold(t, delta) leaves. */
  function AfterHold(ptys: map<nat, Pty>, t: nat, holds: nat): map<nat, Pty>
    requires t in ptys
  {
    var p := ptys[t].(holds := holds);
    if Needed(p) then ptys[t := p] else map u | u in ptys && u != t :: ptys[u]
  }

  lemma AfterHoldAt(ptys: map<nat, Pty>, t: nat, holds: nat, u: nat)
    requires t in ptys
    ensures u in AfterHold(ptys, t, holds) <==> u in ptys && (u == t ==> Needed(ptys[t].(holds := holds)))
    ensures u in AfterHold(ptys, t, holds) ==>
      AfterHold(ptys, t, holds)[u] == if u == t then ptys[t].(holds := holds) else ptys[u]
  {}

  /** The terminals after one hold on c is taken. */
  function Taken(ptys: map<nat, Pty>, c: Option<nat>): map<nat, Pty>
    requires c.Some? ==> c.value in ptys
  {
    if c.Some? then AfterHold(ptys, c.value, ptys[c.value].holds + 1) else ptys
  }

  /** The terminals after one hold on c is let go. */
  function LetGo(ptys: map<nat, Pty>, c: Option<nat>): map<nat, Pty>
    requires c.Some? ==> c.value in ptys && ptys[c.value].holds > 0
  {
    if c.Some? then AfterHold(ptys, c.value, ptys[c.value].holds - 1) else ptys
  }

  /** ctty_set: one hold taken, then one let go. */
  lemma CttySetRebalances(ps: seq<Proc>, i: nat, c: Option<nat>, ptys: map<nat, Pty>)
    requires i < |ps| && Held(ps, ptys) && (c.Some? ==> c.value in ptys) && ps[i].ctty != c
    ensures var was := ps[i].ctty;
            && (was.Some? ==> was.value in Taken(ptys, c) && Taken(ptys, c)[was.value].holds > 0)
            && LetGo(Taken(ptys, c), was) == Rebalance(ptys, ps[i := ps[i].(ctty := c)])
  {
    hide Holders;
    hide AfterHold;
    var qs := ps[i := ps[i].(ctty := c)];
    var was := ps[i].ctty;
    var taken := Taken(ptys, c);
    if was.Some? {
      HoldersPositive(ps, i, was.value);
      if c.Some? { AfterHoldAt(ptys, c.value, ptys[c.value].holds + 1, was.value); }
    }
    forall t: nat
      ensures t in LetGo(taken, was) <==> t in Rebalance(ptys, qs)
      ensures t in LetGo(taken, was) ==> LetGo(taken, was)[t] == Rebalance(ptys, qs)[t]
    {
      HoldersUpdate(ps, i, qs[i], t);
      if c.Some? { AfterHoldAt(ptys, c.value, ptys[c.value].holds + 1, t); }
      if was.Some? { AfterHoldAt(taken, was.value, taken[was.value].holds - 1, t); }
    }
  }

  // ---- changes that keep names and ends -------------------------------------------------------

  /** Some terminals may be gone, the others name the same sessions. */
  ghost predicate SameSessions(a: map<nat, Pty>, b: map<nat, Pty>) {
    b.Keys <= a.Keys && forall t :: t in b ==> b[t].sid == a[t].sid
  }

  lemma NamedSessions(ps: seq<Proc>, a: map<nat, Pty>, b: map<nat, Pty>, x: int)
    requires Named(ps, a, x) && SameSessions(a, b)
    ensures Named(ps, b, x)
  {}

  lemma NoTtyHeld(ps: seq<Proc>, i: nat, q: Proc, ptys: map<nat, Pty>)
    requires Held(ps, ptys) && i < |ps| && ps[i].ctty == None && q.ctty == None
    ensures Held(ps[i := q], ptys)
  {
    hide Holders;
    forall t: nat
      ensures Holders(ps[i := q], t) == Holders(ps, t)
    {
      SameHolders(ps, ps[i := q], t);
    }
  }

  /** Slot i, which leads no terminal's session, becomes a process without a terminal. */
  lemma NoTtyNamed(ps: seq<Proc>, i: nat, q: Proc, ptys: map<nat, Pty>)
    requires Named(ps, ptys, -1) && i < |ps| && q.ctty == None && (ps[i].ctty == None || ps[i].sid != ps[i].pid)
    ensures Named(ps[i := q], ptys, -1)
  {
    forall t: nat | t in ptys && ptys[t].sid != 0
      ensures HasLeader(ps[i := q], ptys[t].sid, t)
    {
      var j :| 0 <= j < |ps| && LeadsOn(ps[j], ptys[t].sid, t);
      assert LeadsOn(ps[i := q][j], ptys[t].sid, t);
    }
  }

  /** Slot i keeps what names and holds depend on. */
  lemma SameSeatNamed(ps: seq<Proc>, i: nat, q: Proc, ptys: map<nat, Pty>)
    requires Named(ps, ptys, -1) && Held(ps, ptys) && i < |ps|
    requires q.ctty == ps[i].ctty && q.sid == ps[i].sid && q.pid == ps[i].pid && (Live(q) <==> Live(ps[i]))
    ensures Named(ps[i := q], ptys, -1) && Held(ps[i := q], ptys)
  {
    forall t: nat | t in ptys && ptys[t].sid != 0
      ensures HasLeader(ps[i := q], ptys[t].sid, t)
    {
      var j :| 0 <= j < |ps| && LeadsOn(ps[j], ptys[t].sid, t);
      assert LeadsOn(ps[i := q][j], ptys[t].sid, t);
    }
    hide Holders;
    forall t: nat
      ensures Holders(ps[i := q], t) == Holders(ps, t)
    {
      SameHolders(ps, ps[i := q], t);
    }
  }

  /** Slot c, without a terminal so far, joins slot p's session and terminal. */
  lemma JoinNamed(ps: seq<Proc>, c: nat, q: Proc, p: nat, ptys: map<nat, Pty>)
    requires Named(ps, ptys, -1) && c < |ps| && p < |ps| && ps[c].ctty == None && q.ctty == ps[p].ctty
      && q.sid == ps[p].sid
    ensures Named(ps[c := q], ptys, -1)
  {
    forall t: nat | t in ptys && ptys[t].sid != 0
      ensures HasLeader(ps[c := q], ptys[t].sid, t)
    {
      var j :| 0 <= j < |ps| && LeadsOn(ps[j], ptys[t].sid, t);
      assert LeadsOn(ps[c := q][j], ptys[t].sid, t);
    }
  }

  /** A session leader without a terminal takes one that names no session. */
  lemma TakeNamed(ps: seq<Proc>, p: nat, t: nat, ptys: map<nat, Pty>, fg: int)
    requires Named(ps, ptys, -1) && p < |ps| && t in ptys && ptys[t].sid == 0
    requires Live(ps[p]) && ps[p].sid == ps[p].pid && ps[p].ctty == None
    requires forall i :: 0 <= i < |ps| && Live(ps[i]) ==> ps[i].sid > 0
    requires forall i :: 0 <= i < |ps| && ps[i].ctty.Some? ==> Live(ps[i])
    ensures Named(ps[p := ps[p].(ctty := Some(t))], ptys[t := ptys[t].(sid := ps[p].sid, fg := fg)], -1)
  {
    var qs := ps[p := ps[p].(ctty := Some(t))];
    var ts := ptys[t := ptys[t].(sid := ps[p].sid, fg := fg)];
    assert LeadsOn(qs[p], ts[t].sid, t);
    forall u: nat | u in ts && ts[u].sid != 0
      ensures HasLeader(qs, ts[u].sid, u)
    {
      if u != t {
        var j :| 0 <= j < |ps| && LeadsOn(ps[j], ptys[u].sid, u);
        assert LeadsOn(qs[j], ts[u].sid, u);
      }
    }
  }

  // ---- clearing a terminal ----------------------------------------------------------------------

  /** Among the first n slots, every process but slot e that t controlled has lost it. */
  function Without(ps: seq<Proc>, t: nat, e: int, n: nat): (qs: seq<Proc>)
    requires n <= |ps|
    ensures |qs| == |ps|
    ensures forall i ::
      0 <= i < |ps| ==> qs[i] == if ps[i].ctty == Some(t) && i != e && i < n then ps[i].(ctty := None) else ps[i]
  {
    seq(|ps|, i requires 0 <= i < |ps| => if ps[i].ctty == Some(t) && i != e && i < n then ps[i].(ctty := None)
        else ps[i])
  }

  lemma {:induction false} FewerHolders(ps: seq<Proc>, qs: seq<Proc>, t: nat)
    requires |ps| == |qs| && forall i :: 0 <= i < |ps| ==> qs[i].ctty == ps[i].ctty || qs[i].ctty == None
    ensures Holders(qs, t) <= Holders(ps, t)
  {
    if |ps| > 0 { FewerHolders(ps[..|ps| - 1], qs[..|qs| - 1], t); }
  }

  /** One more slot lets go: the counts are still those of letting go at once. */
  lemma RebalanceNext(ptys: map<nat, Pty>, ps: seq<Proc>, qs: seq<Proc>)
    requires |ps| == |qs| && forall i :: 0 <= i < |ps| ==> qs[i].ctty == ps[i].ctty || qs[i].ctty == None
    ensures Rebalance(Rebalance(ptys, ps), qs) == Rebalance(ptys, qs)
  {
    hide Holders;
    forall t: nat
      ensures Holders(qs, t) <= Holders(ps, t)
    {
      FewerHolders(ps, qs, t);
    }
    RebalanceTwice(ptys, ps, qs);
  }

  /** With t naming no session and controlling nobody, every other name stands. */
  lemma ClearedNamed(ps: seq<Proc>, ptys: map<nat, Pty>, t: nat, qs: seq<Proc>, fg: int)
    requires Named(ps, ptys, t) && t in ptys && qs == Without(ps, t, -1, |ps|)
    ensures Named(qs, ptys[t := ptys[t].(sid := 0, fg := fg)], -1)
  {
    var ts := ptys[t := ptys[t].(sid := 0, fg := fg)];
    forall u: nat | u in ts && ts[u].sid != 0
      ensures HasLeader(qs, ts[u].sid, u)
    {
      var j :| 0 <= j < |ps| && LeadsOn(ps[j], ptys[u].sid, u);
      assert LeadsOn(qs[j], ts[u].sid, u);
    }
  }
}
