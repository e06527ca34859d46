/** The output ring between a kernel command and the program that waits for it (kernel/app.c:2183-2330):
    one producer, one consumer, each step of either interleaved with the other's in any order. */
module CommandRing {

  const KJ_OUT: nat := 4096
  const CHUNK: nat := 512

  type byte = x: int | 0 <= x < 0x100

  datatype Option<T> = None | Some(value: T)

  /** Slot i places after `at`, around the ring. */
  function Slot(at: nat, i: nat): nat {
    if at + i < KJ_OUT then at + i else at + i - KJ_OUT
  }

  function Count(ot: nat, oh: nat): nat
    requires ot < KJ_OUT && oh < KJ_OUT
  {
    if oh >= ot then oh - ot else oh - ot + KJ_OUT
  }

  /** What lies between the consumer's index and the producer's. */
  function Contents(out: seq<byte>, ot: nat, oh: nat): (c: seq<byte>)
    requires |out| == KJ_OUT && ot < KJ_OUT && oh < KJ_OUT
    ensures |c| == Count(ot, oh)
  {
    seq(Count(ot, oh), i requires 0 <= i < Count(ot, oh) => out[Slot(ot, i)])
  }

  function Next(i: nat): nat {
    (i + 1) % KJ_OUT
  }

  lemma NextIs(i: nat)
    requires i < KJ_OUT
    ensures Next(i) == if i == KJ_OUT - 1 then 0 else i + 1
  {}

  /** A byte stored at the producer's index is not yet part of the contents. */
  lemma StoreKeeps(out: seq<byte>, ot: nat, oh: nat, c: byte)
    requires |out| == KJ_OUT && ot < KJ_OUT && oh < KJ_OUT
    ensures Contents(out[oh := c], ot, oh) == Contents(out, ot, oh)
  {}

  /** Moving the producer's index on adds the byte it passed. */
  lemma Published(out: seq<byte>, ot: nat, oh: nat)
    requires |out| == KJ_OUT && ot < KJ_OUT && oh < KJ_OUT && Next(oh) != ot
    ensures Contents(out, ot, Next(oh)) == Contents(out, ot, oh) + [out[oh]]
  {
    NextIs(oh);
  }

  /** Moving the consumer's index on takes the first byte away. */
  lemma Consumed(out: seq<byte>, ot: nat, oh: nat)
    requires |out| == KJ_OUT && ot < KJ_OUT && oh < KJ_OUT && ot != oh
    ensures Contents(out, ot, oh) == [out[ot]] + Contents(out, Next(ot), oh)
  {
    NextIs(ot);
  }

  lemma AllMoved(out: seq<byte>, ot: nat, oh: nat)
    requires |out| == KJ_OUT && ot < KJ_OUT && oh < KJ_OUT
    ensures Contents(out, ot, oh) == [] <==> ot == oh
  {}

  /** Writing some more of the chunk keeps what is delivered in step with what was moved. */
  lemma Written(moved: seq<byte>, delivered: seq<byte>, tmp: seq<byte>, written: nat, n: nat)
    requires written + n <= |tmp| && moved == delivered + tmp[written..]
    ensures moved == (delivered + tmp[written..written + n]) + tmp[written + n..]
  {
    assert tmp[written..] == tmp[written..written + n] + tmp[written + n..];
  }

  // ---- the answers of fd_write ----------------------------------------------------------------------

  /** How many of the answers took bytes. */
  function Positive(answers: seq<int>): nat {
    if answers == [] then 0
    else Positive(answers[..|answers| - 1]) + if answers[|answers| - 1] > 0 then 1 else 0
  }

  /** Neither bytes taken nor put off. */
  predicate Fails(r: int) {
    r <= 0 && r != -11
  }

  /** The job is cancelled exactly by the last of the answers used, when that is a failure. */
  ghost predicate Answered(answers: seq<int>, at: nat, next: nat, cancel: bool)
    requires at <= next <= |answers|
  {
    && (forall i :: at <= i < next - 1 ==> !Fails(answers[i]))
    && (cancel <==> at < next && Fails(answers[next - 1]))
  }

  lemma {:induction false} PositiveSplit(answers: seq<int>, at: nat, a: nat, b: nat)
    requires at <= a <= b <= |answers|
    ensures Positive(answers[at..b]) == Positive(answers[at..a]) + Positive(answers[a..b])
  {
    if a < b {
      PositiveSplit(answers, at, a, b - 1);
      assert answers[at..b][..b - at - 1] == answers[at..b - 1];
      assert answers[a..b][..b - a - 1] == answers[a..b - 1];
    } else {
      assert answers[a..b] == [];
    }
  }

  /** One step of the producer, of the consumer, or of the world around them. */
  datatype Step =
    | Store(c: byte)
    | Publish
    | Take
    | Consume
    | StartWriting
    | Write(r: int)
    | EndWrite
    | Cancel

  /** A step that may cancel the job. */
  predicate Cancels(s: Step) {
    s.Cancel? || (s.Write? && Fails(s.r))
  }

  class Job {
    const out: array<byte>
    var oh: nat
    var ot: nat
    var cancel: bool
    /** kcmd_put between storing a byte and moving oh on. */
    var stored: bool
    /** kcmd_out between copying a byte and moving ot on. */
    var taken: Option<byte>
    /** kcmd_out's chunk, how much of it is written, and whether it is being written. */
    var tmp: seq<byte>
    var written: nat
    var writing: bool
    ghost var put: seq<byte>
    ghost var moved: seq<byte>
    ghost var delivered: seq<byte>

    /** What was put is what was moved out followed by what is in the ring; what was moved out is what
        was delivered followed by what waits in the chunk, unless the job was cancelled. */
    ghost predicate Inv()
      reads this, out
    {
      && out.Length == KJ_OUT && ot < KJ_OUT && oh < KJ_OUT
      && put == moved + Contents(out[..], ot, oh)
      && (stored ==> Next(oh) != ot)
      && (taken.Some? ==> ot != oh && taken.value == out[ot] && !writing && |tmp| < CHUNK)
      && |tmp| <= CHUNK && written <= |tmp| && (!writing ==> written == 0)
      && delivered <= moved
      && (!cancel ==> moved == delivered + tmp[written..])
    }

    constructor ()
      ensures Inv() && put == [] && moved == [] && delivered == [] && !cancel && fresh(out)
    {
      out := new byte[KJ_OUT];
      oh, ot, cancel, stored, taken := 0, 0, false, false, None;
      tmp, written, writing := [], 0, false;
      put, moved, delivered := [], [], [];
    }

    /** The producer stores a byte where it will publish it, when the ring is not full. */
    method StoreByte(c: byte)
      requires Inv()
      modifies this`stored, out
      ensures Inv() && (!old(stored) && Next(oh) != ot ==> stored && out[oh] == c)
    {
      if stored || Next(oh) == ot { return; }
      ghost var before := out[..];
      StoreKeeps(before, ot, oh, c);
      out[oh] := c;
      assert out[..] == before[oh := c];
      stored := true;
    }

    /** The producer moves its index on. */
    method PublishByte()
      requires Inv()
      modifies this`stored, this`oh, this`put
      ensures Inv() && !stored && put == if old(stored) then old(put) + [out[old(oh)]] else old(put)
    {
      if !stored { return; }
      Published(out[..], ot, oh);
      put := put + [out[oh]];
      oh := Next(oh);
      stored := false;
    }

    /** The consumer copies the byte at its index. */
    method TakeByte()
      requires Inv()
      modifies this`taken
      ensures Inv()
      ensures taken == if old(taken).None? && !writing && |tmp| < CHUNK && ot != oh then Some(out[ot]) else old(taken)
    {
      if taken.Some? || writing || |tmp| >= CHUNK || ot == oh { return; }
      taken := Some(out[ot]);
    }

    /** The consumer moves its index on. */
    method ConsumeByte()
      requires Inv()
      modifies this`taken, this`tmp, this`ot, this`moved
      ensures Inv() && taken.None?
      ensures old(taken).Some? ==> moved == old(moved) + [old(taken).value] && tmp == old(tmp) + [old(taken).value]
      ensures old(taken).None? ==> moved == old(moved) && tmp == old(tmp) && ot == old(ot)
    {
      if taken.None? { return; }
      Consumed(out[..], ot, oh);
      moved := moved + [taken.value];
      tmp := tmp + [taken.value];
      ot := Next(ot);
      taken := None;
    }

    /** The chunk is full, or the ring was seen empty: it is written out. */
    method BeginWriting()
      requires Inv()
      modifies this`writing
      ensures Inv() && writing == (old(writing) || (taken.None? && (|tmp| == CHUNK || ot == oh)))
    {
      if taken.None? && (|tmp| == CHUNK || ot == oh) { writing := true; }
    }

    /** fd_write answered r: some bytes went (never more than it was given), none could go now (-11), or it
        failed and the job is cancelled. */
    method WriteSome(r: int)
      requires Inv()
      modifies this`written, this`cancel, this`delivered
      ensures Inv()
      ensures !(old(writing) && old(written) < |tmp| && !old(cancel)) || r == -11 ==>
        written == old(written) && cancel == old(cancel) && delivered == old(delivered)
      ensures old(writing) && old(written) < |tmp| && !old(cancel) && r > 0 ==>
        !cancel && old(written) < written && delivered == old(delivered) + tmp[old(written)..written]
      ensures old(writing) && old(written) < |tmp| && !old(cancel) && Fails(r) ==>
        cancel && written == old(written) && delivered == old(delivered)
    {
      if writing && written < |tmp| && !cancel {
        if r == -11 { return; }
        if r <= 0 {
          cancel := true;
          return;
        }
        var n := if r <= |tmp| - written then r else |tmp| - written;
        Written(moved, delivered, tmp, written, n);
        delivered := delivered + tmp[written..written + n];
        written := written + n;
      }
    }

    /** The chunk is all written, or the job cancelled: kcmd_out returns whether there was something. */
    method EndWriting() returns (busy: bool)
      requires Inv()
      modifies this`tmp, this`written, this`writing
      ensures Inv() && busy == (|old(tmp)| != 0)
      ensures old(writing) && (old(written) == |old(tmp)| || cancel) ==> tmp == [] && written == 0 && !writing
    {
      busy := |tmp| != 0;
      if writing && (written == |tmp| || cancel) {
        tmp, written, writing := [], 0, false;
      }
    }

    /** The program is being stopped, or cannot take more. */
    method CancelJob()
      requires Inv()
      modifies this`cancel
      ensures Inv() && cancel
    {
      cancel := true;
    }

    method Do(s: Step)
      requires Inv()
      modifies this, out
      ensures Inv() && old(put) <= put && (cancel ==> old(cancel) || Cancels(s)) && (s.Cancel? ==> cancel)
    {
      match s {
        case Store(c) => StoreByte(c);
        case Publish => PublishByte();
        case Take => TakeByte();
        case Consume => ConsumeByte();
        case StartWriting => BeginWriting();
        case Write(r) => WriteSome(r);
        case EndWrite => var busy := EndWriting();
        case Cancel => CancelJob();
      }
    }

    // ---- the program's side as the loops it is ---------------------------------------------------------

    /** kcmd_out's first loop, begun anew or where it was interrupted: the next bytes, up to a full chunk. */
    method Gather()
      requires Inv() && !stored && !writing
      modifies this`taken, this`tmp, this`ot, this`moved, this`writing
      ensures Inv() && writing && (|tmp| == CHUNK || moved == put)
      ensures |moved| - |old(moved)| == |tmp| - |old(tmp)| >= 0
    {
      ConsumeByte();
      while |tmp| < CHUNK && ot != oh
        invariant Inv() && !stored && !writing && taken.None?
        invariant |moved| - |old(moved)| == |tmp| - |old(tmp)| >= 0
        decreases CHUNK - |tmp|
      {
        TakeByte();
        ConsumeByte();
      }
      BeginWriting();
      AllMoved(out[..], ot, oh);
    }

    /** kcmd_out's second loop on the answers of fd_write from `at` on, until the chunk is gone or the job is
        cancelled, or the answers end. */
    method WriteChunk(answers: seq<int>, at: nat) returns (next: nat)
      requires Inv() && writing && at <= |answers|
      modifies this`written, this`cancel, this`delivered
      ensures Inv() && at <= next <= |answers| && old(delivered) <= delivered
      ensures written == |tmp| || cancel || next == |answers|
      ensures old(cancel) ==> cancel && next == at && delivered == old(delivered)
      ensures !old(cancel) ==> Answered(answers, at, next, cancel)
      ensures !cancel ==> Positive(answers[at..next]) <= |delivered| - |old(delivered)|
    {
      next := at;
      assert answers[at..at] == [];
      while written < |tmp| && !cancel && next < |answers|
        invariant Inv() && writing && at <= next <= |answers| && old(delivered) <= delivered
        invariant old(cancel) ==> cancel && next == at && delivered == old(delivered)
        invariant !old(cancel) ==> Answered(answers, at, next, cancel)
        invariant !cancel ==> Positive(answers[at..next]) <= |delivered| - |old(delivered)|
        decreases |answers| - next
      {
        assert answers[at..next + 1] == answers[at..next] + [answers[next]];
        WriteSome(answers[next]);
        next := next + 1;
      }
    }

    /** kcmd_out: gathers a chunk, writes it, and says whether there was one. */
    method Out(answers: seq<int>, at: nat) returns (busy: bool, next: nat, waiting: bool)
      requires Inv() && !stored && at <= |answers|
      modifies this`taken, this`tmp, this`ot, this`moved, this`writing, this`written, this`cancel, this`delivered
      ensures Inv() && at <= next <= |answers| && old(delivered) <= delivered && |old(moved)| <= |moved|
      ensures old(cancel) ==> cancel && next == at && delivered == old(delivered)
      ensures !old(cancel) ==> Answered(answers, at, next, cancel)
      ensures !cancel ==> Positive(answers[at..next]) <= |delivered| - |old(delivered)|
      ensures waiting ==> !cancel && next == |answers| && |delivered| < |put|
      ensures !waiting ==> tmp == [] && !writing && taken.None?
      ensures !waiting && busy ==> |old(moved)| < |moved| || |old(tmp)| > 0
      ensures !waiting && !busy && !old(writing) ==> moved == put
    {
      if !writing { Gather(); }
      next := WriteChunk(answers, at);
      waiting := written < |tmp| && !cancel;
      if waiting {
        return true, next, true;
      }
      busy := EndWriting();
    }

    /** kcmd_drain, once the command has returned: chunk after chunk until there is none or the job is
        cancelled. Uncancelled, everything put was delivered, in order; cancelled, what was delivered is a
        prefix. It is still waiting only if fd_write took something fewer times than bytes were left. */
    method Drain(answers: seq<int>, at: nat) returns (next: nat, waiting: bool)
      requires Inv() && !stored && !writing && tmp == [] && taken.None? && at <= |answers|
      modifies this`taken, this`tmp, this`ot, this`moved, this`writing, this`written, this`cancel, this`delivered
      ensures Inv() && at <= next <= |answers| && old(delivered) <= delivered <= put && (old(cancel) ==> cancel)
      ensures !cancel && !waiting ==> delivered == put
      ensures waiting ==> !cancel && Positive(answers[at..]) < |put| - |old(delivered)|
      ensures !old(cancel) ==> Answered(answers, at, next, cancel)
    {
      next, waiting := at, false;
      var busy := true;
      assert answers[at..at] == [];
      while !cancel && busy
        invariant Inv() && !stored && !writing && tmp == [] && taken.None? && at <= next <= |answers| && !waiting
        invariant old(delivered) <= delivered && (!busy ==> moved == put) && (old(cancel) ==> cancel)
        invariant !old(cancel) ==> Answered(answers, at, next, cancel)
        invariant !cancel ==> Positive(answers[at..next]) <= |delivered| - |old(delivered)|
        decreases busy, |put| - |moved|
      {
        MovedOfPut();
        ghost var before := next;
        busy, next, waiting := Out(answers, next);
        PositiveSplit(answers, at, before, next);
        MovedOfPut();
        if waiting {
          assert answers[at..next] == answers[at..];
          break;
        }
      }
      MovedOfPut();
    }

    lemma MovedOfPut()
      requires Inv()
      ensures moved <= put && delivered <= put
    {}
  }

  /** Under every interleaving: what was put, in order, is what was moved out followed by what is still in
      the ring, and what was delivered is a prefix of it. */
  method Run(schedule: seq<Step>) returns (j: Job)
    ensures fresh(j) && fresh(j.out) && j.Inv()
    ensures j.cancel ==> exists i :: 0 <= i < |schedule| && Cancels(schedule[i])
  {
    j := new Job();
    var i := 0;
    while i < |schedule|
      invariant 0 <= i <= |schedule| && fresh(j) && fresh(j.out) && j.Inv()
      invariant j.cancel ==> exists k :: 0 <= k < i && Cancels(schedule[k])
    {
      j.Do(schedule[i]);
      i := i + 1;
    }
  }

  /** A whole job: any interleaving of the command with the program's task, the command's last byte published,
      the kcmd_out under way brought to its end, then kcmd_drain. Not cancelled and with fd_write taking bytes
      often enough, all that was put has arrived. */
  method Command(schedule: seq<Step>, answers: seq<int>) returns (j: Job, waiting: bool)
    ensures fresh(j) && j.Inv() && j.delivered <= j.put
    ensures !j.cancel && !waiting ==> j.delivered == j.put
    ensures Positive(answers) >= |j.put| ==> !waiting
    ensures j.cancel ==>
      || (exists i :: 0 <= i < |schedule| && Cancels(schedule[i]))
      || (exists i :: 0 <= i < |answers| && Fails(answers[i]))
  {
    j := Run(schedule);
    j.PublishByte();
    var busy, next;
    ghost var before := j.delivered;
    busy, next, waiting := j.Out(answers, 0);
    assert answers[0..] == answers;
    assert answers[0..|answers|] == answers;
    j.MovedOfPut();
    if !waiting {
      PositiveSplit(answers, 0, next, |answers|);
      assert answers[next..|answers|] == answers[next..];
      next, waiting := j.Drain(answers, next);
    }
  }

  /** Nothing is ever delivered that was not put before it, and nothing out of order. */
  lemma DeliveredInOrder(j: Job)
    requires j.Inv()
    ensures j.delivered <= j.put && |j.put| <= |j.moved| + KJ_OUT - 1
  {
    assert j.moved <= j.put;
  }
}
