/** What holds in every state of every interleaving of a writer and a reader on a pipe. */
module PipeRuns {
  import opened Ring
  import opened PipeSpec

  // ----- one step

  lemma CreatedOk(buffer: seq<Byte>, source: seq<Byte>, want: nat)
    requires |buffer| <= INT32_MAX
    ensures Inv(CreatePipe(buffer, source, want))
  {
    if |buffer| > 0 { Remainder(0, |buffer|, 0, 0); }
  }

  /** A store always hits a cell of the buffer, never one that holds an unread byte, and never
      the one a reader is about to take; a load always takes the oldest unread byte. */
  lemma AccessesSafe(p: Pipe)
    requires Inv(p)
    ensures p.writer.WStore? ==> p.writePos < Size(p) && p.calls == p.sent < |p.source|
    ensures p.writer.WStore? ==> forall k :: |p.got| <= k < p.sent ==> k % Size(p) != p.writePos
    ensures p.reader.RLoad? ==> p.readPos < Size(p) && |p.got| < p.sent && p.buffer[p.readPos] == p.source[|p.got|]
    ensures p.writer.WStore? && p.reader.RLoad? ==> p.readPos != p.writePos
  {
    if p.reader.RLoad? { assert Holds(p.buffer, p.source, |p.got|); }
    if p.writer.WStore? {
      forall k | |p.got| <= k < p.sent ensures k % Size(p) != p.writePos {
        ModDistinct(k, p.sent, Size(p));
      }
    }
  }

  lemma StoreKeepsFaithful(p: Pipe)
    requires Inv(p) && p.writer.WStore?
    ensures WriterEnabled(p) && Faithful(WriterStep(p))
  {
    AccessesSafe(p);
    var r := WriterStep(p);
    forall k | |r.got| <= k < r.sent ensures Holds(r.buffer, r.source, k) {
      if k < p.sent { assert Holds(p.buffer, p.source, k); }
    }
  }

  lemma PrefixGrows(got: seq<Byte>, source: seq<Byte>, b: Byte)
    requires |got| < |source| && got == source[..|got|] && b == source[|got|]
    ensures got + [b] == source[..|got| + 1]
  {
  }

  lemma LoadKeepsFaithful(p: Pipe)
    requires Inv(p) && p.reader.RLoad?
    ensures ReaderEnabled(p) && Faithful(ReaderStep(p))
  {
    AccessesSafe(p);
    hide Accounted, Parked, Placed, Holds;
    PrefixGrows(p.got, p.source, p.buffer[p.readPos]);
  }

  lemma WriterKeepsPlaced(p: Pipe)
    requires Inv(p) && WriterEnabled(p)
    ensures Placed(WriterStep(p))
  {
    hide Faithful, Accounted;
    if p.writer.WAdvance? { WriterAdvances(p); }
  }

  lemma WriterAdvances(p: Pipe)
    requires Placed(p) && p.writer.WAdvance? && p.sent >= 1 && |p.got| >= One(p.reader.RAdvance?)
    ensures Placed(WriterStep(p))
  {
    if Size(p) > 0 { ModNext(p.sent - 1, Size(p)); }
  }

  lemma ReaderKeepsPlaced(p: Pipe)
    requires Inv(p) && ReaderEnabled(p)
    ensures Placed(ReaderStep(p))
  {
    hide Faithful, Accounted;
    if p.reader.RAdvance? { ReaderAdvances(p); }
  }

  lemma ReaderAdvances(p: Pipe)
    requires Placed(p) && p.reader.RAdvance? && |p.got| >= 1 && p.sent >= One(p.writer.WAdvance?)
    ensures Placed(ReaderStep(p))
  {
    if Size(p) > 0 { ModNext(|p.got| - 1, Size(p)); }
  }

  lemma WriterKeepsCounts(p: Pipe)
    requires Inv(p) && WriterEnabled(p)
    ensures Accounted(WriterStep(p)) && Parked(WriterStep(p))
    ensures !p.writer.WStore? ==> Faithful(WriterStep(p))
    ensures var r := WriterStep(p); r.sent >= One(r.writer.WAdvance?) && |r.got| >= One(r.reader.RAdvance?)
  {
    hide Placed;
  }

  lemma ReaderKeepsCounts(p: Pipe)
    requires Inv(p) && ReaderEnabled(p)
    ensures Accounted(ReaderStep(p)) && Parked(ReaderStep(p))
    ensures !p.reader.RLoad? ==> Faithful(ReaderStep(p))
    ensures var r := ReaderStep(p); r.sent >= One(r.writer.WAdvance?) && |r.got| >= One(r.reader.RAdvance?)
  {
    hide Placed;
  }

  lemma StepKeeps(p: Pipe, t: Turn)
    requires Inv(p) && Enabled(p, t)
    ensures Inv(Step(p, t))
  {
    hide WriterStep, ReaderStep, Accounted, Parked, Placed, Faithful, WriterEnabled, ReaderEnabled;
    match t
    case WriterTurn =>
      WriterKeepsPlaced(p);
      WriterKeepsCounts(p);
      if p.writer.WStore? { StoreKeepsFaithful(p); }
    case ReaderTurn =>
      ReaderKeepsPlaced(p);
      ReaderKeepsCounts(p);
      if p.reader.RLoad? { LoadKeepsFaithful(p); }
  }

  // ----- every run

  ghost predicate IsRun(states: seq<Pipe>, turns: seq<Turn>) {
    && |states| == |turns| + 1
    && forall k :: 0 <= k < |turns| ==> Enabled(states[k], turns[k]) && states[k + 1] == Step(states[k], turns[k])
  }

  /** Over every interleaving: the bytes read are a prefix of the bytes to be written, and slots,
      messages and operations in progress add up to the size. */
  lemma {:induction false} RunInv(states: seq<Pipe>, turns: seq<Turn>, n: nat)
    requires IsRun(states, turns) && Inv(states[0]) && n < |states|
    ensures Inv(states[n]) && states[n].source == states[0].source && states[n].want == states[0].want
    ensures Size(states[n]) == Size(states[0])
  {
    hide Inv, Enabled, Step;
    if n > 0 {
      RunInv(states, turns, n - 1);
      StepKeeps(states[n - 1], turns[n - 1]);
      StepConstants(states[n - 1], turns[n - 1]);
    }
  }

  lemma StepConstants(p: Pipe, t: Turn)
    requires Enabled(p, t)
    ensures var r := Step(p, t); r.source == p.source && r.want == p.want && Size(r) == Size(p)
  {
  }

  // ----- no deadlock, and an end

  /** From a sound state both threads wait for each other only in a pipe of size 0. */
  lemma NoDeadlock(p: Pipe)
    requires Inv(p) && p.writer.WWaiting? && p.reader.RWaiting?
    ensures Size(p) == 0
  {
  }

  /** A pipe of size 0, or of a size that is negative as an int32, deadlocks as soon as both sides
      have something to do. */
  lemma BadSizeDeadlocks(buffer: seq<Byte>, source: seq<Byte>, want: nat)
    requires |buffer| <= UINT32_MAX && source != [] && want > 0
    requires |buffer| == 0 || |buffer| > INT32_MAX
    ensures var p := CreatePipe(buffer, source, want);
            var q := ReaderStep(WriterStep(p));
            WriterEnabled(p) && ReaderEnabled(WriterStep(p)) && q.writer.WWaiting? && q.reader.RWaiting?
            && !WriterEnabled(q) && !ReaderEnabled(q)
  {
  }

  /** Some interleaving from here leaves both threads waiting for each other. */
  ghost predicate CanDeadlock(p: Pipe) {
    exists states, turns :: IsRun(states, turns) && states[0] == p && Deadlocked(states[|turns|])
  }

  ghost predicate Deadlocked(p: Pipe) {
    p.writer.WWaiting? && p.reader.RWaiting?
  }

  /** A pipe between a writer and a reader that both have something to do is free of deadlock
      exactly when its size is positive as an int32. */
  lemma DeadlockFreeIff(buffer: seq<Byte>, source: seq<Byte>, want: nat)
    requires |buffer| <= UINT32_MAX && source != [] && want > 0
    ensures !CanDeadlock(CreatePipe(buffer, source, want)) <==> 0 < |buffer| <= INT32_MAX
  {
    var p := CreatePipe(buffer, source, want);
    if 0 < |buffer| <= INT32_MAX {
      CreatedOk(buffer, source, want);
      forall states: seq<Pipe>, turns: seq<Turn> | IsRun(states, turns) && states[0] == p
        ensures !Deadlocked(states[|turns|])
      {
        hide IsRun, Inv;
        RunInv(states, turns, |turns|);
        if Deadlocked(states[|turns|]) { NoDeadlock(states[|turns|]); }
      }
    } else {
      BadSizeDeadlocks(buffer, source, want);
      var states, turns := [p, WriterStep(p), ReaderStep(WriterStep(p))], [WriterTurn, ReaderTurn];
      assert IsRun(states, turns) && Deadlocked(states[|turns|]);
    }
  }

  function WriterRank(pc: WriterPc): nat {
    match pc case WIdle => 5 case WWaiting => 4 case WStore => 3 case WAdvance => 2 case WSignal => 1
  }

  function ReaderRank(pc: ReaderPc): nat {
    match pc case RIdle => 5 case RWaiting => 4 case RLoad => 3 case RAdvance => 2 case RSignal => 1
  }

  /** Steps still to be taken, at most. */
  function Left(p: Pipe): int {
    5 * (|p.source| - p.calls) + WriterRank(p.writer) + 5 * (p.want - p.done) + ReaderRank(p.reader) - 10
  }

  /** Every run ends: no interleaving is longer than five steps a byte. */
  lemma {:induction false} RunsEnd(states: seq<Pipe>, turns: seq<Turn>, n: nat)
    requires IsRun(states, turns) && Inv(states[0]) && n < |states|
    ensures n <= Left(states[0]) - Left(states[n]) && Left(states[n]) >= 0
  {
    hide Inv, Enabled, Step, Left;
    RunInv(states, turns, n);
    LeftNotNegative(states[n]);
    if n > 0 {
      RunsEnd(states, turns, n - 1);
      RunInv(states, turns, n - 1);
      StepFalls(states[n - 1], turns[n - 1]);
    }
  }

  lemma LeftNotNegative(p: Pipe)
    requires Inv(p)
    ensures Left(p) >= 0
  {
  }

  lemma StepFalls(p: Pipe, t: Turn)
    requires Inv(p) && Enabled(p, t)
    ensures Left(Step(p, t)) < Left(p)
  {
    hide Placed, Faithful;
  }

  function Min(a: nat, b: nat): nat {
    if a < b then a else b
  }

  /** Whatever the interleaving, when neither side can go on the reader holds exactly the first
      min(|source|, want) bytes, in order; the writer got through its whole buffer exactly when
      what was not asked for fits in the pipe. */
  lemma {:induction false} EndOfRun(states: seq<Pipe>, turns: seq<Turn>, buffer: seq<Byte>, source: seq<Byte>,
                                    want: nat)
    requires 0 < |buffer| <= INT32_MAX && IsRun(states, turns) && states[0] == CreatePipe(buffer, source, want)
    requires var p := states[|turns|]; !WriterEnabled(p) && !ReaderEnabled(p)
    ensures var p := states[|turns|];
            && p.got == source[..Min(|source|, want)]
            && (p.done == want <==> want <= |source|)
            && (p.calls == |source| <==> |source| <= want + |buffer|)
  {
    hide Inv, Step, WriterEnabled, ReaderEnabled;
    CreatedOk(buffer, source, want);
    RunInv(states, turns, |turns|);
    StuckDelivered(states[|turns|]);
  }

  lemma StuckDelivered(p: Pipe)
    requires Inv(p) && Size(p) > 0 && !WriterEnabled(p) && !ReaderEnabled(p)
    ensures p.got == p.source[..Min(|p.source|, p.want)]
    ensures p.done == p.want <==> p.want <= |p.source|
    ensures p.calls == |p.source| <==> |p.source| <= p.want + Size(p)
  {
    AccessesSafe(p);
    if p.writer.WWaiting? && p.reader.RWaiting? { NoDeadlock(p); }
  }

  /** A waiting writer is let through by the reader's next four steps at the latest, and the
      reader is never held up meanwhile. */
  lemma WriterReleased(p: Pipe)
    requires Inv(p) && Size(p) > 0 && p.writer.WWaiting? && p.done < p.want
    ensures ReaderEnabled(p)
    ensures var q := ReaderStep(p);
              Inv(q) && (q.writer.WStore?
              || (q.writer.WWaiting? && ReaderRank(q.reader) < ReaderRank(p.reader) && !q.reader.RWaiting?))
  {
    AccessesSafe(p);
    if p.reader.RWaiting? { NoDeadlock(p); }
    StepKeeps(p, ReaderTurn);
  }

  /** And a waiting reader by the writer's. */
  lemma ReaderReleased(p: Pipe)
    requires Inv(p) && Size(p) > 0 && p.reader.RWaiting? && p.calls < |p.source|
    ensures WriterEnabled(p)
    ensures var q := WriterStep(p);
              Inv(q) && (q.reader.RLoad?
              || (q.reader.RWaiting? && WriterRank(q.writer) < WriterRank(p.writer) && !q.writer.WWaiting?))
  {
    AccessesSafe(p);
    if p.writer.WWaiting? { NoDeadlock(p); }
    StepKeeps(p, WriterTurn);
  }
}
