/**
 Where the consumer loop cuts its fetches into batches: a function of what the fetches bring and
 of what the clock says, and what it means position by position.
 */
module BatchPlan {
  import opened Wrappers
  import opened Collecting

  /** One FetchMessage call: a message, the flush deadline, a stop (context cancelled or
      reader closed), or any other error. */
  datatype Fetch<+M> = Message(msg: M) | DeadlineExceeded | Stopped | FetchError

  function Messages<M>(fetches: seq<Fetch<M>>): seq<M> {
    Collect((f: Fetch<M>) => if f.Message? then [f.msg] else [], fetches)
  }

  function Decodable<M, R>(decode: M -> Option<R>, msgs: seq<M>): seq<M> {
    Collect(m => if decode(m).Some? then [m] else [], msgs)
  }

  function Undecodable<M, R>(decode: M -> Option<R>, msgs: seq<M>): seq<M> {
    Collect(m => if decode(m).None? then [m] else [], msgs)
  }

  function IfDecodable<M, R>(decode: M -> Option<R>, msg: M): seq<M> {
    if decode(msg).Some? then [msg] else []
  }

  function IfUndecodable<M, R>(decode: M -> Option<R>, msg: M): seq<M> {
    if decode(msg).None? then [msg] else []
  }

  /**
   One batch: the messages at `from` to `to - 1`, the first clock reading behind its opening, the
   number of its readings, the messages it flushes and those committed on their own.
   */
  datatype Stretch<+M> = Stretch(from: nat, to: nat, tick: nat, readings: nat, msgs: seq<M>, singles: seq<M>)

  /** How the inner loop ends: behind the last message taken, behind the last fetch, ... */
  datatype Filled<+M> = Filled(to: nat, pos: nat, tick: nat, stopped: bool, msgs: seq<M>, singles: seq<M>)

  /** The inner loop. */
  ghost function Fill<M, R>(
    decode: M -> Option<R>, batchSize: nat, script: seq<Fetch<M>>, clock: nat -> bool, pos: nat, tick: nat,
    msgs: seq<M>, singles: seq<M>): (f: Filled<M>)
    requires pos <= |script|
    ensures pos <= f.to <= f.pos <= |script| && tick <= f.tick
    decreases |script| - pos
  {
    if |msgs| >= batchSize then Filled(pos, pos, tick, false, msgs, singles)
    else if !clock(tick) then Filled(pos, pos, tick + 1, false, msgs, singles)
    else if pos == |script| || script[pos].Stopped? then Filled(pos, pos, tick + 1, true, msgs, singles)
    else if !script[pos].Message? then Filled(pos, pos + 1, tick + 1, false, msgs, singles)
    else Fill(decode, batchSize, script, clock, pos + 1, tick + 1,
              msgs + IfDecodable(decode, script[pos].msg), singles + IfUndecodable(decode, script[pos].msg))
  }

  /** All batches of a run, where it stops, and how often it reads the clock. */
  datatype Plan<+M> = Plan(cut: seq<Stretch<M>>, stop: nat, ticks: nat)

  ghost function Opened<M, R>(
    decode: M -> Option<R>, batchSize: nat, script: seq<Fetch<M>>, clock: nat -> bool, pos: nat, tick: nat)
    : (f: Filled<M>)
    requires pos < |script| && script[pos].Message?
    ensures pos < f.to <= f.pos <= |script| && tick <= f.tick
  {
    Fill(decode, batchSize, script, clock, pos + 1, tick,
         IfDecodable(decode, script[pos].msg), IfUndecodable(decode, script[pos].msg))
  }

  ghost function StretchAt<M, R>(
    decode: M -> Option<R>, batchSize: nat, script: seq<Fetch<M>>, clock: nat -> bool, pos: nat, tick: nat): Stretch<M>
    requires pos < |script| && script[pos].Message?
  {
    var f := Opened(decode, batchSize, script, clock, pos, tick);
    Stretch(pos, f.to, tick, f.tick - tick, f.msgs, f.singles)
  }

  /** The outer loop. */
  ghost function PlanFrom<M, R>(
    decode: M -> Option<R>, batchSize: nat, script: seq<Fetch<M>>, clock: nat -> bool, pos: nat, tick: nat): Plan<M>
    requires pos <= |script|
    decreases |script| - pos
  {
    if pos == |script| || script[pos].Stopped? then Plan([], pos, tick)
    else if !script[pos].Message? then PlanFrom(decode, batchSize, script, clock, pos + 1, tick)
    else
      var f := Opened(decode, batchSize, script, clock, pos, tick);
      var c := StretchAt(decode, batchSize, script, clock, pos, tick);
      if f.stopped then Plan([c], f.pos, f.tick)
      else
        var rest := PlanFrom(decode, batchSize, script, clock, f.pos, f.tick);
        Plan([c] + rest.cut, rest.stop, rest.ticks)
  }

  /******* What it means *******/

  /**
   A batch: a row of messages without an interruption.  In front of each the batch had room, and the
   clock, read before each but the first, was before the deadline.  It ends where it is full; or where
   one more reading finds the deadline passed, or the fetch behind it brings no message.
   */
  ghost predicate IsStretch<M, R>(
    decode: M -> Option<R>, batchSize: nat, script: seq<Fetch<M>>, clock: nat -> bool, c: Stretch<M>)
  {
    && c.from < c.to <= |script|
    && (forall p :: c.from <= p < c.to ==> script[p].Message?)
    && (forall j: nat :: c.tick <= j < c.tick + (c.to - c.from - 1) ==> clock(j))
    && (forall p :: c.from <= p < c.to ==> |Decodable(decode, Messages(script[c.from..p]))| < batchSize)
    && c.msgs == Decodable(decode, Messages(script[c.from..c.to]))
    && c.singles == Undecodable(decode, Messages(script[c.from..c.to]))
    && if |c.msgs| >= batchSize then c.readings == c.to - c.from - 1
       else
         && c.readings == c.to - c.from
         && (clock(c.tick + c.readings - 1) ==> c.to == |script| || !script[c.to].Message?)
  }

  /** A batch that was opened at `from` and has taken all messages before `pos`. */
  ghost predicate IsOpen<M, R>(
    decode: M -> Option<R>, batchSize: nat, script: seq<Fetch<M>>, clock: nat -> bool, from: nat, tick0: nat,
    pos: nat, tick: nat, msgs: seq<M>, singles: seq<M>)
  {
    && from < pos <= |script| && tick == tick0 + (pos - from - 1)
    && (forall p :: from <= p < pos ==> script[p].Message?)
    && (forall j: nat :: tick0 <= j < tick ==> clock(j))
    && (forall p :: from <= p < pos ==> |Decodable(decode, Messages(script[from..p]))| < batchSize)
    && msgs == Decodable(decode, Messages(script[from..pos]))
    && singles == Undecodable(decode, Messages(script[from..pos]))
  }

  lemma MessagesNext<M, R>(decode: M -> Option<R>, script: seq<Fetch<M>>, from: nat, pos: nat)
    requires from <= pos < |script| && script[pos].Message?
    ensures Decodable(decode, Messages(script[from..pos + 1]))
         == Decodable(decode, Messages(script[from..pos])) + IfDecodable(decode, script[pos].msg)
    ensures Undecodable(decode, Messages(script[from..pos + 1]))
         == Undecodable(decode, Messages(script[from..pos])) + IfUndecodable(decode, script[pos].msg)
  {
    var before := Messages(script[from..pos]);
    assert script[from..pos + 1] == script[from..pos] + [script[pos]];
    CollectAdd((f: Fetch<M>) => if f.Message? then [f.msg] else [], script[from..pos], script[pos]);
    CollectAdd(m => if decode(m).Some? then [m] else [], before, script[pos].msg);
    CollectAdd(m => if decode(m).None? then [m] else [], before, script[pos].msg);
  }

  lemma OpensAt<M, R>(
    decode: M -> Option<R>, batchSize: nat, script: seq<Fetch<M>>, clock: nat -> bool, pos: nat, tick: nat)
    requires pos < |script| && script[pos].Message? && batchSize > 0
    ensures IsOpen(decode, batchSize, script, clock, pos, tick, pos + 1, tick,
                   IfDecodable(decode, script[pos].msg), IfUndecodable(decode, script[pos].msg))
  {
    MessagesNext(decode, script, pos, pos);
    assert script[pos..pos] == [];
    assert [] + IfDecodable(decode, script[pos].msg) == IfDecodable(decode, script[pos].msg);
    assert [] + IfUndecodable(decode, script[pos].msg) == IfUndecodable(decode, script[pos].msg);
  }

  lemma StaysOpen<M, R>(
    decode: M -> Option<R>, batchSize: nat, script: seq<Fetch<M>>, clock: nat -> bool, from: nat, tick0: nat,
    pos: nat, tick: nat, msgs: seq<M>, singles: seq<M>)
    requires IsOpen(decode, batchSize, script, clock, from, tick0, pos, tick, msgs, singles)
    requires |msgs| < batchSize && clock(tick) && pos < |script| && script[pos].Message?
    ensures IsOpen(decode, batchSize, script, clock, from, tick0, pos + 1, tick + 1,
                   msgs + IfDecodable(decode, script[pos].msg), singles + IfUndecodable(decode, script[pos].msg))
  {
    MessagesNext(decode, script, from, pos);
  }

  /** Why a batch is closed. */
  lemma Closes<M, R>(
    decode: M -> Option<R>, batchSize: nat, script: seq<Fetch<M>>, clock: nat -> bool, from: nat, tick0: nat,
    pos: nat, tick: nat, msgs: seq<M>, singles: seq<M>)
    requires IsOpen(decode, batchSize, script, clock, from, tick0, pos, tick, msgs, singles)
    requires |msgs| < batchSize && clock(tick) ==> pos == |script| || !script[pos].Message?
    ensures IsStretch(decode, batchSize, script, clock,
                      Stretch(from, pos, tick0, tick - tick0 + (if |msgs| >= batchSize then 0 else 1), msgs, singles))
  {
  }

  /** What the inner loop has come to: a batch, and behind it at most a fetch that brought no message. */
  ghost predicate Closed<M, R>(
    decode: M -> Option<R>, batchSize: nat, script: seq<Fetch<M>>, clock: nat -> bool, from: nat, tick0: nat,
    f: Filled<M>)
    requires f.to <= f.pos <= |script| && tick0 <= f.tick
  {
    && IsStretch(decode, batchSize, script, clock, Stretch(from, f.to, tick0, f.tick - tick0, f.msgs, f.singles))
    && (forall p :: f.to <= p < f.pos ==> !script[p].Message? && !script[p].Stopped?)
    && (f.stopped && f.pos < |script| ==> script[f.pos].Stopped?)
  }

  lemma {:induction false} FillMeans<M, R>(
    decode: M -> Option<R>, batchSize: nat, script: seq<Fetch<M>>, clock: nat -> bool, from: nat, tick0: nat,
    pos: nat, tick: nat, msgs: seq<M>, singles: seq<M>) returns (f: Filled<M>)
    requires IsOpen(decode, batchSize, script, clock, from, tick0, pos, tick, msgs, singles)
    ensures f == Fill(decode, batchSize, script, clock, pos, tick, msgs, singles)
    ensures f.to <= f.pos <= |script| && tick0 <= f.tick && Closed(decode, batchSize, script, clock, from, tick0, f)
    decreases |script| - pos
  {
    if |msgs| < batchSize && clock(tick) && pos < |script| && script[pos].Message? {
      var m := script[pos].msg;
      StaysOpen(decode, batchSize, script, clock, from, tick0, pos, tick, msgs, singles);
      f := FillMeans(decode, batchSize, script, clock, from, tick0, pos + 1, tick + 1,
                     msgs + IfDecodable(decode, m), singles + IfUndecodable(decode, m));
    } else {
      Closes(decode, batchSize, script, clock, from, tick0, pos, tick, msgs, singles);
      FillStops(decode, batchSize, script, clock, pos, tick, msgs, singles);
      f := Fill(decode, batchSize, script, clock, pos, tick, msgs, singles);
    }
  }

  lemma FillStops<M, R>(
    decode: M -> Option<R>, batchSize: nat, script: seq<Fetch<M>>, clock: nat -> bool, pos: nat, tick: nat,
    msgs: seq<M>, singles: seq<M>)
    requires pos <= |script| && (|msgs| < batchSize && clock(tick) ==> pos == |script| || !script[pos].Message?)
    ensures var f := Fill(decode, batchSize, script, clock, pos, tick, msgs, singles);
            && f.to == pos && f.tick == tick + (if |msgs| >= batchSize then 0 else 1)
            && f.msgs == msgs && f.singles == singles
            && (forall p :: f.to <= p < f.pos ==> !script[p].Message? && !script[p].Stopped?)
            && (f.stopped && f.pos < |script| ==> script[f.pos].Stopped?)
  {
  }

  lemma StretchMeans<M, R>(
    decode: M -> Option<R>, batchSize: nat, script: seq<Fetch<M>>, clock: nat -> bool, pos: nat, tick: nat)
    requires pos < |script| && script[pos].Message? && batchSize > 0
    ensures var f := Opened(decode, batchSize, script, clock, pos, tick);
            Closed(decode, batchSize, script, clock, pos, tick, f)
  {
    OpensAt(decode, batchSize, script, clock, pos, tick);
    var f := FillMeans(decode, batchSize, script, clock, pos, tick, pos + 1, tick,
                       IfDecodable(decode, script[pos].msg), IfUndecodable(decode, script[pos].msg));
  }

  /** Where a run from `pos` stops: nowhere before. */
  ghost predicate StopsAt<M>(script: seq<Fetch<M>>, pos: nat, stop: nat) {
    && pos <= stop <= |script| && (stop < |script| ==> script[stop].Stopped?)
    && forall p :: pos <= p < stop ==> !script[p].Stopped?
  }

  ghost predicate AreStretches<M, R>(
    decode: M -> Option<R>, batchSize: nat, script: seq<Fetch<M>>, clock: nat -> bool, cut: seq<Stretch<M>>)
  {
    forall k :: 0 <= k < |cut| ==> IsStretch(decode, batchSize, script, clock, cut[k])
  }

  /** One behind the other, between `pos` and `stop`, with consecutive readings of the clock. */
  ghost predicate Consecutive<M>(cut: seq<Stretch<M>>, pos: nat, tick: nat, stop: nat, ticks: nat) {
    && (forall k :: 0 <= k < |cut| ==> pos <= cut[k].from && cut[k].to <= stop)
    && (forall k :: 0 < k < |cut| ==>
          cut[k - 1].to <= cut[k].from && cut[k].tick == cut[k - 1].tick + cut[k - 1].readings)
    && (if cut == [] then ticks == tick
        else cut[0].tick == tick && ticks == cut[|cut| - 1].tick + cut[|cut| - 1].readings)
  }

  ghost predicate InOne<M>(cut: seq<Stretch<M>>, p: nat) {
    exists k :: 0 <= k < |cut| && cut[k].from <= p < cut[k].to
  }

  ghost predicate Covers<M>(script: seq<Fetch<M>>, cut: seq<Stretch<M>>, pos: nat, stop: nat)
    requires stop <= |script|
  {
    forall p :: pos <= p < stop && script[p].Message? ==> InOne(cut, p)
  }

  /**
   A run from `pos`: its batches are stretches of the script, one behind the other, with consecutive
   clock readings; every message in front of the stop is in one of them, and nothing stopped before.
   */
  ghost predicate IsCut<M, R>(
    decode: M -> Option<R>, batchSize: nat, script: seq<Fetch<M>>, clock: nat -> bool, pos: nat, tick: nat,
    plan: Plan<M>)
  {
    && StopsAt(script, pos, plan.stop)
    && AreStretches(decode, batchSize, script, clock, plan.cut)
    && Consecutive(plan.cut, pos, tick, plan.stop, plan.ticks)
    && Covers(script, plan.cut, pos, plan.stop)
  }

  lemma {:induction false} PlanMeans<M, R>(
    decode: M -> Option<R>, batchSize: nat, script: seq<Fetch<M>>, clock: nat -> bool, pos: nat, tick: nat)
    requires pos <= |script| && batchSize > 0
    ensures IsCut(decode, batchSize, script, clock, pos, tick, PlanFrom(decode, batchSize, script, clock, pos, tick))
    decreases |script| - pos
  {
    if pos < |script| && !script[pos].Stopped? {
      if script[pos].Message? {
        var f := Opened(decode, batchSize, script, clock, pos, tick);
        StretchMeans(decode, batchSize, script, clock, pos, tick);
        if f.stopped {
          PlanEnds(decode, batchSize, script, clock, pos, tick);
        } else {
          PlanMeans(decode, batchSize, script, clock, f.pos, f.tick);
          PlanOpens(decode, batchSize, script, clock, pos, tick);
        }
      } else {
        PlanMeans(decode, batchSize, script, clock, pos + 1, tick);
        PlanSkips(decode, batchSize, script, clock, pos, tick);
      }
    } else {
      PlanStops(decode, batchSize, script, clock, pos, tick);
    }
  }

  lemma PlanStops<M, R>(
    decode: M -> Option<R>, batchSize: nat, script: seq<Fetch<M>>, clock: nat -> bool, pos: nat, tick: nat)
    requires pos <= |script| && (pos < |script| ==> script[pos].Stopped?)
    ensures IsCut(decode, batchSize, script, clock, pos, tick, PlanFrom(decode, batchSize, script, clock, pos, tick))
  {
  }

  lemma PlanSkips<M, R>(
    decode: M -> Option<R>, batchSize: nat, script: seq<Fetch<M>>, clock: nat -> bool, pos: nat, tick: nat)
    requires pos < |script| && !script[pos].Message? && !script[pos].Stopped?
    requires IsCut(decode, batchSize, script, clock, pos + 1, tick,
                   PlanFrom(decode, batchSize, script, clock, pos + 1, tick))
    ensures IsCut(decode, batchSize, script, clock, pos, tick, PlanFrom(decode, batchSize, script, clock, pos, tick))
  {
    var plan := PlanFrom(decode, batchSize, script, clock, pos + 1, tick);
    assert StopsAt(script, pos, plan.stop) && Covers(script, plan.cut, pos, plan.stop);
  }

  /** The batch that a message opens is the last one of a run that stops in it. */
  lemma PlanEnds<M, R>(
    decode: M -> Option<R>, batchSize: nat, script: seq<Fetch<M>>, clock: nat -> bool, pos: nat, tick: nat)
    requires pos < |script| && script[pos].Message?
    requires var f := Opened(decode, batchSize, script, clock, pos, tick);
             f.stopped && Closed(decode, batchSize, script, clock, pos, tick, f)
    ensures IsCut(decode, batchSize, script, clock, pos, tick, PlanFrom(decode, batchSize, script, clock, pos, tick))
  {
    var f := Opened(decode, batchSize, script, clock, pos, tick);
    var c := StretchAt(decode, batchSize, script, clock, pos, tick);
    assert [c] + [] == [c];
    assert IsCut(decode, batchSize, script, clock, f.pos, f.tick, Plan([], f.pos, f.tick));
    FirstStretch(decode, batchSize, script, clock, c, f.pos, Plan([], f.pos, f.tick));
  }

  /** Else the run goes on behind it. */
  lemma PlanOpens<M, R>(
    decode: M -> Option<R>, batchSize: nat, script: seq<Fetch<M>>, clock: nat -> bool, pos: nat, tick: nat)
    requires pos < |script| && script[pos].Message?
    requires var f := Opened(decode, batchSize, script, clock, pos, tick);
             && !f.stopped && Closed(decode, batchSize, script, clock, pos, tick, f)
             && IsCut(decode, batchSize, script, clock, f.pos, f.tick,
                      PlanFrom(decode, batchSize, script, clock, f.pos, f.tick))
    ensures IsCut(decode, batchSize, script, clock, pos, tick, PlanFrom(decode, batchSize, script, clock, pos, tick))
  {
    var f := Opened(decode, batchSize, script, clock, pos, tick);
    FirstStretch(decode, batchSize, script, clock, StretchAt(decode, batchSize, script, clock, pos, tick), f.pos,
                 PlanFrom(decode, batchSize, script, clock, f.pos, f.tick));
  }

  lemma FirstStretch<M, R>(
    decode: M -> Option<R>, batchSize: nat, script: seq<Fetch<M>>, clock: nat -> bool, c: Stretch<M>, pos: nat,
    rest: Plan<M>)
    requires IsStretch(decode, batchSize, script, clock, c) && c.to <= pos <= |script|
    requires forall p :: c.to <= p < pos ==> !script[p].Message? && !script[p].Stopped?
    requires IsCut(decode, batchSize, script, clock, pos, c.tick + c.readings, rest)
    ensures IsCut(decode, batchSize, script, clock, c.from, c.tick, Plan([c] + rest.cut, rest.stop, rest.ticks))
  {
    FirstStops(decode, batchSize, script, clock, c, pos, rest.stop);
    FirstIsStretch(decode, batchSize, script, clock, c, rest.cut);
    FirstConsecutive(c, rest.cut, pos, rest.stop, rest.ticks);
    FirstCovers(script, c, rest.cut, pos, rest.stop);
  }

  lemma FirstStops<M, R>(
    decode: M -> Option<R>, batchSize: nat, script: seq<Fetch<M>>, clock: nat -> bool, c: Stretch<M>, pos: nat,
    stop: nat)
    requires IsStretch(decode, batchSize, script, clock, c) && c.to <= pos <= |script| && StopsAt(script, pos, stop)
    requires forall p :: c.to <= p < pos ==> !script[p].Message? && !script[p].Stopped?
    ensures c.from < c.to <= pos && StopsAt(script, c.from, stop)
  {
    assert forall p :: c.from <= p < c.to ==> script[p].Message?;
  }

  lemma FirstIsStretch<M, R>(
    decode: M -> Option<R>, batchSize: nat, script: seq<Fetch<M>>, clock: nat -> bool, c: Stretch<M>,
    cut: seq<Stretch<M>>)
    requires IsStretch(decode, batchSize, script, clock, c) && AreStretches(decode, batchSize, script, clock, cut)
    ensures AreStretches(decode, batchSize, script, clock, [c] + cut)
  {
    forall k | 0 <= k < |[c] + cut| ensures IsStretch(decode, batchSize, script, clock, ([c] + cut)[k]) {
      if k > 0 {
        assert ([c] + cut)[k] == cut[k - 1];
      }
    }
  }

  lemma FirstConsecutive<M>(c: Stretch<M>, cut: seq<Stretch<M>>, pos: nat, stop: nat, ticks: nat)
    requires c.from < c.to <= pos <= stop && Consecutive(cut, pos, c.tick + c.readings, stop, ticks)
    ensures Consecutive([c] + cut, c.from, c.tick, stop, ticks)
  {
    var all := [c] + cut;
    assert forall k :: 0 < k < |all| ==> all[k] == cut[k - 1];
    forall k | 0 < k < |all|
      ensures all[k - 1].to <= all[k].from && all[k].tick == all[k - 1].tick + all[k - 1].readings
    {
      if k > 1 {
        assert cut[k - 2].to <= cut[k - 1].from;
      }
    }
  }

  lemma FirstCovers<M>(script: seq<Fetch<M>>, c: Stretch<M>, cut: seq<Stretch<M>>, pos: nat, stop: nat)
    requires c.from < c.to <= pos <= stop <= |script| && Covers(script, cut, pos, stop)
    requires forall p :: c.to <= p < pos ==> !script[p].Message?
    ensures Covers(script, [c] + cut, c.from, stop)
  {
    var all := [c] + cut;
    forall p: nat | c.from <= p < stop && script[p].Message? ensures InOne(all, p) {
      if p < c.to {
        assert all[0].from <= p < all[0].to;
      } else {
        assert InOne(cut, p);
        var k :| 0 <= k < |cut| && cut[k].from <= p < cut[k].to;
        assert all[k + 1] == cut[k];
      }
    }
  }
}
