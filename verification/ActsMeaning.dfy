/**
 What a flush sends to Kafka, act by act: the dead letters of the rejected rows, in order, and then
 the commit of exactly its own messages; nothing if the connection was lost.
 */
module ActsMeaning {
  import opened Wrappers
  import opened RowFold
  import opened Collecting
  import opened UserLetters
  import opened ConsumerLoop

  lemma {:induction false} RowActs<M, R>(rows: seq<R>)
    ensures var acts := DeadAll<M, R>(RowLetters<M, R>(rows));
            |acts| == |rows| && forall i :: 0 <= i < |rows| ==> acts[i] == Dead(LetterRow(rows[i]))
    decreases rows
  {
    if rows != [] {
      RowActs<M, R>(rows[1..]);
    }
  }

  lemma {:induction false} MessageActs<M, R>(msgs: seq<M>)
    ensures var acts := DeadAll<M, R>(MessageLetters<M, R>(msgs));
            |acts| == |msgs| && forall i :: 0 <= i < |msgs| ==> acts[i] == Dead(LetterMessage(msgs[i]))
    decreases msgs
  {
    if msgs != [] {
      MessageActs<M, R>(msgs[1..]);
    }
  }

  /** Message `j` is the first of the batch whose user has the id. */
  ghost predicate FirstWith<R, K>(id: R -> K, batch: seq<R>, k: K, j: nat) {
    j < |batch| && id(batch[j]) == k && forall l :: 0 <= l < j ==> id(batch[l]) != k
  }

  lemma {:induction false} EventsAt<M, R>(msgs: seq<M>, batch: seq<R>)
    requires |msgs| == |batch|
    ensures |Events(msgs, batch)| == |msgs|
    ensures forall i :: 0 <= i < |msgs| ==> Events(msgs, batch)[i] == Event(msgs[i], batch[i])
    decreases msgs
  {
    if msgs != [] {
      EventsAt(msgs[1..], batch[1..]);
    }
  }

  lemma {:induction false} FirstMessageIs<M, R, K>(id: R -> K, events: seq<Event<M, R>>, j: nat)
    requires j < |events| && forall l :: 0 <= l < j ==> id(events[l].user) != id(events[j].user)
    ensures FirstMessage(id, events, id(events[j].user)) == [events[j].msg]
    decreases j
  {
    if j > 0 {
      assert id(events[0].user) != id(events[j].user);
      FirstMessageIs(id, events[1..], j - 1);
    }
  }

  /** For users of the batch, the search finds one message each. */
  lemma {:induction false} FoundAt<M, R, K>(id: R -> K, msgs: seq<M>, batch: seq<R>, failed: seq<R>, at: seq<nat>)
    requires |msgs| == |batch| && |at| == |failed|
    requires forall i :: 0 <= i < |failed| ==> at[i] < |msgs| && FirstWith(id, batch, id(failed[i]), at[i])
    ensures var found := FoundMessages(id, Events(msgs, batch), failed);
            |found| == |failed| && forall i :: 0 <= i < |failed| ==> found[i] == msgs[at[i]]
    decreases failed
  {
    if failed != [] {
      var events := Events(msgs, batch);
      EventsAt(msgs, batch);
      assert FirstWith(id, batch, id(failed[0]), at[0]);
      FirstMessageIs(id, events, at[0]);
      FoundAt(id, msgs, batch, failed[1..], at[1..]);
    }
  }

  /** What a flush of the task handlers sends. */
  lemma RowFlushSends<M, R, K>(h: Handler<R, K>, batch: seq<R>, msgs: seq<M>, connLost: bool, failed: seq<R>)
    requires h.ByRow?
    ensures var acts := ActsOf(h, Flush(batch, msgs, connLost, failed));
            if connLost then acts == []
            else
              && |acts| == |failed| + 1 && acts[|failed|] == Commit(msgs)
              && forall i :: 0 <= i < |failed| ==> acts[i] == Dead(LetterRow(failed[i]))
  {
    RowActs<M, R>(failed);
  }

  /** What a flush of the user handler sends: for each rejected user the first message of its id. */
  lemma MessageFlushSends<M, R, K>(
    h: Handler<R, K>, batch: seq<R>, msgs: seq<M>, connLost: bool, failed: seq<R>, at: seq<nat>)
    requires h.ByMessage? && |msgs| == |batch| && |at| == |failed|
    requires forall i :: 0 <= i < |failed| ==> at[i] < |msgs| && FirstWith(h.id, batch, h.id(failed[i]), at[i])
    ensures var acts := ActsOf(h, Flush(batch, msgs, connLost, failed));
            if connLost then acts == []
            else
              && |acts| == |failed| + 1 && acts[|failed|] == Commit(msgs)
              && forall i :: 0 <= i < |failed| ==> acts[i] == Dead(LetterMessage(msgs[at[i]]))
  {
    FoundAt(h.id, msgs, batch, failed, at);
    MessageActs<M, R>(FoundMessages(h.id, Events(msgs, batch), failed));
  }

  /** What an undecodable message sends: in the user handler a dead letter, and then its commit. */
  lemma SingleSends<M, R, K>(h: Handler<R, K>, msg: M)
    ensures ActsOf<M, R, K>(h, CommitOne(msg)) ==
            if h.ByMessage? then [Dead(LetterMessage(msg)), Commit([msg])] else [Commit([msg])]
  {
    OneLetter<M, R>(msg);
  }

  /** The rows that are rejected are rows of the batch, so every search finds a message. */
  lemma {:induction false} RejectedAreInBatch<T, M, R, K>(
    apply: (T, R) -> Option<T>, t: T, id: R -> K, batch: seq<R>) returns (at: seq<nat>)
    ensures var failed := Skipped(apply, t, batch);
            && |at| == |failed|
            && forall i :: 0 <= i < |failed| ==> at[i] < |batch| && FirstWith(id, batch, id(failed[i]), at[i])
  {
    var failed := Skipped(apply, t, batch);
    SkippedInRows(apply, t, batch);
    at := [];
    for i := 0 to |failed|
      invariant |at| == i
      invariant forall j :: 0 <= j < i ==> at[j] < |batch| && FirstWith(id, batch, id(failed[j]), at[j])
    {
      assert failed[i] in batch;
      var j :| 0 <= j < |batch| && batch[j] == failed[i];
      var least := LeastWith(id, batch, id(failed[i]), j);
      at := at + [least];
    }
  }

  lemma {:induction false} SkippedInRows<T, R>(apply: (T, R) -> Option<T>, t: T, rows: seq<R>)
    ensures forall r :: r in Skipped(apply, t, rows) ==> r in rows
    decreases rows
  {
    if rows != [] {
      SkippedInRows(apply, Try(apply, t, rows[0]), rows[1..]);
    }
  }

  lemma {:induction false} LeastWith<R, K>(id: R -> K, batch: seq<R>, k: K, j: nat) returns (least: nat)
    requires j < |batch| && id(batch[j]) == k
    ensures FirstWith(id, batch, k, least)
    decreases j
  {
    if l :| 0 <= l < j && id(batch[l]) == k {
      least := LeastWith(id, batch, k, l);
    } else {
      least := j;
    }
  }
}
