/**
 The batching consumer loop of the task-created, task-updated and task-status-updated
 handlers, and of the user-registered handler, over every sequence of fetch outcomes and
 every reading of the clock.
 */
module ConsumerLoop {
  import opened Wrappers
  import opened RowFold
  import opened GoSlices
  import opened BulkWriter
  import opened Collecting
  import opened UserLetters
  import opened BatchPlan

  /** The messages a reader hands out before it stops. */
  function Fetched<M>(script: seq<Fetch<M>>): seq<M> {
    if script == [] || script[0].Stopped? then []
    else (if script[0].Message? then [script[0].msg] else []) + Fetched(script[1..])
  }

  /** The rows in the decodable messages, in order. */
  function Rows<M, R>(decode: M -> Option<R>, msgs: seq<M>): seq<R> {
    Collect(m => if decode(m).Some? then [decode(m).value] else [], msgs)
  }

  /** What the loop did: a single commit of an undecodable message, or a flush and its result. */
  datatype Effect<+M, +R> =
    | CommitOne(msg: M)
    | Flush(batch: seq<R>, msgs: seq<M>, connLost: bool, failed: seq<R>)

  function FlushedMsgs<M, R>(log: seq<Effect<M, R>>): seq<M> {
    Collect((e: Effect<M, R>) => if e.Flush? then e.msgs else [], log)
  }

  function FlushedRows<M, R>(log: seq<Effect<M, R>>): seq<R> {
    Collect((e: Effect<M, R>) => if e.Flush? then e.batch else [], log)
  }

  function SingleCommits<M, R>(log: seq<Effect<M, R>>): seq<M> {
    Collect((e: Effect<M, R>) => if e.CommitOne? then [e.msg] else [], log)
  }

  /** All messages committed, in the order of the commits: a flush commits iff it lost no connection. */
  function Committed<M, R>(log: seq<Effect<M, R>>): seq<M> {
    Collect((e: Effect<M, R>) => if e.CommitOne? then [e.msg] else if e.connLost then [] else e.msgs, log)
  }

  /** The rows that the flushes rejected. */
  function DeadRows<M, R>(log: seq<Effect<M, R>>): seq<R> {
    Collect((e: Effect<M, R>) => if e.Flush? then e.failed else [], log)
  }

  lemma LogAdd<M, R>(log: seq<Effect<M, R>>, e: Effect<M, R>)
    ensures FlushedMsgs(log + [e]) == FlushedMsgs(log) + (if e.Flush? then e.msgs else [])
    ensures FlushedRows(log + [e]) == FlushedRows(log) + (if e.Flush? then e.batch else [])
    ensures SingleCommits(log + [e]) == SingleCommits(log) + (if e.CommitOne? then [e.msg] else [])
  {
    CollectAdd((e: Effect<M, R>) => if e.Flush? then e.msgs else [], log, e);
    CollectAdd((e: Effect<M, R>) => if e.Flush? then e.batch else [], log, e);
    CollectAdd((e: Effect<M, R>) => if e.CommitOne? then [e.msg] else [], log, e);
  }

  /******* What reaches Kafka, in order *******/

  /**
   The task handlers dead-letter rejected rows; the user handler dead-letters messages, found by
   the user's id, and undecodable messages as well.
   */
  datatype Handler<!R, !K> = ByRow | ByMessage(id: R -> K)

  datatype Letter<+M, +R> = LetterRow(row: R) | LetterMessage(msg: M)

  datatype Act<+M, +R> = Dead(letter: Letter<M, R>) | Commit(msgs: seq<M>)

  function RowLetters<M, R>(rows: seq<R>): seq<Letter<M, R>> {
    if rows == [] then [] else [LetterRow(rows[0])] + RowLetters(rows[1..])
  }

  function MessageLetters<M, R>(msgs: seq<M>): seq<Letter<M, R>> {
    if msgs == [] then [] else [LetterMessage(msgs[0])] + MessageLetters(msgs[1..])
  }

  function DeadAll<M, R>(letters: seq<Letter<M, R>>): seq<Act<M, R>> {
    if letters == [] then [] else [Dead(letters[0])] + DeadAll(letters[1..])
  }

  lemma {:induction false} RowLettersConcat<M, R>(a: seq<R>, b: seq<R>)
    ensures RowLetters<M, R>(a + b) == RowLetters<M, R>(a) + RowLetters<M, R>(b)
    decreases a
  {
    if a == [] {
      assert a + b == b;
    } else {
      assert (a + b)[1..] == a[1..] + b;
      RowLettersConcat<M, R>(a[1..], b);
    }
  }

  lemma {:induction false} MessageLettersConcat<M, R>(a: seq<M>, b: seq<M>)
    ensures MessageLetters<M, R>(a + b) == MessageLetters<M, R>(a) + MessageLetters<M, R>(b)
    decreases a
  {
    if a == [] {
      assert a + b == b;
    } else {
      assert (a + b)[1..] == a[1..] + b;
      MessageLettersConcat<M, R>(a[1..], b);
    }
  }

  lemma {:induction false} DeadAllConcat<M, R>(a: seq<Letter<M, R>>, b: seq<Letter<M, R>>)
    ensures DeadAll<M, R>(a + b) == DeadAll<M, R>(a) + DeadAll<M, R>(b)
    decreases a
  {
    if a == [] {
      assert a + b == b;
    } else {
      assert (a + b)[1..] == a[1..] + b;
      DeadAllConcat<M, R>(a[1..], b);
    }
  }

  /** The dead letters of one flush or one undecodable message. */
  function LettersOf<M, R, K(==)>(h: Handler<R, K>, e: Effect<M, R>): seq<Letter<M, R>> {
    match e
    case CommitOne(m) => if h.ByMessage? then [LetterMessage(m)] else []
    case Flush(batch, msgs, connLost, failed) =>
      if connLost then []
      else match h
        case ByRow => RowLetters(failed)
        case ByMessage(id) => MessageLetters(FoundMessages(id, Events(msgs, batch), failed))
  }

  function CommitsOf<M, R>(e: Effect<M, R>): seq<Act<M, R>> {
    match e
    case CommitOne(m) => [Commit([m])]
    case Flush(_, msgs, connLost, _) => if connLost then [] else [Commit(msgs)]
  }

  /** First the dead letters, then the commit; nothing after a lost connection. */
  function ActsOf<M, R, K(==)>(h: Handler<R, K>, e: Effect<M, R>): seq<Act<M, R>> {
    DeadAll(LettersOf(h, e)) + CommitsOf(e)
  }

  function Acts<M, R, K(==)>(h: Handler<R, K>, log: seq<Effect<M, R>>): seq<Act<M, R>> {
    Collect((e: Effect<M, R>) => ActsOf(h, e), log)
  }

  /** The dead letters of a log, in order. */
  function Letters<M, R, K(==)>(h: Handler<R, K>, log: seq<Effect<M, R>>): seq<Letter<M, R>> {
    if log == [] then [] else LettersOf(h, log[0]) + Letters(h, log[1..])
  }

  /** The messages that were committed, and the dead letters, in order. */
  function CommittedIn<M, R>(acts: seq<Act<M, R>>): seq<M> {
    if acts == [] then [] else (if acts[0].Commit? then acts[0].msgs else []) + CommittedIn(acts[1..])
  }

  function LettersIn<M, R>(acts: seq<Act<M, R>>): seq<Letter<M, R>> {
    if acts == [] then [] else (if acts[0].Dead? then [acts[0].letter] else []) + LettersIn(acts[1..])
  }

  lemma {:induction false} LettersInConcat<M, R>(a: seq<Act<M, R>>, b: seq<Act<M, R>>)
    ensures LettersIn<M, R>(a + b) == LettersIn<M, R>(a) + LettersIn<M, R>(b)
    decreases a
  {
    if a == [] {
      assert a + b == b;
    } else {
      var first := if a[0].Dead? then [a[0].letter] else [];
      assert (a + b)[1..] == a[1..] + b && (a + b)[0] == a[0];
      LettersInConcat<M, R>(a[1..], b);
      assert LettersIn(a + b) == first + (LettersIn(a[1..]) + LettersIn(b));
      Assoc(first, LettersIn(a[1..]), LettersIn(b));
    }
  }

  lemma {:induction false} CommittedInConcat<M, R>(a: seq<Act<M, R>>, b: seq<Act<M, R>>)
    ensures CommittedIn<M, R>(a + b) == CommittedIn<M, R>(a) + CommittedIn<M, R>(b)
    decreases a
  {
    if a == [] {
      assert a + b == b;
    } else {
      var first := if a[0].Commit? then a[0].msgs else [];
      assert (a + b)[1..] == a[1..] + b && (a + b)[0] == a[0];
      CommittedInConcat<M, R>(a[1..], b);
      assert CommittedIn(a + b) == first + (CommittedIn(a[1..]) + CommittedIn(b));
      Assoc(first, CommittedIn(a[1..]), CommittedIn(b));
    }
  }

  lemma {:induction false} DeadAllIn<M, R>(letters: seq<Letter<M, R>>)
    ensures LettersIn(DeadAll(letters)) == letters && CommittedIn(DeadAll(letters)) == []
    decreases letters
  {
    if letters != [] {
      DeadAllIn(letters[1..]);
      var l, rest := letters[0], DeadAll(letters[1..]);
      assert DeadAll(letters) == [Dead(l)] + rest && ([Dead(l)] + rest)[1..] == rest;
    }
  }

  lemma CommitsIn<M, R>(e: Effect<M, R>)
    ensures LettersIn(CommitsOf(e)) == []
    ensures CommittedIn(CommitsOf(e)) == if e.CommitOne? then [e.msg] else if e.connLost then [] else e.msgs
  {
    var none: seq<Act<M, R>> := [];
    if CommitsOf(e) != [] {
      assert CommitsOf(e)[1..] == none;
    }
  }

  lemma InActs<M, R, K>(h: Handler<R, K>, e: Effect<M, R>)
    ensures LettersIn(ActsOf(h, e)) == LettersOf(h, e)
    ensures CommittedIn(ActsOf(h, e)) == if e.CommitOne? then [e.msg] else if e.connLost then [] else e.msgs
  {
    var letters := LettersOf(h, e);
    DeadAllIn(letters);
    CommitsIn(e);
    LettersInConcat(DeadAll(letters), CommitsOf(e));
    CommittedInConcat(DeadAll(letters), CommitsOf(e));
    assert letters + [] == letters;
  }

  /** The acts of a log contain its letters and its commits. */
  lemma {:induction false} ActsContain<M, R, K>(h: Handler<R, K>, log: seq<Effect<M, R>>)
    ensures LettersIn(Acts(h, log)) == Letters(h, log)
    ensures CommittedIn(Acts(h, log)) == Committed(log)
    decreases log
  {
    if log != [] {
      ActsContain(h, log[1..]);
      InActs(h, log[0]);
      LettersInConcat(ActsOf(h, log[0]), Acts(h, log[1..]));
      CommittedInConcat(ActsOf(h, log[0]), Acts(h, log[1..]));
    }
  }

  lemma DecodeAdd<M, R>(decode: M -> Option<R>, msgs: seq<M>, m: M)
    ensures Decodable(decode, msgs + [m]) == Decodable(decode, msgs) + (if decode(m).Some? then [m] else [])
    ensures Undecodable(decode, msgs + [m]) == Undecodable(decode, msgs) + (if decode(m).None? then [m] else [])
    ensures Rows(decode, msgs + [m]) == Rows(decode, msgs) + (if decode(m).Some? then [decode(m).value] else [])
  {
    CollectAdd(m => if decode(m).Some? then [m] else [], msgs, m);
    CollectAdd(m => if decode(m).None? then [m] else [], msgs, m);
    CollectAdd(m => if decode(m).Some? then [decode(m).value] else [], msgs, m);
  }

  /** The next fetch outcome of a reader that has not stopped so far. */
  lemma {:induction false} FetchedNext<M>(script: seq<Fetch<M>>, pos: nat)
    requires pos < |script| && Running(script, pos)
    ensures !script[pos].Stopped? ==> Running(script, pos + 1)
    ensures script[pos].Message? ==> Fetched(script[..pos + 1]) == Fetched(script[..pos]) + [script[pos].msg]
    ensures !script[pos].Message? ==> Fetched(script[..pos + 1]) == Fetched(script[..pos])
    ensures script[pos].Stopped? ==> Fetched(script) == Fetched(script[..pos])
    decreases pos
  {
    if pos == 0 {
      assert script[..1][1..] == [];
    } else {
      var rest := script[1..];
      assert script[..pos][1..] == rest[..pos - 1] && script[..pos + 1][1..] == rest[..pos];
      assert script[..pos][0] == script[0] == script[..pos + 1][0] && !script[0].Stopped?;
      FetchedNext(rest, pos - 1);
    }
  }

  /** Whether the batches of the log explain the table: each flush is one run of the bulk
      writer from the table its predecessors left. */
  ghost predicate Explains<T(!new), M, R(!new)>(apply: (T, R) -> Option<T>, t: T, log: seq<Effect<M, R>>, u: T) {
    if log == [] then u == t
    else match log[0]
      case CommitOne(_) => Explains(apply, t, log[1..], u)
      case Flush(batch, _, connLost, failed) =>
        exists v :: Wrote(apply, t, batch, v, failed, connLost) && Explains(apply, v, log[1..], u)
  }

  lemma {:induction false} ExplainsAdd<T(!new), M, R(!new)>(
      apply: (T, R) -> Option<T>, t: T, log: seq<Effect<M, R>>, u: T, e: Effect<M, R>, w: T)
    requires Explains(apply, t, log, u)
    requires e.CommitOne? ==> w == u
    requires e.Flush? ==> Wrote(apply, u, e.batch, w, e.failed, e.connLost)
    ensures Explains(apply, t, log + [e], w)
    decreases log
  {
    if log == [] {
      assert log + [e] == [e] && [e][1..] == [];
      assert Explains(apply, w, [e][1..], w);
    } else {
      assert (log + [e])[1..] == log[1..] + [e];
      match log[0]
      case CommitOne(_) =>
        ExplainsAdd(apply, t, log[1..], u, e, w);
      case Flush(batch, _, connLost, failed) =>
        var v :| Wrote(apply, t, batch, v, failed, connLost) && Explains(apply, v, log[1..], u);
        ExplainsAdd(apply, v, log[1..], u, e, w);
    }
  }

  ghost predicate NothingLost<M, R>(log: seq<Effect<M, R>>) {
    forall e :: e in log && e.Flush? ==> !e.connLost
  }

  /**
   If no flush lost its connection, batching cannot be seen: the table and the dead rows are
   those of the rows taken one at a time, wherever the flushes happened to fall.
   */
  lemma {:induction false} BatchingIsInvisible<T(!new), M, R(!new)>(
      apply: (T, R) -> Option<T>, t: T, log: seq<Effect<M, R>>, u: T)
    requires Explains(apply, t, log, u) && NothingLost(log)
    ensures u == SkipTable(apply, t, FlushedRows(log))
    ensures DeadRows(log) == Skipped(apply, t, FlushedRows(log))
    decreases log
  {
    if log != [] {
      assert log[0] in log && forall e :: e in log[1..] ==> e in log;
      match log[0]
      case CommitOne(_) =>
        BatchingIsInvisible(apply, t, log[1..], u);
        assert [] + FlushedRows(log[1..]) == FlushedRows(log[1..]);
        assert [] + DeadRows(log[1..]) == DeadRows(log[1..]);
      case Flush(batch, _, connLost, failed) =>
        var v :| Wrote(apply, t, batch, v, failed, connLost) && Explains(apply, v, log[1..], u);
        BatchingIsInvisible(apply, v, log[1..], u);
        SkipConcat(apply, t, batch, FlushedRows(log[1..]));
    }
  }

  /** A flushed batch is well formed: not empty, not too large, and row `i` is message `i`. */
  ghost predicate GoodBatch<M, R>(decode: M -> Option<R>, batchSize: nat, batch: seq<R>, msgs: seq<M>) {
    && |batch| == |msgs| <= batchSize
    && forall i :: 0 <= i < |msgs| ==> decode(msgs[i]) == Some(batch[i])
  }

  ghost predicate GoodFlushes<M, R>(decode: M -> Option<R>, batchSize: nat, log: seq<Effect<M, R>>) {
    forall e :: e in log && e.Flush? ==> e.batch != [] && GoodBatch(decode, batchSize, e.batch, e.msgs)
  }

  /** How many flushes had room left in their batch. */
  function ShortFlushes<M, R>(batchSize: nat, log: seq<Effect<M, R>>): nat {
    if log == [] then 0
    else (if log[0].Flush? && |log[0].batch| < batchSize then 1 else 0) + ShortFlushes(batchSize, log[1..])
  }

  lemma {:induction false} ShortFlushesAdd<M, R>(batchSize: nat, log: seq<Effect<M, R>>, e: Effect<M, R>)
    ensures ShortFlushes(batchSize, log + [e])
         == ShortFlushes(batchSize, log) + (if e.Flush? && |e.batch| < batchSize then 1 else 0)
    decreases log
  {
    if log == [] {
      assert log + [e] == [e];
      assert ShortFlushes(batchSize, [e][1..]) == 0;
    } else {
      ShortFlushesAdd(batchSize, log[1..], e);
      assert (log + [e])[1..] == log[1..] + [e] && (log + [e])[0] == log[0];
    }
  }

  /** The fetches that did not bring a message, and the clock readings that found the deadline passed. */
  function Interruptions<M>(script: seq<Fetch<M>>, clock: nat -> bool, ticks: nat): nat
    decreases |script|, ticks
  {
    if script != [] then
      (if script[|script| - 1].Message? then 0 else 1) + Interruptions(script[..|script| - 1], clock, ticks)
    else if ticks > 0 then (if clock(ticks - 1) then 0 else 1) + Interruptions(script, clock, ticks - 1)
    else 0
  }

  lemma {:induction false} ReadingCounts<M>(script: seq<Fetch<M>>, clock: nat -> bool, ticks: nat)
    ensures Interruptions(script, clock, ticks + 1)
         == Interruptions(script, clock, ticks) + (if clock(ticks) then 0 else 1)
    decreases |script|
  {
    if script != [] {
      ReadingCounts(script[..|script| - 1], clock, ticks);
    }
  }

  lemma FetchCounts<M>(script: seq<Fetch<M>>, pos: nat, clock: nat -> bool, ticks: nat)
    requires pos < |script|
    ensures Interruptions(script[..pos + 1], clock, ticks)
         == Interruptions(script[..pos], clock, ticks) + (if script[pos].Message? then 0 else 1)
  {
    assert script[..pos + 1][..pos] == script[..pos];
  }

  lemma {:induction false} MoreFetches<M>(script: seq<Fetch<M>>, pos: nat, clock: nat -> bool, ticks: nat)
    requires pos <= |script|
    ensures Interruptions(script[..pos], clock, ticks) <= Interruptions(script, clock, ticks)
    decreases |script| - pos
  {
    if pos < |script| {
      FetchCounts(script, pos, clock, ticks);
      MoreFetches(script, pos + 1, clock, ticks);
    } else {
      assert script[..pos] == script;
    }
  }

  /** The books of the loop: the messages fetched, what was done with them, what is still
      buffered, the table, and what has reached Kafka. */
  datatype Books<T, M, R> = Books(
    fetched: seq<M>, log: seq<Effect<M, R>>, batch: seq<R>, msgs: seq<M>, table: T, acts: seq<Act<M, R>>)

  /** The parameters of a consumer. */
  datatype Setup<!T(!new), !M, !R(!new), !K> = Setup(
    apply: (T, R) -> Option<T>, decode: M -> Option<R>, batchSize: nat, handler: Handler<R, K>)

  /** The log accounts for every fetched message, every commit and every dead letter. */
  ghost predicate Accounted<T(!new), M, R(!new), K>(
      s: Setup<T, M, R, K>, start: Books<T, M, R>, now: Books<T, M, R>)
  {
    && FlushedMsgs(now.log) + now.msgs == Decodable(s.decode, now.fetched)
    && FlushedRows(now.log) + now.batch == Rows(s.decode, now.fetched)
    && SingleCommits(now.log) == Undecodable(s.decode, now.fetched)
    && now.acts == start.acts + Acts(s.handler, now.log)
  }

  ghost predicate Balanced<T(!new), M, R(!new), K>(
      s: Setup<T, M, R, K>, start: Books<T, M, R>, now: Books<T, M, R>)
  {
    && GoodBatch(s.decode, s.batchSize, now.batch, now.msgs)
    && GoodFlushes(s.decode, s.batchSize, now.log)
    && Accounted(s, start, now)
    && Explains(s.apply, start.table, now.log, now.table)
  }

  /** A decodable message is buffered. */
  lemma BookDecodable<T(!new), M, R(!new), K>(
      s: Setup<T, M, R, K>, start: Books<T, M, R>, now: Books<T, M, R>, msg: M, r: R)
    requires Balanced(s, start, now) && |now.batch| < s.batchSize && s.decode(msg) == Some(r)
    ensures Balanced(s, start, now.(fetched := now.fetched + [msg], batch := now.batch + [r], msgs := now.msgs + [msg]))
  {
    DecodeAdd(s.decode, now.fetched, msg);
    assert FlushedMsgs(now.log) + (now.msgs + [msg]) == (FlushedMsgs(now.log) + now.msgs) + [msg];
    assert FlushedRows(now.log) + (now.batch + [r]) == (FlushedRows(now.log) + now.batch) + [r];
    assert Undecodable(s.decode, now.fetched) + [] == Undecodable(s.decode, now.fetched);
  }

  lemma ActsAdd<M, R, K>(h: Handler<R, K>, log: seq<Effect<M, R>>, e: Effect<M, R>)
    ensures Acts(h, log + [e]) == Acts(h, log) + ActsOf(h, e)
  {
    CollectAdd((e: Effect<M, R>) => ActsOf(h, e), log, e);
  }

  lemma Assoc<A>(a: seq<A>, b: seq<A>, c: seq<A>)
    ensures a + (b + c) == a + b + c
  {
  }

  lemma ActsAfter<M, R, K>(h: Handler<R, K>, acts: seq<Act<M, R>>, log: seq<Effect<M, R>>, e: Effect<M, R>)
    ensures acts + Acts(h, log + [e]) == acts + Acts(h, log) + ActsOf(h, e)
  {
    ActsAdd(h, log, e);
    Assoc(acts, Acts(h, log), ActsOf(h, e));
  }

  /** An undecodable message is committed on its own. */
  lemma BookUndecodable<T(!new), M, R(!new), K>(
      s: Setup<T, M, R, K>, start: Books<T, M, R>, now: Books<T, M, R>, msg: M)
    requires Balanced(s, start, now) && s.decode(msg).None?
    ensures Balanced(s, start, now.(fetched := now.fetched + [msg], log := now.log + [CommitOne(msg)],
                                    acts := now.acts + ActsOf(s.handler, CommitOne(msg))))
  {
    DecodeAdd(s.decode, now.fetched, msg);
    LogAdd(now.log, CommitOne(msg));
    ActsAfter(s.handler, start.acts, now.log, CommitOne(msg));
    ExplainsAdd(s.apply, start.table, now.log, now.table, CommitOne(msg), now.table);
  }

  /** A flush empties the buffer. */
  lemma BookFlush<T(!new), M, R(!new), K>(
      s: Setup<T, M, R, K>, start: Books<T, M, R>, now: Books<T, M, R>, connLost: bool, failed: seq<R>, table: T)
    requires Balanced(s, start, now) && now.batch != []
    requires Wrote(s.apply, now.table, now.batch, table, failed, connLost)
    ensures var e := Flush(now.batch, now.msgs, connLost, failed);
            Balanced(s, start, Books(now.fetched, now.log + [e], [], [], table, now.acts + ActsOf(s.handler, e)))
  {
    var e := Flush(now.batch, now.msgs, connLost, failed);
    LogAdd(now.log, e);
    ActsAfter(s.handler, start.acts, now.log, e);
    assert FlushedMsgs(now.log + [e]) + [] == FlushedMsgs(now.log) + now.msgs;
    assert FlushedRows(now.log + [e]) + [] == FlushedRows(now.log) + now.batch;
    ExplainsAdd(s.apply, start.table, now.log, now.table, e, table);
    assert forall x :: x in now.log + [e] ==> x in now.log || x == e;
  }

  class Consumer<T(!new), R(0, !new), M, K(==)> {
    const db: Database<T, R>
    const decode: M -> Option<R>
    const batchSize: nat
    const handler: Handler<R, K>

    /** Dead letters and commits, in the order in which they reach Kafka. */
    var acts: seq<Act<M, R>>

    constructor (db: Database<T, R>, decode: M -> Option<R>, batchSize: nat, handler: Handler<R, K>)
      ensures this.db == db && this.decode == decode && this.batchSize == batchSize
      ensures this.handler == handler && acts == []
    {
      this.db, this.decode, this.batchSize, this.handler := db, decode, batchSize, handler;
      acts := [];
    }

    /** The dead-letter loop of the task handlers. */
    method HandleDead(rows: seq<R>)
      modifies this
      ensures acts == old(acts) + DeadAll(RowLetters(rows))
    {
      assert rows[..0] == [];
      for i := 0 to |rows|
        invariant acts == old(acts) + DeadAll(RowLetters(rows[..i]))
      {
        ghost var before := acts;
        acts := acts + [Dead(LetterRow(rows[i]))];
        assert rows[..i + 1] == rows[..i] + [rows[i]];
        RowLettersConcat<M, R>(rows[..i], [rows[i]]);
        OneRowLetter<M, R>(rows[i]);
        DeadAllConcat<M, R>(RowLetters(rows[..i]), [LetterRow(rows[i])]);
      }
      assert rows[..|rows|] == rows;
    }

    /** The dead-letter loops of the user handler: for each rejected user the first event of its id. */
    method DeadLetter(id: R -> K, events: seq<Event<M, R>>, failed: seq<R>)
      modifies this
      ensures acts == old(acts) + DeadAll(MessageLetters(FoundMessages(id, events, failed)))
    {
      assert failed[..0] == [];
      for i := 0 to |failed|
        invariant acts == old(acts) + DeadAll(MessageLetters(FoundMessages(id, events, failed[..i])))
      {
        ghost var before := acts;
        DeadLetterOne(id, events, failed[i]);
        assert failed[..i + 1] == failed[..i] + [failed[i]];
        FoundOneMore<M, R, K>(id, events, failed[..i], failed[i]);
        assert old(acts) + (DeadAll(MessageLetters(FoundMessages(id, events, failed[..i]))) +
                            DeadAll(MessageLetters(FirstMessage(id, events, id(failed[i]))))) == acts;
      }
      assert failed[..|failed|] == failed;
    }

    /** The inner loop: search and break. */
    method DeadLetterOne(id: R -> K, events: seq<Event<M, R>>, user: R)
      modifies this
      ensures acts == old(acts) + DeadAll(MessageLetters(FirstMessage(id, events, id(user))))
    {
      assert events[0..] == events;
      for j := 0 to |events|
        invariant acts == old(acts)
        invariant FirstMessage(id, events[j..], id(user)) == FirstMessage(id, events, id(user))
      {
        if id(events[j].user) == id(user) {
          OneLetter<M, R>(events[j].msg);
          acts := acts + [Dead(LetterMessage(events[j].msg))];
          return;
        }
        assert events[j..][1..] == events[j + 1..];
      }
      assert old(acts) + [] == acts;
    }

    /**
     flushBatch.  It commits iff the writer returned no error, then commits exactly its own
     messages, after it has handed each rejected row, or its message, to the dead-letter topic.
     */
    method FlushBatch(batch: seq<R>, msgs: seq<M>) returns (ghost connLost: bool, ghost failed: seq<R>)
      modifies this, db
      ensures Wrote(db.apply, old(db.table), batch, db.table, failed, connLost)
      ensures acts == old(acts) + ActsOf(handler, Flush(batch, msgs, connLost, failed))
    {
      var tasks := NewSlice(batch);
      var failedTasks, err := BulkWrite(db, tasks, _ => false);
      connLost, failed := err, failedTasks.Elems();
      ghost var e := Flush(batch, msgs, connLost, failed);
      if err {
        NothingAfterLoss(handler, e);
        assert acts + [] == acts;
        return;
      }
      match handler {
        case ByRow => HandleDead(failedTasks.Elems());
        case ByMessage(id) => DeadLetter(id, Events(msgs, batch), failedTasks.Elems());
      }
      assert acts == old(acts) + DeadAll(LettersOf(handler, e));
      acts := acts + [Commit(msgs)];
      LettersThenCommit(handler, e, old(acts));
    }

    /** An undecodable message: the user handler dead-letters it, and then it is committed on its own. */
    method CommitUndecodable(msg: M)
      modifies this
      ensures acts == old(acts) + (if handler.ByMessage? then [Dead(LetterMessage(msg))] else []) + [Commit([msg])]
      ensures acts == old(acts) + ActsOf(handler, CommitOne(msg))
    {
      OneLetter<M, R>(msg);
      if handler.ByMessage? {
        acts := acts + [Dead(LetterMessage(msg))];
      }
      acts := acts + [Commit([msg])];
    }

    ghost function Params(): Setup<T, M, R, K> {
      Setup(db.apply, decode, batchSize, handler)
    }

    /** The books after `fetched`, with `batch` and `msgs` buffered. */
    ghost function Now(fetched: seq<M>, log: seq<Effect<M, R>>, batch: seq<R>, msgs: seq<M>): Books<T, M, R>
      reads this, db
    {
      Books(fetched, log, batch, msgs, db.table, acts)
    }

    /** A fetched message is decoded into the batch, or committed on its own. */
    method Take(
        msg: M, batch: seq<R>, msgs: seq<M>,
        ghost start: Books<T, M, R>, ghost fetched: seq<M>, ghost log: seq<Effect<M, R>>)
      returns (batch': seq<R>, msgs': seq<M>, ghost log': seq<Effect<M, R>>)
      requires Balanced(Params(), start, Now(fetched, log, batch, msgs)) && |batch| < batchSize
      modifies this
      ensures Balanced(Params(), start, Now(fetched + [msg], log', batch', msgs'))
      ensures ShortFlushes(batchSize, log') == ShortFlushes(batchSize, log)
      ensures log' == log + Singles(IfUndecodable(decode, msg)) && msgs' == msgs + IfDecodable(decode, msg)
    {
      OneSingle<M, R>(msg);
      match decode(msg)
      case Some(r) =>
        batch', msgs', log' := batch + [r], msgs + [msg], log;
        BookDecodable(Params(), start, Now(fetched, log, batch, msgs), msg, r);
      case None =>
        batch', msgs', log' := batch, msgs, log + [CommitOne(msg)];
        BookUndecodable(Params(), start, Now(fetched, log, batch, msgs), msg);
        ShortFlushesAdd(batchSize, log, CommitOne(msg));
        CommitUndecodable(msg);
    }

    /** What is buffered is flushed, if there is anything. */
    method FlushBuffered(
        batch: seq<R>, msgs: seq<M>,
        ghost start: Books<T, M, R>, ghost fetched: seq<M>, ghost log: seq<Effect<M, R>>)
      returns (ghost log': seq<Effect<M, R>>)
      requires Balanced(Params(), start, Now(fetched, log, batch, msgs))
      modifies this, db
      ensures Balanced(Params(), start, Now(fetched, log', [], []))
      ensures ShortFlushes(batchSize, log') <= ShortFlushes(batchSize, log) + (if |batch| < batchSize then 1 else 0)
      ensures WithFlush(log, msgs, log')
    {
      log' := log;
      if |batch| > 0 {
        ghost var now := Now(fetched, log, batch, msgs);
        ghost var connLost, failed := FlushBatch(batch, msgs);
        log' := log + [Flush(batch, msgs, connLost, failed)];
        ShortFlushesAdd(batchSize, log, Flush(batch, msgs, connLost, failed));
        BookFlush(Params(), start, now, connLost, failed, db.table);
      }
    }

    /**
     RunLoop: the outer loop opens a batch with one fetch, the inner loop fills it until it is
     full, the deadline has passed or a fetch fails.  `clock(k)` tells whether the k-th reading
     of the clock is still before the deadline; at the end of the script the reader is closed.

     The log in the contract is the sequence of the loop's single commits and flushes, and
     `ticks` the number of clock readings.  The batches are those of a cut of the script: rows of
     messages without an interruption, each of which ends where it is full, where a reading finds the
     deadline passed or where a fetch brings no message; and each is logged as its single commits and
     one flush of all its other messages.
     */
    method RunLoop(script: seq<Fetch<M>>, clock: nat -> bool)
      returns (ghost log: seq<Effect<M, R>>, ghost ticks: nat, ghost stop: nat, ghost cut: seq<Stretch<M>>,
               ghost parts: seq<seq<Effect<M, R>>>)
      requires batchSize > 0
      modifies this, db
      ensures Balanced(Params(), old(Now([], [], [], [])), Now(Fetched(script), log, [], []))
      ensures ShortFlushes(batchSize, log) <= Interruptions(script, clock, ticks) + 1
      ensures IsCut(decode, batchSize, script, clock, 0, 0, Plan(cut, stop, ticks))
      ensures LogsCut(cut, parts, log)
    {
      log, ticks, stop, cut, parts := FetchLoop(script, clock);
      PlanMeans(decode, batchSize, script, clock, 0, 0);
    }

    /** The outer loop. */
    method FetchLoop(script: seq<Fetch<M>>, clock: nat -> bool)
      returns (ghost log: seq<Effect<M, R>>, ghost ticks: nat, ghost stop: nat, ghost cut: seq<Stretch<M>>,
               ghost parts: seq<seq<Effect<M, R>>>)
      requires batchSize > 0
      modifies this, db
      ensures Balanced(Params(), old(Now([], [], [], [])), Now(Fetched(script), log, [], []))
      ensures ShortFlushes(batchSize, log) <= Interruptions(script, clock, ticks) + 1
      ensures Plan(cut, stop, ticks) == PlanFrom(decode, batchSize, script, clock, 0, 0)
      ensures LogsCut(cut, parts, log)
    {
      log, cut, parts := [], [], [];
      var pos: nat, tick: nat := 0, 0;
      ghost var start: Books<T, M, R> := Now([], [], [], []);
      ghost var plan := PlanFrom(decode, batchSize, script, clock, 0, 0);
      SteadyStart(Params(), start, script, clock);
      while pos < |script|
        invariant pos <= |script|
        invariant Steady(Params(), start, Now(Fetched(script[..pos]), log, [], []), script, clock, pos, tick, 0)
        invariant plan == After(cut, PlanFrom(decode, batchSize, script, clock, pos, tick))
        invariant LogsCut(cut, parts, log)
        decreases |script| - pos
      {
        if script[pos].Stopped? {
          SteadyStop(Params(), start, Now(Fetched(script[..pos]), log, [], []), script, clock, pos, tick);
          return log, tick, pos, cut, parts;
        }
        if !script[pos].Message? {
          SteadySkip(Params(), start, Now(Fetched(script[..pos]), log, [], []), script, clock, pos, tick);
          pos := pos + 1;
          continue;
        }
        ghost var part;
        ghost var from, tick0, log0 := pos, tick, log;
        var stopped;
        stopped, pos, tick, log, part := FillBatch(script, clock, pos, tick, start, log);
        cut, parts := OneBatchMore(decode, batchSize, script, clock, from, tick0, cut, parts, log0, part);
        if stopped {
          return log, tick, pos, cut, parts;
        }
      }
      SteadyStop(Params(), start, Now(Fetched(script[..pos]), log, [], []), script, clock, pos, tick);
      ticks, stop := tick, pos;
    }

    /** One round of the outer loop, from the message that opens the batch to the flush. */
    method FillBatch(
        script: seq<Fetch<M>>, clock: nat -> bool, from: nat, tick0: nat,
        ghost start: Books<T, M, R>, ghost log0: seq<Effect<M, R>>)
      returns (stopped: bool, pos: nat, tick: nat, ghost log: seq<Effect<M, R>>, ghost part: seq<Effect<M, R>>)
      requires batchSize > 0 && from < |script| && script[from].Message?
      requires Steady(Params(), start, Now(Fetched(script[..from]), log0, [], []), script, clock, from, tick0, 0)
      modifies this, db
      ensures from < pos <= |script|
      ensures !stopped ==>
                Steady(Params(), start, Now(Fetched(script[..pos]), log, [], []), script, clock, pos, tick, 0)
      ensures stopped ==>
                && Balanced(Params(), start, Now(Fetched(script), log, [], []))
                && ShortFlushes(batchSize, log) <= Interruptions(script, clock, tick) + 1
      ensures var f := Opened(decode, batchSize, script, clock, from, tick0);
              && f.stopped == stopped && f.pos == pos && f.tick == tick
              && log == log0 + part && WithFlush(Singles(f.singles), f.msgs, part)
    {
      var batch: seq<R>, msgs: seq<M>;
      ghost var singles := IfUndecodable(decode, script[from].msg);
      batch, msgs, log := TakeNext(script, clock, from, tick0, [], [], start, log0);
      assert msgs == IfDecodable(decode, script[from].msg);
      batch, msgs, stopped, pos, tick, log, singles :=
        Accumulate(script, clock, from + 1, tick0, batch, msgs, start, log, log0, singles,
                   Opened(decode, batchSize, script, clock, from, tick0));
      ghost var before := log;
      log := FlushBuffered(batch, msgs, start, if stopped then Fetched(script) else Fetched(script[..pos]), log);
      part := FlushPart(log0, Singles(singles), msgs, log);
    }

    /** A fetched message is taken. */
    method TakeNext(
        script: seq<Fetch<M>>, ghost clock: nat -> bool, pos: nat, ghost tick: nat, batch: seq<R>, msgs: seq<M>,
        ghost start: Books<T, M, R>, ghost log: seq<Effect<M, R>>)
      returns (batch': seq<R>, msgs': seq<M>, ghost log': seq<Effect<M, R>>)
      requires pos < |script| && script[pos].Message? && |batch| < batchSize
      requires Steady(Params(), start, Now(Fetched(script[..pos]), log, batch, msgs), script, clock, pos, tick, 0)
      modifies this
      ensures Steady(Params(), start, Now(Fetched(script[..pos + 1]), log', batch', msgs'),
                     script, clock, pos + 1, tick, 0)
      ensures log' == log + Singles(IfUndecodable(decode, script[pos].msg))
      ensures msgs' == msgs + IfDecodable(decode, script[pos].msg)
    {
      FetchedNext(script, pos);
      FetchCounts(script, pos, clock, tick);
      batch', msgs', log' := Take(script[pos].msg, batch, msgs, start, Fetched(script[..pos]), log);
    }

    /** The inner loop.  `singles` are the messages that were committed on their own since `base`. */
    method Accumulate(
        script: seq<Fetch<M>>, clock: nat -> bool, from: nat, tick0: nat, batch0: seq<R>, msgs0: seq<M>,
        ghost start: Books<T, M, R>, ghost log0: seq<Effect<M, R>>,
        ghost base: seq<Effect<M, R>>, ghost singles0: seq<M>, ghost f: Filled<M>)
      returns (batch: seq<R>, msgs: seq<M>, stopped: bool, pos: nat, tick: nat, ghost log: seq<Effect<M, R>>,
               ghost singles: seq<M>)
      requires from <= |script|
      requires Turning(Params(), start, Now(Fetched(script[..from]), log0, batch0, msgs0), script, clock,
                       from, tick0, f, base, singles0)
      modifies this
      ensures from <= pos <= |script|
      ensures Turned(Params(), start,
                     Now(if stopped then Fetched(script) else Fetched(script[..pos]), log, batch, msgs),
                     script, clock, pos, tick, stopped, f, base, singles)
    {
      batch, msgs, stopped, pos, tick, log := batch0, msgs0, false, from, tick0, log0;
      singles := singles0;
      while |batch| < batchSize
        invariant !stopped && from <= pos <= |script|
        invariant Turning(Params(), start, Now(Fetched(script[..pos]), log, batch, msgs), script, clock,
                          pos, tick, f, base, singles)
        decreases |script| - pos
      {
        var more;
        batch, msgs, more, stopped, pos, log, singles :=
          Round(script, clock, pos, tick, batch, msgs, start, log, base, singles, f);
        tick := tick + 1;
        if !more {
          return;
        }
      }
      FullTurns(Params(), start, Now(Fetched(script[..pos]), log, batch, msgs), script, clock,
                pos, tick, f, base, singles);
    }

    /** One turn of the inner loop: it goes on with another message only. */
    method Round(
        script: seq<Fetch<M>>, clock: nat -> bool, pos: nat, tick: nat, batch: seq<R>, msgs: seq<M>,
        ghost start: Books<T, M, R>, ghost log: seq<Effect<M, R>>, ghost base: seq<Effect<M, R>>,
        ghost singles: seq<M>, ghost f: Filled<M>)
      returns (batch': seq<R>, msgs': seq<M>, more: bool, stopped: bool, pos': nat, ghost log': seq<Effect<M, R>>,
               ghost singles': seq<M>)
      requires pos <= |script| && |batch| < batchSize
      requires Turning(Params(), start, Now(Fetched(script[..pos]), log, batch, msgs), script, clock,
                       pos, tick, f, base, singles)
      modifies this
      ensures pos <= pos' <= |script| && (more ==> pos < pos' && !stopped)
      ensures more ==>
                Turning(Params(), start, Now(Fetched(script[..pos']), log', batch', msgs'), script, clock,
                        pos', tick + 1, f, base, singles')
      ensures !more ==>
                Turned(Params(), start,
                       Now(if stopped then Fetched(script) else Fetched(script[..pos']), log', batch', msgs'),
                       script, clock, pos', tick + 1, stopped, f, base, singles')
    {
      batch', msgs', more, stopped, pos', log', singles' := batch, msgs, false, false, pos, log, singles;
      BatchSizes(Params(), start, Now(Fetched(script[..pos]), log, batch, msgs));
      SteadyTick(Params(), start, Now(Fetched(script[..pos]), log, batch, msgs), script, clock, pos, tick);
      if clock(tick) {
        stopped := pos == |script| || script[pos].Stopped?;
        if stopped {
          SteadyStop(Params(), start, Now(Fetched(script[..pos]), log, batch, msgs), script, clock, pos, tick + 1);
        } else if script[pos].Message? {
          batch', msgs', log' := TakeNext(script, clock, pos, tick + 1, batch, msgs, start, log);
          singles' := singles + IfUndecodable(decode, script[pos].msg);
          SinglesConcat<M, R>(base, singles, IfUndecodable(decode, script[pos].msg));
          more, pos' := true, pos + 1;
        } else {
          SteadySkip(Params(), start, Now(Fetched(script[..pos]), log, batch, msgs), script, clock, pos, tick + 1);
          pos' := pos + 1;
        }
      }
    }
  }

  /******* The log of a cut *******/

  function Singles<M, R>(msgs: seq<M>): seq<Effect<M, R>> {
    Collect((m: M) => Single<M, R>(m), msgs)
  }

  function Single<M, R>(msg: M): seq<Effect<M, R>> {
    [CommitOne(msg)]
  }

  lemma OneSingle<M, R>(msg: M)
    ensures Singles<M, R>([msg]) == [CommitOne(msg)] && Singles<M, R>([]) == []
  {
    assert Singles<M, R>([msg][1..]) == [];
  }

  lemma SinglesConcat<M, R>(base: seq<Effect<M, R>>, a: seq<M>, b: seq<M>)
    ensures base + Singles(a) + Singles(b) == base + Singles(a + b)
  {
    CollectConcat((m: M) => Single<M, R>(m), a, b);
    Assoc(base, Singles<M, R>(a), Singles<M, R>(b));
  }

  /** The log behind a flush of the messages `msgs`, which is left out if there are none. */
  ghost predicate WithFlush<M, R>(log: seq<Effect<M, R>>, msgs: seq<M>, log': seq<Effect<M, R>>) {
    if msgs == [] then log' == log
    else |log'| == |log| + 1 && log' == log + [log'[|log|]] && log'[|log|].Flush? && log'[|log|].msgs == msgs
  }

  /** The log, part by part: of each batch the single commits, in order, and the flush of the others. */
  ghost predicate LogsCut<M, R>(cut: seq<Stretch<M>>, parts: seq<seq<Effect<M, R>>>, log: seq<Effect<M, R>>) {
    && |parts| == |cut| && log == Collect((part: seq<Effect<M, R>>) => part, parts)
    && forall k :: 0 <= k < |cut| ==> WithFlush(Singles(cut[k].singles), cut[k].msgs, parts[k])
  }

  lemma LogsOneMore<M, R>(
      cut: seq<Stretch<M>>, parts: seq<seq<Effect<M, R>>>, log: seq<Effect<M, R>>, c: Stretch<M>,
      part: seq<Effect<M, R>>)
    requires LogsCut(cut, parts, log) && WithFlush(Singles(c.singles), c.msgs, part)
    ensures LogsCut(cut + [c], parts + [part], log + part)
  {
    CollectAdd((part: seq<Effect<M, R>>) => part, parts, part);
  }

  lemma FlushPart<M, R>(base: seq<Effect<M, R>>, singles: seq<Effect<M, R>>, msgs: seq<M>, log: seq<Effect<M, R>>)
    returns (part: seq<Effect<M, R>>)
    requires WithFlush(base + singles, msgs, log)
    ensures log == base + part && WithFlush(singles, msgs, part)
  {
    if msgs == [] {
      part := singles;
    } else {
      var e := log[|base + singles|];
      part := singles + [e];
      assert base + (singles + [e]) == base + singles + [e];
    }
  }

  ghost function After<M>(cut: seq<Stretch<M>>, rest: Plan<M>): Plan<M> {
    Plan(cut + rest.cut, rest.stop, rest.ticks)
  }

  lemma AfterOneMore<M>(cut: seq<Stretch<M>>, c: Stretch<M>, next: Plan<M>, rest: Plan<M>)
    requires next == Plan([c] + rest.cut, rest.stop, rest.ticks)
    ensures After(cut, next) == After(cut + [c], rest)
  {
    assert cut + ([c] + rest.cut) == cut + [c] + rest.cut;
  }

  /** One batch more, seen on the plan and on the log. */
  lemma OneBatchMore<M, R>(
      decode: M -> Option<R>, batchSize: nat, script: seq<Fetch<M>>, clock: nat -> bool, from: nat, tick0: nat,
      cut: seq<Stretch<M>>, parts: seq<seq<Effect<M, R>>>, log: seq<Effect<M, R>>, part: seq<Effect<M, R>>)
    returns (cut': seq<Stretch<M>>, parts': seq<seq<Effect<M, R>>>)
    requires from < |script| && script[from].Message? && LogsCut(cut, parts, log)
    requires var f := Opened(decode, batchSize, script, clock, from, tick0);
             WithFlush(Singles(f.singles), f.msgs, part)
    ensures LogsCut(cut', parts', log + part)
    ensures var f := Opened(decode, batchSize, script, clock, from, tick0);
            After(cut, PlanFrom(decode, batchSize, script, clock, from, tick0)) ==
            After(cut', if f.stopped then Plan([], f.pos, f.tick)
                        else PlanFrom(decode, batchSize, script, clock, f.pos, f.tick))
  {
    var f := Opened(decode, batchSize, script, clock, from, tick0);
    var c := StretchAt(decode, batchSize, script, clock, from, tick0);
    LogsOneMore(cut, parts, log, c, part);
    assert [c] + [] == [c];
    AfterOneMore(cut, c, PlanFrom(decode, batchSize, script, clock, from, tick0),
                 if f.stopped then Plan([], f.pos, f.tick)
                 else PlanFrom(decode, batchSize, script, clock, f.pos, f.tick));
    cut', parts' := cut + [c], parts + [part];
  }

  /** The inner loop is at `pos`, on its way to `f`, and has logged the single commits. */
  ghost predicate Turning<T(!new), M, R(!new), K>(
      s: Setup<T, M, R, K>, start: Books<T, M, R>, now: Books<T, M, R>, script: seq<Fetch<M>>, clock: nat -> bool,
      pos: nat, tick: nat, f: Filled<M>, base: seq<Effect<M, R>>, singles: seq<M>)
    requires pos <= |script|
  {
    && Steady(s, start, now, script, clock, pos, tick, 0)
    && now.log == base + Singles(singles)
    && f == Fill(s.decode, s.batchSize, script, clock, pos, tick, now.msgs, singles)
  }

  /** It has come to `f`; a batch that is not full goes with one more interruption. */
  ghost predicate Turned<T(!new), M, R(!new), K>(
      s: Setup<T, M, R, K>, start: Books<T, M, R>, now: Books<T, M, R>, script: seq<Fetch<M>>, clock: nat -> bool,
      pos: nat, tick: nat, stopped: bool, f: Filled<M>, base: seq<Effect<M, R>>, singles: seq<M>)
  {
    && (if stopped then
          Balanced(s, start, now) && ShortFlushes(s.batchSize, now.log) <= Interruptions(script, clock, tick)
        else
          Steady(s, start, now, script, clock, pos, tick, if |now.batch| < s.batchSize then 1 else 0))
    && now.log == base + Singles(singles) && Ends(f, pos, tick, stopped, now.msgs, singles)
  }

  lemma FullTurns<T(!new), M, R(!new), K>(
      s: Setup<T, M, R, K>, start: Books<T, M, R>, now: Books<T, M, R>, script: seq<Fetch<M>>, clock: nat -> bool,
      pos: nat, tick: nat, f: Filled<M>, base: seq<Effect<M, R>>, singles: seq<M>)
    requires pos <= |script| && |now.batch| >= s.batchSize
    requires Turning(s, start, now, script, clock, pos, tick, f, base, singles)
    ensures Turned(s, start, now, script, clock, pos, tick, false, f, base, singles)
  {
  }

  ghost predicate Ends<M>(f: Filled<M>, pos: nat, tick: nat, stopped: bool, msgs: seq<M>, singles: seq<M>) {
    f.pos == pos && f.tick == tick && f.stopped == stopped && f.msgs == msgs && f.singles == singles
  }

  lemma BatchSizes<T(!new), M, R(!new), K>(s: Setup<T, M, R, K>, start: Books<T, M, R>, now: Books<T, M, R>)
    requires Balanced(s, start, now)
    ensures |now.batch| == |now.msgs|
  {
  }

  /**
   The books after `pos` fetches and `tick` clock readings: balanced, with all that was fetched,
   and with fewer short flushes than interruptions by at least `room`.
   */
  ghost predicate Steady<T(!new), M, R(!new), K>(
      s: Setup<T, M, R, K>, start: Books<T, M, R>, now: Books<T, M, R>,
      script: seq<Fetch<M>>, clock: nat -> bool, pos: nat, tick: nat, room: nat)
  {
    && Running(script, pos) && now.fetched == Fetched(script[..pos])
    && Balanced(s, start, now)
    && ShortFlushes(s.batchSize, now.log) + room <= Interruptions(script[..pos], clock, tick)
  }

  lemma SteadyStart<T(!new), M, R(!new), K>(
      s: Setup<T, M, R, K>, start: Books<T, M, R>, script: seq<Fetch<M>>, clock: nat -> bool)
    requires start.fetched == [] && start.log == [] && start.batch == [] && start.msgs == []
    ensures Steady(s, start, start.(fetched := Fetched(script[..0])), script, clock, 0, 0, 0)
  {
    assert script[..0] == [];
    assert start.acts + [] == start.acts;
  }

  /** A clock reading; one that finds the deadline passed makes room. */
  lemma SteadyTick<T(!new), M, R(!new), K>(
      s: Setup<T, M, R, K>, start: Books<T, M, R>, now: Books<T, M, R>,
      script: seq<Fetch<M>>, clock: nat -> bool, pos: nat, tick: nat)
    requires Steady(s, start, now, script, clock, pos, tick, 0)
    ensures Steady(s, start, now, script, clock, pos, tick + 1, if clock(tick) then 0 else 1)
  {
    ReadingCounts(script[..pos], clock, tick);
  }

  /** A fetch without a message makes room. */
  lemma SteadySkip<T(!new), M, R(!new), K>(
      s: Setup<T, M, R, K>, start: Books<T, M, R>, now: Books<T, M, R>,
      script: seq<Fetch<M>>, clock: nat -> bool, pos: nat, tick: nat)
    requires Steady(s, start, now, script, clock, pos, tick, 0)
    requires pos < |script| && !script[pos].Message? && !script[pos].Stopped?
    ensures Steady(s, start, now.(fetched := Fetched(script[..pos + 1])), script, clock, pos + 1, tick, 1)
    ensures Steady(s, start, now.(fetched := Fetched(script[..pos + 1])), script, clock, pos + 1, tick, 0)
  {
    FetchedNext(script, pos);
    FetchCounts(script, pos, clock, tick);
  }

  /** At the end everything has been fetched. */
  lemma SteadyStop<T(!new), M, R(!new), K>(
      s: Setup<T, M, R, K>, start: Books<T, M, R>, now: Books<T, M, R>,
      script: seq<Fetch<M>>, clock: nat -> bool, pos: nat, tick: nat)
    requires Steady(s, start, now, script, clock, pos, tick, 0)
    requires pos < |script| ==> script[pos].Stopped?
    ensures Balanced(s, start, now.(fetched := Fetched(script)))
    ensures ShortFlushes(s.batchSize, now.log) <= Interruptions(script, clock, tick)
  {
    StoppedAt(script, pos);
    MoreFetches(script, pos, clock, tick);
  }

  /** The reader has not stopped in its first `pos` fetches. */
  ghost predicate Running<M>(script: seq<Fetch<M>>, pos: nat) {
    pos <= |script| && forall i :: 0 <= i < pos ==> !script[i].Stopped?
  }

  lemma StoppedAt<M>(script: seq<Fetch<M>>, pos: nat)
    requires Running(script, pos)
    requires pos < |script| ==> script[pos].Stopped?
    ensures Fetched(script) == Fetched(script[..pos])
  {
    if pos < |script| {
      FetchedNext(script, pos);
    } else {
      assert script[..pos] == script;
    }
  }

  lemma OneLetter<M, R>(msg: M)
    ensures MessageLetters<M, R>([msg]) == [LetterMessage(msg)]
    ensures DeadAll<M, R>([LetterMessage(msg)]) == [Dead(LetterMessage(msg))]
  {
    assert MessageLetters<M, R>([msg][1..]) == [];
    var letters: seq<Letter<M, R>> := [LetterMessage(msg)];
    assert DeadAll(letters[1..]) == [];
  }

  lemma LettersThenCommit<M, R, K>(h: Handler<R, K>, e: Effect<M, R>, acts: seq<Act<M, R>>)
    requires e.Flush? && !e.connLost
    ensures acts + DeadAll(LettersOf(h, e)) + [Commit(e.msgs)] == acts + ActsOf(h, e)
  {
    assert CommitsOf(e) == [Commit(e.msgs)];
    Assoc(acts, DeadAll(LettersOf(h, e)), CommitsOf(e));
  }

  lemma NothingAfterLoss<M, R, K>(h: Handler<R, K>, e: Effect<M, R>)
    requires e.Flush? && e.connLost
    ensures ActsOf(h, e) == []
  {
  }

  lemma OneRowLetter<M, R>(row: R)
    ensures RowLetters<M, R>([row]) == [LetterRow(row)]
    ensures DeadAll<M, R>([LetterRow(row)]) == [Dead(LetterRow(row))]
  {
    assert RowLetters<M, R>([row][1..]) == [];
    var letters: seq<Letter<M, R>> := [LetterRow(row)];
    assert DeadAll(letters[1..]) == [];
  }

  lemma FoundOneMore<M, R, K>(id: R -> K, events: seq<Event<M, R>>, failed: seq<R>, user: R)
    ensures DeadAll(MessageLetters<M, R>(FoundMessages(id, events, failed + [user]))) ==
            DeadAll(MessageLetters(FoundMessages(id, events, failed))) +
            DeadAll(MessageLetters(FirstMessage(id, events, id(user))))
  {
    var found, first := FoundMessages(id, events, failed), FirstMessage(id, events, id(user));
    CollectAdd(u => FirstMessage(id, events, id(u)), failed, user);
    MessageLettersConcat<M, R>(found, first);
    DeadAllConcat<M, R>(MessageLetters<M, R>(found), MessageLetters<M, R>(first));
  }

  /**
   A whole run in which no flush lost its connection: however the fetches were cut into batches,
   the table is that of the decodable messages taken one at a time, and every fetched message
   was committed once.
   */
  lemma LosslessRun<T(!new), M, R(!new), K>(s: Setup<T, M, R, K>, start: Books<T, M, R>, end: Books<T, M, R>)
    requires Balanced(s, start, end) && end.batch == [] && NothingLost(end.log)
    ensures start.acts <= end.acts
    ensures end.table == SkipTable(s.apply, start.table, Rows(s.decode, end.fetched))
    ensures multiset(CommittedIn(end.acts[|start.acts|..])) == multiset(end.fetched)
  {
    assert FlushedRows(end.log) + [] == FlushedRows(end.log) && FlushedMsgs(end.log) + [] == FlushedMsgs(end.log);
    BatchingIsInvisible(s.apply, start.table, end.log, end.table);
    assert end.acts[|start.acts|..] == Acts(s.handler, end.log);
    ActsContain(s.handler, end.log);
    CommitsAreParts(end.log);
    PartsOfFetched(s.decode, end.fetched);
  }

  /** The dead letters of a lossless run of a task handler are the rows rejected one at a time. */
  lemma TaskLetters<T(!new), M, R(!new), K>(s: Setup<T, M, R, K>, start: Books<T, M, R>, end: Books<T, M, R>)
    requires Balanced(s, start, end) && end.batch == [] && NothingLost(end.log) && s.handler.ByRow?
    ensures start.acts <= end.acts
    ensures LettersIn(end.acts[|start.acts|..])
         == RowLetters(Skipped(s.apply, start.table, Rows(s.decode, end.fetched)))
  {
    assert FlushedRows(end.log) + [] == FlushedRows(end.log);
    BatchingIsInvisible(s.apply, start.table, end.log, end.table);
    assert end.acts[|start.acts|..] == Acts(s.handler, end.log);
    ActsContain(s.handler, end.log);
    RowLettersOf(s.handler, end.log);
  }

  lemma {:induction false} RowLettersOf<M, R, K>(h: Handler<R, K>, log: seq<Effect<M, R>>)
    requires h.ByRow? && NothingLost(log)
    ensures Letters(h, log) == RowLetters(DeadRows(log))
    decreases log
  {
    if log != [] {
      assert log[0] in log && forall e :: e in log[1..] ==> e in log;
      RowLettersOf(h, log[1..]);
      var first := if log[0].Flush? then log[0].failed else [];
      RowLettersConcat<M, R>(first, DeadRows(log[1..]));
    }
  }

  /** In no flush of the log does a rejected user share its id with an earlier event of the flush. */
  ghost predicate NoTwinsIn<T(!new), M, R(!new), K>(
      apply: (T, R) -> Option<T>, id: R -> K, t: T, log: seq<Effect<M, R>>)
  {
    if log == [] then true
    else match log[0]
      case CommitOne(_) => NoTwinsIn(apply, id, t, log[1..])
      case Flush(batch, msgs, _, _) =>
        NoTwins(apply, id, t, Events(msgs, batch), 0) && NoTwinsIn(apply, id, SkipTable(apply, t, batch), log[1..])
  }

  /** The messages that the flushes of the user handler have found and dead-lettered. */
  function FoundIn<M, R, K(==)>(id: R -> K, log: seq<Effect<M, R>>): seq<M> {
    if log == [] then []
    else (if log[0].Flush? then FoundMessages(id, Events(log[0].msgs, log[0].batch), log[0].failed) else []) +
         FoundIn(id, log[1..])
  }

  /**
   A lossless run of the user handler: the dead letters are the undecodable messages and the
   messages found for the rejected users.  These are, in order, the rejected users' own messages if
   and only if no rejected user shares its id with an earlier event of its flush.
   */
  lemma UserLettersOf<T(!new), M, R(!new), K>(s: Setup<T, M, R, K>, start: Books<T, M, R>, end: Books<T, M, R>)
    requires Balanced(s, start, end) && end.batch == [] && NothingLost(end.log) && s.handler.ByMessage?
    ensures start.acts <= end.acts
    ensures multiset(LettersIn(end.acts[|start.acts|..]))
         == multiset(MessageLetters<M, R>(Undecodable(s.decode, end.fetched)))
            + multiset(MessageLetters<M, R>(FoundIn(s.handler.id, end.log)))
    ensures var events := Events(Decodable(s.decode, end.fetched), Rows(s.decode, end.fetched));
            var own := FoundIn(s.handler.id, end.log) == OwnMessages(s.apply, start.table, events);
            && (NoTwinsIn(s.apply, s.handler.id, start.table, end.log) ==> own)
            && (DistinctMessages(events) && own ==> NoTwinsIn(s.apply, s.handler.id, start.table, end.log))
  {
    assert FlushedRows(end.log) + [] == FlushedRows(end.log) && FlushedMsgs(end.log) + [] == FlushedMsgs(end.log);
    assert end.acts[|start.acts|..] == Acts(s.handler, end.log);
    ActsContain(s.handler, end.log);
    FoundAreOwnInRun(s.apply, s.handler.id, s.decode, s.batchSize, start.table, end.log, end.table);
    MessageLettersOf(s.handler, end.log);
  }

  /** What a log found, against what it should have found. */
  ghost predicate FoundInAre<T(!new), M, R(!new), K>(
      apply: (T, R) -> Option<T>, id: R -> K, t: T, log: seq<Effect<M, R>>)
  {
    var events := Events(FlushedMsgs(log), FlushedRows(log));
    var found, own := FoundIn(id, log), OwnMessages(apply, t, events);
    && |found| == |own|
    && (NoTwinsIn(apply, id, t, log) ==> found == own)
    && (DistinctMessages(events) && found == own ==> NoTwinsIn(apply, id, t, log))
  }

  lemma {:induction false} FoundAreOwnInRun<T(!new), M, R(!new), K>(
      apply: (T, R) -> Option<T>, id: R -> K, decode: M -> Option<R>, batchSize: nat, t: T,
      log: seq<Effect<M, R>>, u: T)
    requires Explains(apply, t, log, u) && NothingLost(log) && GoodFlushes(decode, batchSize, log)
    ensures FoundInAre(apply, id, t, log)
    decreases log
  {
    if log != [] {
      assert log[0] in log && forall e :: e in log[1..] ==> e in log;
      match log[0]
      case CommitOne(_) =>
        FoundAreOwnInRun(apply, id, decode, batchSize, t, log[1..], u);
        SkipFront(id, log);
      case Flush(batch, msgs, connLost, failed) =>
        var v :| Wrote(apply, t, batch, v, failed, connLost) && Explains(apply, v, log[1..], u);
        FoundAreOwnInRun(apply, id, decode, batchSize, v, log[1..], u);
        FoundInFlush(apply, id, t, log);
    }
  }

  /** One more flush in front. */
  lemma FoundInFlush<T(!new), M, R(!new), K>(
      apply: (T, R) -> Option<T>, id: R -> K, t: T, log: seq<Effect<M, R>>)
    requires log != [] && log[0].Flush? && |log[0].batch| == |log[0].msgs|
    requires log[0].failed == Skipped(apply, t, log[0].batch)
    requires FoundInAre(apply, id, SkipTable(apply, t, log[0].batch), log[1..])
    ensures FoundInAre(apply, id, t, log)
  {
    var batch, msgs, failed, rest := log[0].batch, log[0].msgs, log[0].failed, log[1..];
    var events, later := Events(msgs, batch), Events(FlushedMsgs(rest), FlushedRows(rest));
    EventsConcat(msgs, batch, FlushedMsgs(rest), FlushedRows(rest));
    OwnConcat(apply, t, events, later);
    FoundAreOwn(apply, id, t, events);
    if DistinctMessages(events + later) {
      DistinctParts(events, later);
    }
    SameParts(FoundMessages(id, events, failed), FoundIn(id, rest),
              OwnMessages(apply, t, events), OwnMessages(apply, SkipTable(apply, t, batch), later));
  }

  lemma DistinctParts<M, U>(a: seq<Event<M, U>>, b: seq<Event<M, U>>)
    requires DistinctMessages(a + b)
    ensures DistinctMessages(a) && DistinctMessages(b)
  {
    assert forall i :: 0 <= i < |a| ==> (a + b)[i] == a[i];
    assert forall i :: 0 <= i < |b| ==> (a + b)[|a| + i] == b[i];
  }

  lemma SameParts<A>(a: seq<A>, b: seq<A>, a': seq<A>, b': seq<A>)
    requires |a| == |a'|
    ensures a + b == a' + b' <==> a == a' && b == b'
  {
    assert (a + b)[..|a|] == a && (a' + b')[..|a|] == a' && (a + b)[|a|..] == b && (a' + b')[|a|..] == b';
  }

  lemma SkipFront<M, R, K>(id: R -> K, log: seq<Effect<M, R>>)
    requires log != [] && log[0].CommitOne?
    ensures FoundIn(id, log) == FoundIn(id, log[1..])
    ensures FlushedMsgs(log) == FlushedMsgs(log[1..]) && FlushedRows(log) == FlushedRows(log[1..])
  {
    assert [] + FoundIn(id, log[1..]) == FoundIn(id, log[1..]);
    assert [] + FlushedMsgs(log[1..]) == FlushedMsgs(log[1..]) && [] + FlushedRows(log[1..]) == FlushedRows(log[1..]);
  }

  lemma {:induction false} MessageLettersOf<M, R, K>(h: Handler<R, K>, log: seq<Effect<M, R>>)
    requires h.ByMessage? && NothingLost(log)
    ensures multiset(Letters(h, log))
         == multiset(MessageLetters<M, R>(SingleCommits(log))) + multiset(MessageLetters<M, R>(FoundIn(h.id, log)))
    decreases log
  {
    if log != [] {
      assert log[0] in log && forall e :: e in log[1..] ==> e in log;
      MessageLettersOf(h, log[1..]);
      MessageLettersFirst(h, log);
    }
  }

  lemma MessageLettersFirst<M, R, K>(h: Handler<R, K>, log: seq<Effect<M, R>>)
    requires log != [] && h.ByMessage? && (log[0].Flush? ==> !log[0].connLost)
    ensures multiset(MessageLetters<M, R>(SingleCommits(log))) + multiset(MessageLetters<M, R>(FoundIn(h.id, log)))
         == multiset(LettersOf(h, log[0])) + multiset(MessageLetters<M, R>(SingleCommits(log[1..])))
            + multiset(MessageLetters<M, R>(FoundIn(h.id, log[1..])))
  {
    match log[0]
    case CommitOne(m) =>
      OneLetter<M, R>(m);
      MessageLettersConcat<M, R>([m], SingleCommits(log[1..]));
      assert [] + FoundIn(h.id, log[1..]) == FoundIn(h.id, log[1..]);
    case Flush(batch, msgs, _, failed) =>
      MessageLettersConcat<M, R>(FoundMessages(h.id, Events(msgs, batch), failed), FoundIn(h.id, log[1..]));
      assert [] + SingleCommits(log[1..]) == SingleCommits(log[1..]);
  }

  lemma {:induction false} CommitsAreParts<M, R>(log: seq<Effect<M, R>>)
    requires NothingLost(log)
    ensures multiset(Committed(log)) == multiset(FlushedMsgs(log)) + multiset(SingleCommits(log))
  {
    if log != [] {
      assert log[0] in log && forall e :: e in log[1..] ==> e in log;
      CommitsAreParts(log[1..]);
    }
  }

  lemma {:induction false} PartsOfFetched<M, R>(decode: M -> Option<R>, fetched: seq<M>)
    ensures multiset(fetched) == multiset(Decodable(decode, fetched)) + multiset(Undecodable(decode, fetched))
    decreases fetched
  {
    if fetched != [] {
      assert fetched == [fetched[0]] + fetched[1..];
      PartsOfFetched(decode, fetched[1..]);
    }
  }
}
