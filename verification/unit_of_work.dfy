/** `TransMgmt.transaction` (db_manager.py:99-165): the unit of work the
    validators run in. A fresh session is opened over the durable store;
    the body stages writes on it, may commit part-way through, and may
    raise. When the body completes the manager commits; when the body or
    the commit raises it rolls back and re-raises that exception, unless
    the rollback itself raises, whose exception then propagates instead; in
    every case it closes the session last.

    The store's contents are a type parameter `S`, the exceptions a type
    parameter `E`. A failing commit and a failing rollback are parameters
    of the transaction, since whether the database accepts either call is
    outside the model. */
module UnitOfWork {
  import opened Wrappers

  /** What the body does with its session: stage new contents (the pending
      writes), commit them itself (`session.commit()` inside the body), or
      raise an exception. */
  datatype Op<S, E> = Stage(state: S) | InnerCommit | Raise(error: E)

  /** A session: the durable state as of the last commit, and the pending
      state the session reads and writes. */
  datatype Session<S> = Session(durable: S, pending: S)

  /** The calls the manager itself makes on the session. `Commit(false)` is
      a commit that raised. `Rollback` is the call whether or not it raises:
      either way nothing pending survives, since closing the session hands
      its connection back with the uncommitted work discarded. */
  datatype Call = Commit(succeeded: bool) | Rollback | Close

  datatype Phase = Open | Committed | RolledBack | Closed

  /** The phase machine: Open -> (Committed | RolledBack) -> Closed. A
      commit that raises leaves the transaction open for its rollback; any
      other call is illegal in its phase. */
  function Next(p: Phase, c: Call): Option<Phase> {
    match (p, c)
    case (Open, Commit(true)) => Some(Committed)
    case (Open, Commit(false)) => Some(Open)
    case (Open, Rollback) => Some(RolledBack)
    case (Committed, Close) => Some(Closed)
    case (RolledBack, Close) => Some(Closed)
    case _ => None
  }

  /** The phase reached by a sequence of calls, if every call is legal. */
  function Replay(p: Phase, calls: seq<Call>): Option<Phase>
    decreases |calls|
  {
    if |calls| == 0 then Some(p)
    else match Next(p, calls[0])
      case None => None
      case Some(q) => Replay(q, calls[1..])
  }

  /** The effect of one manager call on the session. */
  function Apply<S>(s: Session<S>, c: Call): Session<S> {
    match c
    case Commit(true) => Session(s.pending, s.pending)
    case Commit(false) => s
    case Rollback => Session(s.durable, s.durable)
    case Close => s
  }

  function ApplyAll<S>(s: Session<S>, calls: seq<Call>): Session<S>
    decreases |calls|
  {
    if |calls| == 0 then s else ApplyAll(Apply(s, calls[0]), calls[1..])
  }

  /** Where the body stopped: the session as it left it, and the exception
      it raised, if any. */
  datatype BodyEnd<S, E> = BodyEnd(session: Session<S>, raised: Option<E>)

  /** The body, run operation by operation until its first `Raise`. */
  function RunBody<S, E>(s: Session<S>, body: seq<Op<S, E>>): BodyEnd<S, E>
    decreases |body|
  {
    if |body| == 0 then BodyEnd(s, None)
    else match body[0]
      case Stage(x) => RunBody(s.(pending := x), body[1..])
      case InnerCommit => RunBody(Session(s.pending, s.pending), body[1..])
      case Raise(e) => BodyEnd(s, Some(e))
  }

  /** What the transaction leaves behind: the calls the manager made, the
      exception it propagated, and the durable state. */
  datatype Outcome<S, E> = Outcome(calls: seq<Call>, raised: Option<E>, durable: S)

  /** `with trans_mgmt.transaction() as session: body`. The session is
      fresh: it starts with nothing pending over the durable state. */
  function Transaction<S, E>(durable: S, body: seq<Op<S, E>>, commitFault: Option<E>, rollbackFault: Option<E>): (o: Outcome<S, E>)
    ensures Replay(Open, o.calls) == Some(Closed)
    ensures |o.calls| >= 2 && o.calls[|o.calls| - 1] == Close
    ensures forall i :: 0 <= i < |o.calls| - 1 ==> o.calls[i] != Close
    ensures forall i, j :: 0 <= i < j < |o.calls| && o.calls[i].Commit? ==> !o.calls[j].Commit?
    ensures Rollback in o.calls <==> o.raised.Some?
    ensures (exists i :: 0 <= i < |body| && body[i].Raise?) ==> forall c :: c in o.calls ==> !c.Commit?
    ensures o.raised.None? ==> commitFault.None?
    ensures Rollback in o.calls && rollbackFault.Some? ==> o.raised == rollbackFault
  {
    var end := RunBody(Session(durable, durable), body);
    var calls :=
      match end.raised
      case Some(_) => [Rollback, Close]
      case None => if commitFault.None? then [Commit(true), Close] else [Commit(false), Rollback, Close];
    var failure := if end.raised.Some? then end.raised else commitFault;
    var raised := if failure.Some? && rollbackFault.Some? then rollbackFault else failure;
    RunBodyStopsAtRaise(Session(durable, durable), body);
    Outcome(calls, raised, ApplyAll(end.session, calls).durable)
  }

  /** The body runs to its end exactly when it holds no `Raise`. */
  lemma {:induction false} RunBodyStopsAtRaise<S, E>(s: Session<S>, body: seq<Op<S, E>>)
    ensures RunBody(s, body).raised.None? <==> forall i :: 0 <= i < |body| ==> !body[i].Raise?
    decreases |body|
  {
    if |body| > 0 && !body[0].Raise? {
      RunBodyStopsAtRaise(if body[0].Stage? then s.(pending := body[0].state) else Session(s.pending, s.pending), body[1..]);
      assert forall i :: 1 <= i < |body| ==> body[i] == body[1..][i - 1];
    }
  }

  // ---------------------------------------------------------------------
  // The reference: what a sequence of operations leaves, read backwards
  // ---------------------------------------------------------------------

  /** `i` is the body's first `Raise`. */
  predicate FirstRaise<S, E>(body: seq<Op<S, E>>, i: int) {
    && 0 <= i < |body|
    && body[i].Raise?
    && forall j :: 0 <= j < i ==> !body[j].Raise?
  }

  predicate RaiseFree<S, E>(ops: seq<Op<S, E>>) {
    forall i :: 0 <= i < |ops| ==> !ops[i].Raise?
  }

  /** The contents of the last `Stage`, or `start` when nothing was
      staged. */
  function LastStaged<S, E>(start: S, ops: seq<Op<S, E>>): S
    decreases |ops|
  {
    if |ops| == 0 then start
    else if ops[|ops| - 1].Stage? then ops[|ops| - 1].state
    else LastStaged(start, ops[..|ops| - 1])
  }

  /** What the last inner commit made durable: the contents staged before
      the last `InnerCommit`, or `durable` when there was no `InnerCommit`. */
  function LastCommitted<S, E>(durable: S, pending: S, ops: seq<Op<S, E>>): S
    decreases |ops|
  {
    if |ops| == 0 then durable
    else if ops[|ops| - 1].InnerCommit? then LastStaged(pending, ops[..|ops| - 1])
    else LastCommitted(durable, pending, ops[..|ops| - 1])
  }

  lemma {:induction false} LastStagedCons<S, E>(start: S, o: Op<S, E>, ops: seq<Op<S, E>>)
    ensures LastStaged(start, [o] + ops) == LastStaged(if o.Stage? then o.state else start, ops)
    decreases |ops|
  {
    if |ops| > 0 {
      assert ([o] + ops)[..|ops|] == [o] + ops[..|ops| - 1];
      LastStagedCons(start, o, ops[..|ops| - 1]);
    } else {
      assert ([o] + ops)[..0] == [];
    }
  }

  lemma {:induction false} LastCommittedCons<S, E>(durable: S, pending: S, o: Op<S, E>, ops: seq<Op<S, E>>)
    requires !o.Raise?
    ensures LastCommitted(durable, pending, [o] + ops) ==
      if o.Stage? then LastCommitted(durable, o.state, ops) else LastCommitted(pending, pending, ops)
    decreases |ops|
  {
    if |ops| > 0 {
      var init := ops[..|ops| - 1];
      assert ([o] + ops)[..|ops|] == [o] + init;
      if ops[|ops| - 1].InnerCommit? {
        LastStagedCons(pending, o, init);
      } else {
        LastCommittedCons(durable, pending, o, init);
      }
    } else {
      assert ([o] + ops)[..0] == [];
    }
  }

  /** Running operations without a `Raise` leaves the session pending on
      the last staged contents and durable on the contents of the last
      inner commit. */
  lemma {:induction false} RunBodyMatchesReference<S, E>(s: Session<S>, ops: seq<Op<S, E>>)
    requires RaiseFree(ops)
    ensures RunBody(s, ops).session == Session(LastCommitted(s.durable, s.pending, ops), LastStaged(s.pending, ops))
    decreases |ops|
  {
    if |ops| > 0 {
      var o, rest := ops[0], ops[1..];
      assert ops == [o] + rest;
      assert forall i :: 0 <= i < |rest| ==> rest[i] == ops[i + 1];
      LastStagedCons(s.pending, o, rest);
      LastCommittedCons(s.durable, s.pending, o, rest);
      match o
      case Stage(x) => RunBodyMatchesReference(s.(pending := x), rest);
      case InnerCommit => RunBodyMatchesReference(Session(s.pending, s.pending), rest);
    }
  }

  /** Operations up to the first `Raise` run as a raise-free body would;
      the `Raise` ends the body with that exception. */
  lemma {:induction false} RunBodyUpToRaise<S, E>(s: Session<S>, body: seq<Op<S, E>>, i: int)
    requires FirstRaise(body, i)
    ensures RunBody(s, body) == BodyEnd(RunBody(s, body[..i]).session, Some(body[i].error))
    decreases i
  {
    if i > 0 {
      assert body[1..][..i - 1] == body[..i][1..];
      assert FirstRaise(body[1..], i - 1);
      match body[0]
      case Stage(x) => RunBodyUpToRaise(s.(pending := x), body[1..], i - 1);
      case InnerCommit => RunBodyUpToRaise(Session(s.pending, s.pending), body[1..], i - 1);
    } else {
      assert body[..0] == [];
    }
  }

  /** Without a `InnerCommit`, nothing is made durable along the way. */
  lemma {:induction false} NoInnerCommitKeepsDurable<S, E>(durable: S, pending: S, ops: seq<Op<S, E>>)
    requires forall i :: 0 <= i < |ops| ==> !ops[i].InnerCommit?
    ensures LastCommitted(durable, pending, ops) == durable
    decreases |ops|
  {
    if |ops| > 0 {
      NoInnerCommitKeepsDurable(durable, pending, ops[..|ops| - 1]);
    }
  }

  /** A property of every staged state and of the start holds of the last
      staged state. */
  lemma {:induction false} LastStagedHolds<S, E>(p: S -> bool, start: S, ops: seq<Op<S, E>>)
    requires p(start)
    requires forall i :: 0 <= i < |ops| && ops[i].Stage? ==> p(ops[i].state)
    ensures p(LastStaged(start, ops))
    decreases |ops|
  {
    if |ops| > 0 && !ops[|ops| - 1].Stage? {
      LastStagedHolds(p, start, ops[..|ops| - 1]);
    }
  }

  /** ... and of what the last inner commit made durable. */
  lemma {:induction false} LastCommittedHolds<S, E>(p: S -> bool, durable: S, pending: S, ops: seq<Op<S, E>>)
    requires p(durable) && p(pending)
    requires forall i :: 0 <= i < |ops| && ops[i].Stage? ==> p(ops[i].state)
    ensures p(LastCommitted(durable, pending, ops))
    decreases |ops|
  {
    if |ops| > 0 {
      if ops[|ops| - 1].InnerCommit? {
        LastStagedHolds(p, pending, ops[..|ops| - 1]);
      } else {
        LastCommittedHolds(p, durable, pending, ops[..|ops| - 1]);
      }
    }
  }

  /** Operations after the last `InnerCommit` do not change what is durable. */
  lemma {:induction false} LastCommittedIgnoresTail<S, E>(durable: S, pending: S, ops: seq<Op<S, E>>, tail: seq<Op<S, E>>)
    requires forall i :: 0 <= i < |tail| ==> !tail[i].InnerCommit?
    ensures LastCommitted(durable, pending, ops + tail) == LastCommitted(durable, pending, ops)
    decreases |tail|
  {
    if |tail| > 0 {
      var all := ops + tail;
      assert all[..|all| - 1] == ops + tail[..|tail| - 1];
      assert all[|all| - 1] == tail[|tail| - 1];
      LastCommittedIgnoresTail(durable, pending, ops, tail[..|tail| - 1]);
    } else {
      assert ops + tail == ops;
    }
  }

  // ---------------------------------------------------------------------
  // The transaction's paths
  // ---------------------------------------------------------------------

  /** A body that completes is committed and the session closed; rollback
      is never called; everything the body staged is durable. */
  lemma CommitsOnSuccess<S, E>(durable: S, body: seq<Op<S, E>>, rollbackFault: Option<E>)
    requires RaiseFree(body)
    ensures var o := Transaction(durable, body, None, rollbackFault);
      && o.calls == [Commit(true), Close]
      && o.raised.None?
      && o.durable == LastStaged(durable, body)
  {
    var s := Session(durable, durable);
    RunBodyStopsAtRaise(s, body);
    RunBodyMatchesReference(s, body);
    var p := RunBody(s, body).session.pending;
    assert ApplyAll(RunBody(s, body).session, [Commit(true), Close]) == Session(p, p) by {
      assert [Commit(true), Close][1..] == [Close];
    }
  }

  /** A body that raises is rolled back, its exception propagates unless
      the rollback raises one of its own, no commit is attempted, and the
      durable state is what the body's own inner commits left before the
      exception. */
  lemma RollsBackOnRaise<S, E>(durable: S, body: seq<Op<S, E>>, commitFault: Option<E>, rollbackFault: Option<E>, i: int)
    requires FirstRaise(body, i)
    ensures var o := Transaction(durable, body, commitFault, rollbackFault);
      && o.calls == [Rollback, Close]
      && o.raised == (if rollbackFault.Some? then rollbackFault else Some(body[i].error))
      && o.durable == LastCommitted(durable, durable, body[..i])
  {
    var s := Session(durable, durable);
    RunBodyUpToRaise(s, body, i);
    assert RaiseFree(body[..i]);
    RunBodyMatchesReference(s, body[..i]);
    var d := RunBody(s, body).session.durable;
    assert ApplyAll(RunBody(s, body).session, [Rollback, Close]) == Session(d, d) by {
      assert [Rollback, Close][1..] == [Close];
    }
  }

  /** A commit that raises is caught too: the session is rolled back, the
      commit's exception propagates unless the rollback raises one of its
      own, and the durable state is what the body's inner commits left. */
  lemma RollsBackOnCommitFault<S, E>(durable: S, body: seq<Op<S, E>>, e: E, rollbackFault: Option<E>)
    requires RaiseFree(body)
    ensures var o := Transaction(durable, body, Some(e), rollbackFault);
      && o.calls == [Commit(false), Rollback, Close]
      && o.raised == (if rollbackFault.Some? then rollbackFault else Some(e))
      && o.durable == LastCommitted(durable, durable, body)
  {
    var s := Session(durable, durable);
    RunBodyStopsAtRaise(s, body);
    RunBodyMatchesReference(s, body);
    var d := RunBody(s, body).session.durable;
    assert ApplyAll(RunBody(s, body).session, [Commit(false), Rollback, Close]) == Session(d, d) by {
      assert [Commit(false), Rollback, Close][1..] == [Rollback, Close];
      assert [Rollback, Close][1..] == [Close];
    }
  }

  /** Atomicity: a transaction that fails leaves exactly what its body
      committed itself before failing, and a body without an inner commit
      leaves the pre-transaction state. */
  lemma Atomicity<S, E>(durable: S, body: seq<Op<S, E>>, commitFault: Option<E>, rollbackFault: Option<E>)
    requires Transaction(durable, body, commitFault, rollbackFault).raised.Some?
    ensures (forall i :: 0 <= i < |body| ==> !body[i].InnerCommit?) ==>
      Transaction(durable, body, commitFault, rollbackFault).durable == durable
  {
    if forall i :: 0 <= i < |body| ==> !body[i].InnerCommit? {
      if exists i :: FirstRaise(body, i) {
        var i :| FirstRaise(body, i);
        RollsBackOnRaise(durable, body, commitFault, rollbackFault, i);
        NoInnerCommitKeepsDurable(durable, durable, body[..i]);
      } else {
        assert RaiseFree(body) by {
          forall i | 0 <= i < |body| ensures !body[i].Raise? {
            if body[i].Raise? {
              var k := FirstRaiseAtOrBefore(body, i);
            }
          }
        }
        RunBodyStopsAtRaise(Session(durable, durable), body);
        RollsBackOnCommitFault(durable, body, commitFault.value, rollbackFault);
        NoInnerCommitKeepsDurable(durable, durable, body);
      }
    }
  }

  /** Any `Raise` has a first one at or before it. */
  lemma {:induction false} FirstRaiseAtOrBefore<S, E>(body: seq<Op<S, E>>, i: int) returns (k: int)
    requires 0 <= i < |body| && body[i].Raise?
    ensures FirstRaise(body, k) && k <= i
    decreases i
  {
    if exists j :: 0 <= j < i && body[j].Raise? {
      var j :| 0 <= j < i && body[j].Raise?;
      k := FirstRaiseAtOrBefore(body, j);
    } else {
      k := i;
    }
  }

  /** A property of the durable state that every staged state also has
      survives the transaction, whichever way it ends. */
  lemma TransactionPreserves<S, E>(p: S -> bool, durable: S, body: seq<Op<S, E>>, commitFault: Option<E>, rollbackFault: Option<E>)
    requires p(durable)
    requires forall i :: 0 <= i < |body| && body[i].Stage? ==> p(body[i].state)
    ensures p(Transaction(durable, body, commitFault, rollbackFault).durable)
  {
    if exists i :: FirstRaise(body, i) {
      var i :| FirstRaise(body, i);
      RollsBackOnRaise(durable, body, commitFault, rollbackFault, i);
      LastCommittedHolds(p, durable, durable, body[..i]);
    } else {
      assert RaiseFree(body) by {
        forall i | 0 <= i < |body| ensures !body[i].Raise? {
          if body[i].Raise? {
            var k := FirstRaiseAtOrBefore(body, i);
          }
        }
      }
      if commitFault.None? {
        CommitsOnSuccess(durable, body, rollbackFault);
        LastStagedHolds(p, durable, body);
      } else {
        RollsBackOnCommitFault(durable, body, commitFault.value, rollbackFault);
        LastCommittedHolds(p, durable, durable, body);
      }
    }
  }

  /** A transaction that propagates nothing ran a body without a `Raise`
      and committed it. */
  lemma SucceedsOnlyByCommit<S, E>(durable: S, body: seq<Op<S, E>>, commitFault: Option<E>, rollbackFault: Option<E>)
    ensures Transaction(durable, body, commitFault, rollbackFault).raised.None? ==>
      && RaiseFree(body)
      && commitFault.None?
      && Transaction(durable, body, commitFault, rollbackFault).calls == [Commit(true), Close]
  {
    RunBodyStopsAtRaise(Session(durable, durable), body);
  }

  /** A body that stages `x` and commits it before anything else keeps `x`
      durable however the transaction fails afterwards, as long as it does
      not commit again. */
  lemma InnerCommitSurvives<S, E>(durable: S, x: S, tail: seq<Op<S, E>>, commitFault: Option<E>, rollbackFault: Option<E>)
    requires forall i :: 0 <= i < |tail| ==> !tail[i].InnerCommit?
    requires Transaction(durable, [Stage(x), InnerCommit] + tail, commitFault, rollbackFault).raised.Some?
    ensures Transaction(durable, [Stage(x), InnerCommit] + tail, commitFault, rollbackFault).durable == x
  {
    var head: seq<Op<S, E>> := [Stage(x), InnerCommit];
    var body := head + tail;
    assert body[..2] == head && body[2..] == tail;
    if exists i :: FirstRaise(body, i) {
      var i :| FirstRaise(body, i);
      RollsBackOnRaise(durable, body, commitFault, rollbackFault, i);
      assert body[..i] == head + tail[..i - 2];
      LastCommittedIgnoresTail(durable, durable, head, tail[..i - 2]);
    } else {
      assert RaiseFree(body) by {
        forall i | 0 <= i < |body| ensures !body[i].Raise? {
          if body[i].Raise? {
            var k := FirstRaiseAtOrBefore(body, i);
          }
        }
      }
      RunBodyStopsAtRaise(Session(durable, durable), body);
      RollsBackOnCommitFault(durable, body, commitFault.value, rollbackFault);
      LastCommittedIgnoresTail(durable, durable, head, tail);
    }
    assert LastCommitted(durable, durable, head) == x by {
      assert head[..1] == [Stage(x)];
    }
  }
}
