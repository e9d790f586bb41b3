/** The application's queueing and booking loops, and the worker's loop over a chunk. */
module WalletApp {
  import opened Options
  import opened WalletTally
  import opened WalletIndex

  /* Queueing. */

  /** The queueing loop as steps of the protocol. */
  function Queue(a: AppState, ts: seq<TxId>): AppState
    decreases |ts|
  {
    if ts == [] then (if a.pending == [] then a else DispatchApp(a))
    else if ts[0] in a.indexed || ts[0] in a.inflight then Queue(a, ts[1..])
    else
      var m := MarkApp(a, ts[0]);
      Queue(if |m.pending| >= CHUNK then DispatchApp(m) else m, ts[1..])
  }

  /** The members not known yet, each at its first occurrence. */
  function Unknown(ts: seq<TxId>, known: set<TxId>): seq<TxId>
    decreases |ts|
  {
    if ts == [] then []
    else if ts[0] in known then Unknown(ts[1..], known)
    else [ts[0]] + Unknown(ts[1..], known + {ts[0]})
  }

  /** Cut into full chunks and a rest. */
  function Chunked(s: seq<TxId>): seq<seq<TxId>> {
    if s == [] then [] else if |s| <= CHUNK then [s] else [s[..CHUNK]] + Chunked(s[CHUNK..])
  }

  lemma {:induction false} UnknownMeans(ts: seq<TxId>, known: set<TxId>, x: TxId)
    ensures x in Unknown(ts, known) <==> x in ts && x !in known
    ensures multiset(Unknown(ts, known))[x] <= 1
    decreases |ts|
  {
    if ts != [] {
      assert ts == [ts[0]] + ts[1..];
      if ts[0] in known {
        UnknownMeans(ts[1..], known, x);
      } else {
        UnknownMeans(ts[1..], known + {ts[0]}, x);
      }
    }
  }

  lemma FullChunk(p: seq<TxId>, rest: seq<TxId>)
    requires |p| == CHUNK
    ensures Chunked(p + rest) == [p] + Chunked(rest)
  {
    if rest == [] {
      assert p + rest == p;
    } else {
      assert (p + rest)[..CHUNK] == p && (p + rest)[CHUNK..] == rest;
    }
  }

  ghost function Enqueued(a: AppState, more: seq<TxId>): AppState {
    a.(inflight := a.inflight + Set(more), commands := a.commands + Chunked(a.pending + more), pending := [])
  }

  /** With a listening worker, queueing sends exactly the new transactions, once each, in order, in chunks. */
  lemma {:induction false} QueueSends(a: AppState, ts: seq<TxId>)
    requires a.open && |a.pending| < CHUNK
    ensures Queue(a, ts) == Enqueued(a, Unknown(ts, a.inflight + a.indexed))
    decreases |ts|
  {
    var known := a.inflight + a.indexed;
    if ts == [] {
      QueueEnd(a);
    } else if ts[0] in known {
      QueueSends(a, ts[1..]);
    } else {
      var m := MarkApp(a, ts[0]);
      var b := if |m.pending| >= CHUNK then DispatchApp(m) else m;
      var more := Unknown(ts[1..], known + {ts[0]});
      QueueSends(b, ts[1..]);
      assert b.inflight + b.indexed == known + {ts[0]};
      EnqueuedStep(a, ts[0], more);
    }
  }

  lemma QueueEnd(a: AppState)
    requires a.open && |a.pending| < CHUNK
    ensures Queue(a, []) == Enqueued(a, [])
  {
    assert a.pending + [] == a.pending && Set<TxId>([]) == {};
    if a.pending == [] { assert a.commands + [] == a.commands; }
  }

  lemma EnqueuedStep(a: AppState, id: TxId, more: seq<TxId>)
    requires a.open && |a.pending| < CHUNK
    ensures var m := MarkApp(a, id);
      Enqueued(if |m.pending| >= CHUNK then DispatchApp(m) else m, more) == Enqueued(a, [id] + more)
  {
    var m := MarkApp(a, id);
    assert Set([id] + more) == {id} + Set(more);
    assert a.pending + ([id] + more) == m.pending + more;
    assert m.inflight + Set(more) == a.inflight + Set([id] + more);
    if |m.pending| >= CHUNK {
      FullChunk(m.pending, more);
      assert [] + more == more;
      assert a.commands + [m.pending] + Chunked(more) == a.commands + ([m.pending] + Chunked(more));
    }
  }

  /** The queueing loop is a run of protocol steps. */
  lemma {:induction false} QueueIsRun(s: State, ts: seq<TxId>) returns (run: seq<Step>)
    requires |s.app.pending| < CHUNK
    ensures Possible(s, run) && After(s, run) == s.(app := Queue(s.app, ts))
    decreases |ts|
  {
    if ts == [] {
      run := if s.app.pending == [] then [] else [Dispatch];
      assert run != [] ==> run[1..] == [];
    } else if ts[0] in s.app.indexed || ts[0] in s.app.inflight {
      run := QueueIsRun(s, ts[1..]);
    } else {
      var t := Next(s, Mark(ts[0]));
      if |t.app.pending| >= CHUNK {
        var u := Next(t, Dispatch);
        var rest := QueueIsRun(u, ts[1..]);
        var tail := [Dispatch] + rest;
        assert tail[1..] == rest;
        assert Possible(t, tail) && After(t, tail) == After(u, rest);
        run := [Mark(ts[0])] + tail;
        assert run[1..] == tail;
      } else {
        var rest := QueueIsRun(t, ts[1..]);
        run := [Mark(ts[0])] + rest;
        assert run[1..] == rest;
      }
    }
  }

  /* Handling results. */

  /** A result booked, and more work queued: after an error always, after a chunk while any is in flight. */
  function Handled(a: AppState, r: Result, ts: seq<TxId>): AppState {
    var b := HandleApp(a, r);
    if !b.open || (r.Complete? && b.inflight == {}) then b else Queue(b, ts)
  }

  /** Handling a result is a run of protocol steps: the booking, and the queueing if it happens. */
  lemma HandledIsRun(s: State, ts: seq<TxId>) returns (run: seq<Step>)
    requires s.results != [] && s.app.pending == []
    ensures Possible(s, run) && After(s, run).app == Handled(s.app, s.results[0], ts)
    ensures After(s, run).results == s.results[1..] && After(s, run).job == s.job && After(s, run).lost == s.lost
  {
    var t := Next(s, Handle);
    var rest := [];
    if t.app.open && !(s.results[0].Complete? && t.app.inflight == {}) {
      rest := QueueIsRun(t, ts);
    }
    run := [Handle] + rest;
    assert run[1..] == rest;
  }

  /* What queueing and handling leave to be done. */

  /** Every listed transaction is indexed or in flight. */
  ghost predicate CaughtUp(a: AppState, ts: seq<TxId>) { forall x | x in ts :: x in a.indexed || x in a.inflight }

  /** b sent, after what a had sent, each listed transaction known to neither set once, and marked it; nothing else. */
  ghost predicate SentMissing(a: AppState, b: AppState, ts: seq<TxId>) {
    && b.indexed == a.indexed && b.pending == [] && a.commands <= b.commands
    && (forall x :: x in b.inflight <==> x in a.inflight || (x in ts && x !in a.indexed))
    && (forall x :: multiset(Flat(b.commands[|a.commands|..]))[x]
                    == if x in ts && x !in a.indexed && x !in a.inflight then 1 else 0)
  }

  /** Chunks hold the list in order, 64 to a chunk until the last. */
  lemma {:induction false} ChunkedMeans(s: seq<TxId>)
    ensures Flat(Chunked(s)) == s
    ensures forall i | 0 <= i < |Chunked(s)| :: 0 < |Chunked(s)[i]| <= 64 && (i + 1 < |Chunked(s)| ==> |Chunked(s)[i]| == 64)
  {
    if |s| > CHUNK {
      ChunkedMeans(s[CHUNK..]);
      assert s == s[..CHUNK] + s[CHUNK..];
      assert Chunked(s)[1..] == Chunked(s[CHUNK..]);
    } else if s != [] {
      assert [s][1..] == [];
    }
  }

  lemma QueueSendsMissing(a: AppState, ts: seq<TxId>)
    requires a.open && a.pending == []
    ensures SentMissing(a, Queue(a, ts), ts) && CaughtUp(Queue(a, ts), ts)
  {
    var known := a.inflight + a.indexed;
    var more := Unknown(ts, known);
    QueueSends(a, ts);
    assert [] + more == more;
    ChunkedMeans(more);
    var b := Queue(a, ts);
    assert b.commands[|a.commands|..] == Chunked(more);
    forall x
      ensures x in b.inflight <==> x in a.inflight || (x in ts && x !in a.indexed)
      ensures multiset(more)[x] == if x in ts && x !in a.indexed && x !in a.inflight then 1 else 0
    {
      UnknownMeans(ts, known, x);
    }
  }

  /**
   * With a listening worker: a failed transaction is unmarked and everything missing, itself included
   * if it is listed, is sent and marked. After a chunk the same happens if anything is still in
   * flight; if nothing is, nothing is sent.
   */
  ghost predicate Requeued(a: AppState, r: Result, ts: seq<TxId>, b: AppState) {
    match r
    case Failed(id) =>
      SentMissing(a.(inflight := a.inflight - {id}), b, ts) && CaughtUp(b, ts)
    case Complete(done, _) =>
      var booked := a.(inflight := a.inflight - Set(Ids(done)), indexed := a.indexed + Set(Ids(done)));
      if booked.inflight == {} then b.inflight == {} && b.indexed == booked.indexed && b.commands == a.commands
      else SentMissing(booked, b, ts) && CaughtUp(b, ts)
  }

  lemma HandledRequeues(a: AppState, r: Result, ts: seq<TxId>)
    requires a.open && a.pending == []
    ensures Requeued(a, r, ts, Handled(a, r, ts))
  {
    QueueSendsMissing(HandleApp(a, r), ts);
  }

  /** A failed transaction that is listed and not indexed is in flight again, in exactly one of the chunks just sent. */
  lemma FailureIsRetried(a: AppState, id: TxId, ts: seq<TxId>, b: AppState)
    requires Requeued(a, Failed(id), ts, b) && id in ts && id !in a.indexed
    ensures id in b.inflight && a.commands <= b.commands
    ensures multiset(Flat(b.commands[|a.commands|..]))[id] == 1
  {
  }

  class App {
    var transactions: seq<TxId>
    var inflight: set<TxId>
    var indexed: set<TxId>
    var walletMap: Tallies
    var commands: seq<seq<TxId>>
    var open: bool
    var indexing: bool

    /** The state with a chunk partly filled; between calls there is none. */
    ghost function View(pending: seq<TxId>): AppState
      reads this
    {
      AppState(inflight, indexed, walletMap, pending, commands, open)
    }

    constructor ()
      ensures View([]) == Initial().app && !indexing
    {
      transactions, inflight, indexed, walletMap, commands, open, indexing := [], {}, {}, map[], [], true, false;
    }

    method DispatchWalletChunk(tasks: seq<TxId>)
      requires tasks != []
      modifies this`commands, this`inflight, this`indexing
      ensures View([]) == DispatchApp(old(View(tasks)))
    {
      if open {
        commands := commands + [tasks];
      } else {
        ghost var before := inflight;
        for i := 0 to |tasks|
          invariant inflight == before - Set(tasks[..i]) && commands == old(commands)
        {
          assert Set(tasks[..i + 1]) == Set(tasks[..i]) + {tasks[i]};
          inflight := inflight - {tasks[i]};
        }
        assert tasks[..|tasks|] == tasks;
        indexing := inflight != {};
      }
    }

    method QueueWalletIndexWork()
      modifies this`commands, this`inflight, this`indexing
      ensures View([]) == if old(open) then Queue(old(View([])), transactions) else old(View([]))
      ensures indexing == if old(open) then inflight != {} else old(indexing)
    {
      if !open { return; }
      ghost var goal := Queue(View([]), transactions);
      var pending: seq<TxId> := [];
      assert transactions[0..] == transactions;
      for i := 0 to |transactions|
        invariant Queue(View(pending), transactions[i..]) == goal
      {
        assert transactions[i..][1..] == transactions[i + 1..];
        var id := transactions[i];
        if !(id in indexed || id in inflight) {
          inflight := inflight + {id};
          pending := pending + [id];
          if |pending| >= CHUNK {
            DispatchWalletChunk(pending);
            pending := [];
          }
        }
      }
      if pending != [] { DispatchWalletChunk(pending); }
      indexing := inflight != {};
    }

    method ApplyWalletDeltas(deltas: seq<Delta>)
      modifies this`walletMap
      ensures walletMap == Apply(old(walletMap), deltas)
    {
      for i := 0 to |deltas|
        invariant walletMap == Apply(old(walletMap), deltas[..i])
      {
        assert deltas[..i + 1][..i] == deltas[..i];
        var d := deltas[i];
        var entry := At(walletMap, d.address);
        walletMap := walletMap[d.address := Tally(Sat(entry.received + d.tally.received), Sat(entry.sent + d.tally.sent),
                                                  entry.txCount + d.tally.txCount)];
      }
      assert deltas[..|deltas|] == deltas;
    }

    method BookIds(ids: seq<TxId>, done: bool)
      modifies this`inflight, this`indexed
      ensures inflight == old(inflight) - Set(ids)
      ensures indexed == if done then old(indexed) + Set(ids) else old(indexed)
    {
      for i := 0 to |ids|
        invariant inflight == old(inflight) - Set(ids[..i])
        invariant indexed == if done then old(indexed) + Set(ids[..i]) else old(indexed)
      {
        assert Set(ids[..i + 1]) == Set(ids[..i]) + {ids[i]};
        inflight := inflight - {ids[i]};
        if done { indexed := indexed + {ids[i]}; }
      }
      assert ids[..|ids|] == ids;
    }

    method HandleWalletWorkerResult(r: Result)
      modifies this
      ensures View([]) == Handled(old(View([])), r, old(transactions)) && transactions == old(transactions)
      ensures old(open) ==> Requeued(old(View([])), r, transactions, View([]))
      ensures indexing <==> inflight != {}
    {
      if open { HandledRequeues(View([]), r, transactions); }
      match r
      case Complete(done, deltas) =>
        BookIds(Ids(done), true);
        if deltas != [] { ApplyWalletDeltas(deltas); }
        indexing := inflight != {};
        if indexing { QueueWalletIndexWork(); }
      case Failed(id) =>
        assert Set([id]) == {id};
        BookIds([id], false);
        indexing := inflight != {};
        QueueWalletIndexWork();
    }
  }

  /* The worker. */

  /** The ids whose fetch failed, and the fetched transactions, both in order. */
  function Failures(tasks: seq<TxId>, answers: seq<Option<Details>>): seq<Result>
    requires |tasks| == |answers|
  {
    if tasks == [] then []
    else
      var n := |tasks| - 1;
      Failures(tasks[..n], answers[..n]) + if answers[n].None? then [Failed(tasks[n])] else []
  }

  function Successes(tasks: seq<TxId>, answers: seq<Option<Details>>): seq<Fetched>
    requires |tasks| == |answers|
  {
    if tasks == [] then []
    else
      var n := |tasks| - 1;
      Successes(tasks[..n], answers[..n]) + if answers[n].None? then [] else [Fetched(tasks[n], answers[n].value)]
  }

  /** Every task is reported once: as fetched with its answer, or as failed if there was none. */
  lemma {:induction false} EveryAnswerReported(tasks: seq<TxId>, answers: seq<Option<Details>>, i: nat)
    requires |tasks| == |answers| && i < |tasks|
    ensures answers[i].Some? ==> Fetched(tasks[i], answers[i].value) in Successes(tasks, answers)
    ensures answers[i].None? ==> Failed(tasks[i]) in Failures(tasks, answers)
    ensures |Successes(tasks, answers)| + |Failures(tasks, answers)| == |tasks|
  {
    var n := |tasks| - 1;
    ReportedCount(tasks[..n], answers[..n]);
    if i < n { EveryAnswerReported(tasks[..n], answers[..n], i); }
  }

  lemma {:induction false} ReportedCount(tasks: seq<TxId>, answers: seq<Option<Details>>)
    requires |tasks| == |answers|
    ensures |Successes(tasks, answers)| + |Failures(tasks, answers)| == |tasks|
  {
    if tasks != [] { ReportedCount(tasks[..|tasks| - 1], answers[..|tasks| - 1]); }
  }

  lemma TalliedFits(m: Tallies, ds: seq<Details>)
    requires Tallied(m, ds)
    ensures Fits(m)
  {
    forall a | a in m ensures m[a].received <= MAX && m[a].sent <= MAX {
      assert At(m, a) == Clamp(Total(ds, a));
    }
  }

  lemma OneAnswer(tasks: seq<TxId>, answers: seq<Option<Details>>, i: nat)
    requires |tasks| == |answers| && i < |tasks|
    ensures Failures(tasks[..i + 1], answers[..i + 1])
         == Failures(tasks[..i], answers[..i]) + if answers[i].None? then [Failed(tasks[i])] else []
    ensures Successes(tasks[..i + 1], answers[..i + 1])
         == Successes(tasks[..i], answers[..i]) + if answers[i].None? then [] else [Fetched(tasks[i], answers[i].value)]
  {
    assert tasks[..i + 1][..i] == tasks[..i] && answers[..i + 1][..i] == answers[..i];
  }

  /**
   * One command: an error result for every failed fetch, as it happens, and at the end one result
   * for all the fetched transactions, unless there are none. In the protocol this is the run that
   * takes the first command, fetches each of its transactions and finishes.
   */
  method IndexTransactions(tasks: seq<TxId>, answers: seq<Option<Details>>, ghost s: State)
      returns (errors: seq<Result>, complete: Option<Result>, ghost run: seq<Step>)
    requires |tasks| == |answers| && Enabled(s, Take) && s.app.commands[0] == tasks
    ensures errors == Failures(tasks, answers)
    ensures complete.None? <==> Successes(tasks, answers) == []
    ensures complete.Some? ==> complete.value.Complete? && complete.value.done == Successes(tasks, answers)
    ensures complete.Some? ==> ResultTallied(complete.value)
    ensures Possible(s, run) && After(s, run) == Answered(s, errors, complete)
  {
    run := [Take];
    RunSnoc(s, [], Take);
    assert [] + [Take] == run;
    errors := [];
    var done: seq<Fetched>, tallies: Tallies := [], map[];
    NothingTallied();
    assert DetailsOf([]) == [];
    for i := 0 to |tasks|
      invariant errors == Failures(tasks[..i], answers[..i]) && done == Successes(tasks[..i], answers[..i])
      invariant Tallied(tallies, DetailsOf(done))
      invariant Possible(s, run) && After(s, run) == Underway(s, Job(tasks[i..], done, tallies), errors)
    {
      OneAnswer(tasks, answers, i);
      assert tasks[i..][0] == tasks[i] && tasks[i..][1..] == tasks[i + 1..];
      if answers[i].None? {
        OneFailure(s, run, Job(tasks[i..], done, tallies), errors);
        run := run + [FetchFails];
        errors := errors + [Failed(tasks[i])];
      } else {
        TalliedFits(tallies, DetailsOf(done));
        var next := AccumulateWalletDelta(tallies, answers[i].value);
        FetchedTallied(Job([tasks[i]], done, tallies), answers[i].value, next);
        OneFetch(s, run, Job(tasks[i..], done, tallies), errors, answers[i].value, next);
        run := run + [Fetch(answers[i].value, next)];
        tallies := next;
        done := done + [Fetched(tasks[i], answers[i].value)];
      }
    }
    assert tasks[..|tasks|] == tasks && answers[..|answers|] == answers;
    complete := None;
    var deltas := ToDeltas(tallies);
    Finished(s, run, Job([], done, tallies), errors, deltas);
    run := run + [Finish(deltas)];
    if done != [] {
      FinishedTallied(Job([], done, tallies), deltas);
      complete := Some(Complete(done, deltas));
    }
  }

  /** The worker in the middle of the first command, and the errors it has sent. */
  ghost function Underway(s: State, job: Job, errors: seq<Result>): State
    requires Enabled(s, Take)
  {
    Next(s, Take).(job := Some(job), results := s.results + errors)
  }

  lemma OneFailure(s: State, run: seq<Step>, j: Job, errors: seq<Result>)
    requires Enabled(s, Take) && Possible(s, run) && After(s, run) == Underway(s, j, errors) && j.todo != []
    ensures Possible(s, run + [FetchFails])
    ensures After(s, run + [FetchFails]) == Underway(s, j.(todo := j.todo[1..]), errors + [Failed(j.todo[0])])
  {
    RunSnoc(s, run, FetchFails);
  }

  lemma OneFetch(s: State, run: seq<Step>, j: Job, errors: seq<Result>, d: Details, t: Tallies)
    requires Enabled(s, Take) && Possible(s, run) && After(s, run) == Underway(s, j, errors)
    requires j.todo != [] && Accumulated(j.tallies, d, t)
    ensures Possible(s, run + [Fetch(d, t)])
    ensures After(s, run + [Fetch(d, t)]) == Underway(s, Job(j.todo[1..], j.done + [Fetched(j.todo[0], d)], t), errors)
  {
    RunSnoc(s, run, Fetch(d, t));
  }

  lemma Finished(s: State, run: seq<Step>, j: Job, errors: seq<Result>, deltas: seq<Delta>)
    requires Enabled(s, Take) && Possible(s, run) && After(s, run) == Underway(s, j, errors)
    requires j.todo == [] && Lists(deltas, j.tallies)
    ensures Possible(s, run + [Finish(deltas)])
    ensures After(s, run + [Finish(deltas)])
         == Answered(s, errors, if j.done == [] then None else Some(Complete(j.done, deltas)))
  {
    RunSnoc(s, run, Finish(deltas));
    assert s.results + errors + [] == s.results + errors;
  }

  /** The first command worked off, and its results sent. */
  ghost function Answered(s: State, errors: seq<Result>, complete: Option<Result>): State
    requires Enabled(s, Take)
  {
    Next(s, Take).(job := None, results := s.results + errors + if complete.Some? then [complete.value] else [])
  }

  method ToDeltas(m: Tallies) returns (deltas: seq<Delta>)
    ensures Lists(deltas, m)
  {
    deltas := [];
    var todo := m.Keys;
    while todo != {}
      invariant todo <= m.Keys
      invariant forall i | 0 <= i < |deltas| ::
        deltas[i].address in m && deltas[i].address !in todo && m[deltas[i].address] == deltas[i].tally
      invariant forall a | a in m && a !in todo :: exists i | 0 <= i < |deltas| :: deltas[i].address == a
      invariant forall i, j | 0 <= i < j < |deltas| :: deltas[i].address != deltas[j].address
    {
      var a :| a in todo;
      todo := todo - {a};
      ghost var before := deltas;
      deltas := deltas + [Delta(a, m[a])];
      forall b | b in m && b !in todo ensures exists i | 0 <= i < |deltas| :: deltas[i].address == b {
        if b == a {
          assert deltas[|before|].address == b;
        } else {
          var i :| 0 <= i < |before| && before[i].address == b;
          assert deltas[i].address == b;
        }
      }
    }
  }
}
