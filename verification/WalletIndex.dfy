/**
 * The wallet index protocol. The application marks transactions in flight and hands them in chunks
 * to a worker; the worker fetches them one by one and answers with results; the application books
 * the results. Marking, dispatching, taking, fetching, finishing and handling are single steps, and
 * the two sides interleave freely. The worker may stop at any moment.
 */
module WalletIndex {
  import opened Options
  import opened WalletTally

  type TxId = string
  const CHUNK: nat := 64

  /** A fetched transaction; the program keeps the id, the details are kept here for the record. */
  datatype Fetched = Fetched(id: TxId, details: Details)

  datatype Result = Complete(done: seq<Fetched>, deltas: seq<Delta>) | Failed(id: TxId)

  datatype Job = Job(todo: seq<TxId>, done: seq<Fetched>, tallies: Tallies)

  /** The application's side, with the commands it has sent and the chunk it is filling. */
  datatype AppState = AppState(inflight: set<TxId>, indexed: set<TxId>, wallets: Tallies, pending: seq<TxId>,
                               commands: seq<seq<TxId>>, open: bool)

  /** lost: what the worker took down with it; log: the indexed transactions, in order. */
  datatype State = State(app: AppState, job: Option<Job>, results: seq<Result>, lost: seq<TxId>, log: seq<Fetched>)

  datatype Step =
    | Mark(id: TxId)
    | Dispatch
    | Take
    | Fetch(details: Details, tallies: Tallies)
    | FetchFails
    | Finish(deltas: seq<Delta>)
    | Handle
    | Stop

  function Initial(): State { State(AppState({}, {}, map[], [], [], true), None, [], [], []) }

  /* The application's steps. */

  function MarkApp(a: AppState, id: TxId): AppState {
    a.(inflight := a.inflight + {id}, pending := a.pending + [id])
  }

  /** A chunk the worker does not accept is unmarked again. */
  function DispatchApp(a: AppState): AppState {
    if a.open then a.(commands := a.commands + [a.pending], pending := [])
    else a.(inflight := a.inflight - Set(a.pending), pending := [])
  }

  function HandleApp(a: AppState, r: Result): AppState {
    match r
    case Complete(done, deltas) =>
      a.(inflight := a.inflight - Set(Ids(done)), indexed := a.indexed + Set(Ids(done)), wallets := Apply(a.wallets, deltas))
    case Failed(id) => a.(inflight := a.inflight - {id})
  }

  function Set<T>(s: seq<T>): set<T> { set x | x in s }

  function Ids(s: seq<Fetched>): seq<TxId> { seq(|s|, i requires 0 <= i < |s| => s[i].id) }

  function DetailsOf(s: seq<Fetched>): seq<Details> { seq(|s|, i requires 0 <= i < |s| => s[i].details) }

  /* The system's steps. */

  ghost predicate Enabled(s: State, step: Step) {
    match step
    case Mark(id) => id !in s.app.inflight && id !in s.app.indexed && |s.app.pending| < CHUNK
    case Dispatch => s.app.pending != []
    case Take => s.app.open && s.job.None? && s.app.commands != []
    case Fetch(d, t) => s.job.Some? && s.job.value.todo != [] && Accumulated(s.job.value.tallies, d, t)
    case FetchFails => s.job.Some? && s.job.value.todo != []
    case Finish(deltas) => s.job.Some? && s.job.value.todo == [] && Lists(deltas, s.job.value.tallies)
    case Handle => s.results != []
    case Stop => s.app.open
  }

  function Next(s: State, step: Step): State
    requires Enabled(s, step)
  {
    match step
    case Mark(id) => s.(app := MarkApp(s.app, id))
    case Dispatch => s.(app := DispatchApp(s.app))
    case Take => s.(app := s.app.(commands := s.app.commands[1..]), job := Some(Job(s.app.commands[0], [], map[])))
    case Fetch(d, t) =>
      var j := s.job.value;
      s.(job := Some(Job(j.todo[1..], j.done + [Fetched(j.todo[0], d)], t)))
    case FetchFails =>
      var j := s.job.value;
      s.(job := Some(j.(todo := j.todo[1..])), results := s.results + [Failed(j.todo[0])])
    case Finish(deltas) =>
      var j := s.job.value;
      s.(job := None, results := if j.done == [] then s.results else s.results + [Complete(j.done, deltas)])
    case Handle =>
      var r := s.results[0];
      s.(app := HandleApp(s.app, r), results := s.results[1..], log := if r.Complete? then s.log + r.done else s.log)
    case Stop =>
      s.(app := s.app.(open := false, commands := []), job := None, lost := s.lost + InWorker(s.job) + Flat(s.app.commands))
  }

  /* Where the transactions in flight are. */

  function Flat(chunks: seq<seq<TxId>>): seq<TxId> { if chunks == [] then [] else chunks[0] + Flat(chunks[1..]) }

  function InWorker(job: Option<Job>): seq<TxId> { if job.None? then [] else Ids(job.value.done) + job.value.todo }

  function ResultIds(r: Result): seq<TxId> { match r case Complete(done, _) => Ids(done) case Failed(id) => [id] }

  function InResults(results: seq<Result>): seq<TxId> {
    if results == [] then [] else ResultIds(results[0]) + InResults(results[1..])
  }

  /** Everything under way, from the results waiting to be handled back to the chunk being filled. */
  function Line(s: State): seq<TxId> {
    InResults(s.results) + (InWorker(s.job) + (Flat(s.app.commands) + s.app.pending)) + s.lost
  }

  /** Each transaction in flight is under way in one place, once; none of them is indexed. */
  ghost predicate Placed(s: State) {
    && multiset(Line(s)) == multiset(s.app.inflight)
    && multiset(Ids(s.log)) == multiset(s.app.indexed)
    && s.app.inflight !! s.app.indexed
  }

  lemma {:induction false} FlatSnoc(chunks: seq<seq<TxId>>, c: seq<TxId>)
    ensures Flat(chunks + [c]) == Flat(chunks) + c
  {
    if chunks == [] {
      assert chunks + [c] == [c] && [c][1..] == [];
    } else {
      FlatSnoc(chunks[1..], c);
      assert (chunks + [c])[1..] == chunks[1..] + [c];
    }
  }

  lemma {:induction false} InResultsSnoc(results: seq<Result>, r: Result)
    ensures InResults(results + [r]) == InResults(results) + ResultIds(r)
  {
    if results == [] {
      assert results + [r] == [r] && [r][1..] == [];
    } else {
      InResultsSnoc(results[1..], r);
      InResultsHead(results, r, results + [r]);
    }
  }

  lemma InResultsHead(results: seq<Result>, r: Result, all: seq<Result>)
    requires results != [] && all == results + [r]
    requires InResults(results[1..] + [r]) == InResults(results[1..]) + ResultIds(r)
    ensures InResults(all) == InResults(results) + ResultIds(r)
  {
    assert all[1..] == results[1..] + [r];
  }

  lemma IdsConcat(a: seq<Fetched>, b: seq<Fetched>)
    ensures Ids(a + b) == Ids(a) + Ids(b) && DetailsOf(a + b) == DetailsOf(a) + DetailsOf(b)
  {
  }

  lemma LineParts(s: State)
    ensures multiset(Line(s)) == multiset(InResults(s.results)) + multiset(InWorker(s.job))
                                 + multiset(Flat(s.app.commands)) + multiset(s.app.pending) + multiset(s.lost)
  {
  }

  type Bag = multiset<TxId>

  lemma Regroup(r: Bag, w: Bag, c: Bag, p: Bag, l: Bag, m: Bag)
    ensures r + (w + m) + c + p + l == (r + m) + w + c + p + l == r + w + c + (p + m) + l == r + w + c + p + l + m
  {
  }

  lemma WithoutFirst(done: seq<TxId>, todo: seq<TxId>)
    requires todo != []
    ensures multiset(done + todo) == multiset(done + todo[1..]) + multiset{todo[0]}
  {
    assert todo == [todo[0]] + todo[1..];
  }

  /** Taking the members of a list, each of them held once, out of a set. */
  lemma TakenOut(all: set<TxId>, rest: multiset<TxId>, l: seq<TxId>)
    requires multiset(all) == rest + multiset(l)
    ensures multiset(all - Set(l)) == rest && Set(l) <= all && multiset(Set(l)) == multiset(l)
  {
    forall x ensures multiset(all - Set(l))[x] == rest[x] && multiset(Set(l))[x] == multiset(l)[x]
      ensures x in Set(l) ==> x in all
    {
      assert multiset(all)[x] == rest[x] + multiset(l)[x];
      assert x in l <==> x in multiset(l);
    }
  }

  lemma MarkKeepsPlaced(s: State, id: TxId)
    requires Placed(s) && Enabled(s, Mark(id))
    ensures Placed(Next(s, Mark(id)))
  {
    var t := Next(s, Mark(id));
    LineParts(s);
    LineParts(t);
    Regroup(multiset(InResults(s.results)), multiset(InWorker(s.job)), multiset(Flat(s.app.commands)),
            multiset(s.app.pending), multiset(s.lost), multiset{id});
    assert multiset(t.app.pending) == multiset(s.app.pending) + multiset{id};
    OneMore(s.app.inflight, id);
  }

  lemma OneMore(all: set<TxId>, id: TxId)
    requires id !in all
    ensures multiset(all + {id}) == multiset(all) + multiset{id}
  {
  }

  lemma DispatchKeepsPlaced(s: State)
    requires Placed(s) && Enabled(s, Dispatch)
    ensures Placed(Next(s, Dispatch))
  {
    var t := Next(s, Dispatch);
    LineParts(s);
    LineParts(t);
    if s.app.open {
      FlatSnoc(s.app.commands, s.app.pending);
      assert multiset(Flat(t.app.commands)) == multiset(Flat(s.app.commands)) + multiset(s.app.pending);
    } else {
      TakenOut(s.app.inflight, multiset(Line(t)), s.app.pending);
    }
  }

  /** The worker takes commands in the order they were sent. */
  lemma TakeKeepsLine(s: State)
    requires Enabled(s, Take)
    ensures Line(Next(s, Take)) == Line(s)
  {
    var t := Next(s, Take);
    assert InWorker(t.job) == s.app.commands[0] && InWorker(s.job) == [];
    assert Flat(s.app.commands) == s.app.commands[0] + Flat(t.app.commands);
    assert InWorker(t.job) + (Flat(t.app.commands) + t.app.pending) == InWorker(s.job) + (Flat(s.app.commands) + s.app.pending);
  }

  lemma FetchKeepsLine(s: State, d: Details, tallies: Tallies)
    requires Enabled(s, Fetch(d, tallies))
    ensures Line(Next(s, Fetch(d, tallies))) == Line(s)
  {
    var j := s.job.value;
    IdsConcat(j.done, [Fetched(j.todo[0], d)]);
    assert j.todo == [j.todo[0]] + j.todo[1..];
    assert InWorker(Next(s, Fetch(d, tallies)).job) == InWorker(s.job);
  }

  lemma FetchFailsKeepsLine(s: State)
    requires Enabled(s, FetchFails)
    ensures multiset(Line(Next(s, FetchFails))) == multiset(Line(s))
  {
    var j, t := s.job.value, Next(s, FetchFails);
    LineParts(s);
    LineParts(t);
    InResultsSnoc(s.results, Failed(j.todo[0]));
    WithoutFirst(Ids(j.done), j.todo);
    Regroup(multiset(InResults(s.results)), multiset(InWorker(t.job)), multiset(Flat(s.app.commands)),
            multiset(s.app.pending), multiset(s.lost), multiset{j.todo[0]});
  }

  lemma FinishKeepsLine(s: State, deltas: seq<Delta>)
    requires Enabled(s, Finish(deltas))
    ensures Line(Next(s, Finish(deltas))) == Line(s)
  {
    var j, t := s.job.value, Next(s, Finish(deltas));
    InResultsSnoc(s.results, Complete(j.done, deltas));
    assert InWorker(s.job) == Ids(j.done) && InWorker(t.job) == [];
    MoveUp(InResults(s.results), Ids(j.done), Flat(s.app.commands) + s.app.pending, s.lost);
  }

  lemma MoveUp(a: seq<TxId>, b: seq<TxId>, c: seq<TxId>, d: seq<TxId>)
    ensures a + (b + c) + d == (a + b) + ([] + c) + d
  {
  }

  lemma StopKeepsLine(s: State)
    requires Enabled(s, Stop)
    ensures multiset(Line(Next(s, Stop))) == multiset(Line(s))
  {
    LineParts(s);
    LineParts(Next(s, Stop));
  }

  lemma HandleKeepsPlaced(s: State)
    requires Placed(s) && Enabled(s, Handle)
    ensures Placed(Next(s, Handle))
  {
    var t, r := Next(s, Handle), s.results[0];
    HandleTakesBag(s);
    TakenOut(s.app.inflight, multiset(Line(t)), ResultIds(r));
    match r
    case Failed(id) =>
      assert Set([id]) == {id};
    case Complete(done, _) =>
      IdsConcat(s.log, done);
      Booked(s.app.indexed, Ids(done));
  }

  /** The application handles results in the order they were sent. */
  lemma HandleTakes(s: State)
    requires Enabled(s, Handle)
    ensures Line(s) == ResultIds(s.results[0]) + Line(Next(s, Handle))
  {
    var t := Next(s, Handle);
    Front(ResultIds(s.results[0]), InResults(t.results), InWorker(s.job) + (Flat(s.app.commands) + s.app.pending), s.lost);
  }

  lemma HandleTakesBag(s: State)
    requires Enabled(s, Handle)
    ensures multiset(Line(s)) == multiset(Line(Next(s, Handle))) + multiset(ResultIds(s.results[0]))
  {
    HandleTakes(s);
  }

  lemma Front(a: seq<TxId>, b: seq<TxId>, c: seq<TxId>, d: seq<TxId>)
    ensures (a + b) + c + d == a + (b + c + d)
  {
  }

  lemma Booked(indexed: set<TxId>, ids: seq<TxId>)
    requires indexed !! Set(ids) && multiset(Set(ids)) == multiset(ids)
    ensures multiset(indexed + Set(ids)) == multiset(indexed) + multiset(ids)
  {
  }

  lemma StepKeepsPlaced(s: State, step: Step)
    requires Placed(s) && Enabled(s, step)
    ensures Placed(Next(s, step))
  {
    match step
    case Mark(id) => MarkKeepsPlaced(s, id);
    case Dispatch => DispatchKeepsPlaced(s);
    case Take => TakeKeepsLine(s);
    case Fetch(d, t) => FetchKeepsLine(s, d, t);
    case FetchFails => FetchFailsKeepsLine(s);
    case Finish(deltas) => FinishKeepsLine(s, deltas);
    case Handle => HandleKeepsPlaced(s);
    case Stop => StopKeepsLine(s);
  }

  /* What the tallies say. */

  ghost predicate ResultTallied(r: Result) {
    r.Complete? ==> exists m :: Tallied(m, DetailsOf(r.done)) && Lists(r.deltas, m)
  }

  /** The wallets account for the indexed transactions; the worker's tallies for what it has fetched. */
  ghost predicate Accounted(s: State) {
    && Tallied(s.app.wallets, DetailsOf(s.log))
    && (s.job.Some? ==> Tallied(s.job.value.tallies, DetailsOf(s.job.value.done)))
    && (forall i | 0 <= i < |s.results| :: ResultTallied(s.results[i]))
  }

  lemma NothingTallied()
    ensures Tallied(map[], [])
  {
  }

  lemma StepKeepsAccounted(s: State, step: Step)
    requires Accounted(s) && Enabled(s, step)
    ensures Accounted(Next(s, step))
  {
    match step
    case Take => NothingTallied();
    case Fetch(d, t) => FetchedTallied(s.job.value, d, t);
    case Finish(deltas) => FinishedTallied(s.job.value, deltas);
    case FetchFails => assert ResultTallied(Failed(s.job.value.todo[0]));
    case Handle => HandleKeepsAccounted(s);
    case _ =>
  }

  lemma FetchedTallied(j: Job, d: Details, t: Tallies)
    requires j.todo != [] && Tallied(j.tallies, DetailsOf(j.done)) && Accumulated(j.tallies, d, t)
    ensures Tallied(t, DetailsOf(j.done + [Fetched(j.todo[0], d)]))
  {
    AccumulatedTallies(j.tallies, DetailsOf(j.done), d, t);
    IdsConcat(j.done, [Fetched(j.todo[0], d)]);
    assert DetailsOf([Fetched(j.todo[0], d)]) == [d];
  }

  lemma FinishedTallied(j: Job, deltas: seq<Delta>)
    requires Tallied(j.tallies, DetailsOf(j.done)) && Lists(deltas, j.tallies)
    ensures ResultTallied(Complete(j.done, deltas))
  {
  }

  lemma HandleKeepsAccounted(s: State)
    requires Accounted(s) && Enabled(s, Handle)
    ensures Accounted(Next(s, Handle))
  {
    var r := s.results[0];
    assert ResultTallied(r);
    if r.Complete? {
      var m :| Tallied(m, DetailsOf(r.done)) && Lists(r.deltas, m);
      ApplyTallies(s.app.wallets, DetailsOf(s.log), r.deltas, m, DetailsOf(r.done));
      IdsConcat(s.log, r.done);
    }
  }

  /* Shape of what travels. */

  /** Chunks are never empty and never too long, and a stopped worker holds nothing. */
  ghost predicate WellFormed(s: State) {
    && |s.app.pending| <= CHUNK
    && (forall i | 0 <= i < |s.app.commands| :: 0 < |s.app.commands[i]| <= CHUNK)
    && (s.app.open ==> s.lost == []) && (!s.app.open ==> s.app.commands == [] && s.job.None?)
  }

  lemma StepKeepsWellFormed(s: State, step: Step)
    requires WellFormed(s) && Enabled(s, step)
    ensures WellFormed(Next(s, step))
  {
  }

  /* Whole runs. */

  ghost predicate Possible(s: State, run: seq<Step>)
    decreases |run|
  {
    run == [] || (Enabled(s, run[0]) && Possible(Next(s, run[0]), run[1..]))
  }

  ghost function After(s: State, run: seq<Step>): State
    requires Possible(s, run)
    decreases |run|
  {
    if run == [] then s else After(Next(s, run[0]), run[1..])
  }

  lemma {:induction false} RunSnoc(s: State, run: seq<Step>, step: Step)
    requires Possible(s, run) && Enabled(After(s, run), step)
    ensures Possible(s, run + [step]) && After(s, run + [step]) == Next(After(s, run), step)
    decreases |run|
  {
    if run == [] {
      assert run + [step] == [step] && [step][1..] == [];
    } else {
      RunSnoc(Next(s, run[0]), run[1..], step);
      assert (run + [step])[1..] == run[1..] + [step];
    }
  }

  ghost predicate Good(s: State) { Placed(s) && Accounted(s) && WellFormed(s) }

  lemma {:induction false} RunKeepsGood(s: State, run: seq<Step>)
    requires Good(s) && Possible(s, run)
    ensures Good(After(s, run))
    decreases |run|
  {
    if run != [] {
      StepKeepsPlaced(s, run[0]);
      StepKeepsAccounted(s, run[0]);
      StepKeepsWellFormed(s, run[0]);
      RunKeepsGood(Next(s, run[0]), run[1..]);
    }
  }

  lemma InitialIsGood()
    ensures Good(Initial())
  {
    NothingTallied();
    assert DetailsOf([]) == [] && Ids([]) == [] && Line(Initial()) == [];
  }

  /** In every reachable state, transactions are placed exactly once and the wallets are exact up to saturation. */
  lemma ExactlyOnce(run: seq<Step>)
    requires Possible(Initial(), run)
    ensures Good(After(Initial(), run))
  {
    InitialIsGood();
    RunKeepsGood(Initial(), run);
  }

  /** Two runs that indexed the same transactions show the same wallets, however they were chunked and retried. */
  lemma ChunkingIsInvisible(run: seq<Step>, other: seq<Step>)
    requires Possible(Initial(), run) && Possible(Initial(), other)
    requires multiset(DetailsOf(After(Initial(), run).log)) == multiset(DetailsOf(After(Initial(), other).log))
    ensures After(Initial(), run).app.wallets == After(Initial(), other).app.wallets
  {
    var s, t := After(Initial(), run), After(Initial(), other);
    ExactlyOnce(run);
    ExactlyOnce(other);
    TalliedUnique(s.app.wallets, t.app.wallets, DetailsOf(s.log), DetailsOf(t.log));
  }
}
