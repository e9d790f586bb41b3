/**
 * The key-fair queue: a concurrent map from keys to their latest value, and a FIFO channel of keys.
 * A send inserts into the map and, if the key was not there, pushes it into the channel; a receive
 * pops a key from the channel and removes its value from the map. Each of these four is one atomic
 * step, and the steps of any number of senders and of the one receiver interleave freely.
 */
module KeyFairQueue {
  import opened Options
  import opened Sequences

  /**
   * pending: keys whose sender has inserted and not pushed yet; hand: the key the receiver has
   * popped and not removed yet; stranded: keys whose place in the queue was lost with the receiver.
   */
  datatype State<K, V> = State(enqueued: map<K, V>, channel: seq<K>, pending: seq<K>, hand: Option<K>,
                               stranded: seq<K>, open: bool)

  datatype Step<K, V> = Insert(key: K, value: V) | Push(i: nat) | Pop | Remove | Close

  datatype Outcome<K, V> = Silent | SendError(key: K) | Received(key: K, value: V) | Panic

  function Initial<K, V>(): State<K, V> { State(map[], [], [], None, [], true) }

  predicate Enabled<K, V>(s: State<K, V>, step: Step<K, V>) {
    match step
    case Insert(_, _) => true
    case Push(i) => i < |s.pending|
    case Pop => s.open && s.hand.None? && s.channel != []
    case Remove => s.hand.Some?
    case Close => s.open && s.hand.None?
  }

  function Next<K, V>(s: State<K, V>, step: Step<K, V>): State<K, V>
    requires Enabled(s, step)
  {
    match step
    case Insert(k, v) =>
      s.(enqueued := s.enqueued[k := v], pending := if k in s.enqueued then s.pending else s.pending + [k])
    case Push(i) =>
      var t := s.(pending := Without(s.pending, i));
      if s.open then t.(channel := s.channel + [s.pending[i]]) else t.(stranded := s.stranded + [s.pending[i]])
    case Pop => s.(hand := Some(s.channel[0]), channel := s.channel[1..])
    case Remove => s.(hand := None, enqueued := s.enqueued - {s.hand.value})
    case Close => s.(open := false, channel := [], stranded := s.stranded + s.channel)
  }

  function Result<K, V>(s: State<K, V>, step: Step<K, V>): Outcome<K, V>
    requires Enabled(s, step)
  {
    match step
    case Push(i) => if s.open then Silent else SendError(s.pending[i])
    case Remove =>
      var k := s.hand.value;
      if k in s.enqueued then Received(k, s.enqueued[k]) else Panic
    case _ => Silent
  }

  /* Runs. */

  ghost predicate Possible<K, V>(run: seq<Step<K, V>>)
    decreases |run|, 0
  {
    run == [] || (Possible(Init(run)) && Enabled(After(Init(run)), Last(run)))
  }

  ghost function After<K, V>(run: seq<Step<K, V>>): State<K, V>
    requires Possible(run)
    decreases |run|, 1
  {
    if run == [] then Initial() else Next(After(Init(run)), Last(run))
  }

  function Init<T>(s: seq<T>): seq<T>
    requires s != []
  {
    s[..|s| - 1]
  }

  function Last<T>(s: seq<T>): T
    requires s != []
  {
    s[|s| - 1]
  }

  /* The map's keys. */

  /** The receiver's key and then the channel's, in the order they will be delivered. */
  function Queue<K, V>(s: State<K, V>): seq<K> {
    (if s.hand.Some? then [s.hand.value] else []) + s.channel
  }

  function Tokens<K, V>(s: State<K, V>): multiset<K> {
    multiset(Queue(s)) + multiset(s.pending) + multiset(s.stranded)
  }

  /** Every key of the map is in exactly one place, once, and nothing else is. */
  ghost predicate Valid<K, V>(s: State<K, V>) {
    && Tokens(s) == multiset(s.enqueued.Keys)
    && (s.open ==> s.stranded == [])
    && (!s.open ==> Queue(s) == [])
  }

  lemma Taken<K, V>(s: State<K, V>)
    requires s.hand.None? && s.channel != []
    ensures Queue(Next(s.(open := true), Pop)) == Queue(s)
  {
    assert s.channel == [s.channel[0]] + s.channel[1..];
  }

  lemma InsertKeepsValid<K, V>(s: State<K, V>, k: K, v: V)
    requires Valid(s)
    ensures Valid(Next(s, Insert(k, v)))
  {
    var t := Next(s, Insert(k, v));
    if k in s.enqueued {
      assert t.enqueued.Keys == s.enqueued.Keys;
    } else {
      assert multiset(t.enqueued.Keys) == multiset(s.enqueued.Keys) + multiset{k};
    }
  }

  lemma RemoveKeepsValid<K, V>(s: State<K, V>)
    requires Valid(s) && s.hand.Some?
    ensures s.hand.value in s.enqueued && Valid(Next(s, Remove))
  {
    var k, t := s.hand.value, Next(s, Remove);
    assert Queue(s) == [k] + Queue(t);
    assert k in Tokens(s);
    assert multiset(Queue(s)) == multiset(Queue(t)) + multiset{k};
    assert Tokens(s) == Tokens(t) + multiset{k};
    assert multiset(s.enqueued.Keys) == multiset(t.enqueued.Keys) + multiset{k};
    CancelToken(Tokens(t), multiset(t.enqueued.Keys), k);
  }

  lemma CancelToken<K>(a: multiset<K>, b: multiset<K>, k: K)
    requires a + multiset{k} == b + multiset{k}
    ensures a == b
  {
    assert a == (a + multiset{k}) - multiset{k};
    assert b == (b + multiset{k}) - multiset{k};
  }

  lemma MoveToken<K>(q: multiset<K>, p: multiset<K>, lost: multiset<K>, k: K)
    ensures (q + multiset{k}) + p + lost == q + (p + multiset{k}) + lost == q + p + (lost + multiset{k})
  {
  }

  lemma PushKeepsValid<K, V>(s: State<K, V>, i: nat)
    requires Valid(s) && i < |s.pending|
    ensures Valid(Next(s, Push(i)))
  {
    var k, t := s.pending[i], Next(s, Push(i));
    Removed(s.pending, i);
    assert multiset(s.pending) == multiset(t.pending) + multiset{k};
    MoveToken(multiset(Queue(s)), multiset(t.pending), multiset(s.stranded), k);
    if s.open { assert Queue(t) == Queue(s) + [k]; }
  }

  lemma StepKeepsValid<K, V>(s: State<K, V>, step: Step<K, V>)
    requires Valid(s) && Enabled(s, step)
    ensures Valid(Next(s, step)) && !Result(s, step).Panic?
  {
    match step
    case Insert(k, v) => InsertKeepsValid(s, k, v);
    case Push(i) => PushKeepsValid(s, i);
    case Pop => Taken(s);
    case Remove => RemoveKeepsValid(s);
    case Close =>
  }

  /** In every reachable state the map's keys are the disjoint union of the keys under way. */
  lemma {:induction false} AlwaysValid<K, V>(run: seq<Step<K, V>>)
    requires Possible(run)
    ensures Valid(After(run))
  {
    if run != [] {
      AlwaysValid(Init(run));
      StepKeepsValid(After(Init(run)), Last(run));
    }
  }

  /** A popped key is always found: the receiver never panics. */
  lemma NeverPanics<K, V>(run: seq<Step<K, V>>)
    requires Possible(run) && run != []
    ensures !Result(After(Init(run)), Last(run)).Panic?
  {
    AlwaysValid(Init(run));
    StepKeepsValid(After(Init(run)), Last(run));
  }

  lemma TokensDistinct<K, V>(s: State<K, V>, p: nat, q: nat)
    requires Valid(s) && p < q < |Queue(s)|
    ensures Queue(s)[p] != Queue(s)[q]
  {
    var l := Queue(s);
    Removed(l, q);
    assert Without(l, q)[p] == l[p];
    assert l[p] in multiset(Without(l, q));
    assert Tokens(s)[l[p]] <= 1;
  }

  /* What became of every sent value. */

  /**
   * sent: every insertion, in order; holder: for a key of the map, the send its value came from;
   * replaced: for a send whose value was overwritten, the send that did it; delivered: the sends
   * whose values were received, in order; pushed: the keys that entered the channel, in order.
   */
  datatype History<K, V> = History(sent: seq<(K, V)>, holder: map<K, nat>, replaced: map<nat, nat>,
                                   delivered: seq<nat>, pushed: seq<K>)

  function Record<K, V>(s: State<K, V>, h: History<K, V>, step: Step<K, V>): History<K, V>
    requires Enabled(s, step)
  {
    match step
    case Insert(k, v) =>
      var n := |h.sent|;
      h.(sent := h.sent + [(k, v)], holder := h.holder[k := n],
         replaced := if k in h.holder then h.replaced[h.holder[k] := n] else h.replaced)
    case Push(i) => if s.open then h.(pushed := h.pushed + [s.pending[i]]) else h
    case Remove =>
      var k := s.hand.value;
      if k in h.holder then h.(delivered := h.delivered + [h.holder[k]], holder := h.holder - {k}) else h
    case _ => h
  }

  ghost function Story<K, V>(run: seq<Step<K, V>>): History<K, V>
    requires Possible(run)
  {
    if run == [] then History([], map[], map[], [], [])
    else Record(After(Init(run)), Story(Init(run)), Last(run))
  }

  predicate Held<K, V>(h: History<K, V>, i: nat)
    requires i < |h.sent|
  {
    h.sent[i].0 in h.holder && h.holder[h.sent[i].0] == i
  }

  /** The map holds, for each of its keys, the value of the latest send of that key. */
  ghost predicate HoldsLatest<K, V>(s: State<K, V>, h: History<K, V>) {
    && h.holder.Keys == s.enqueued.Keys
    && (forall k | k in h.holder :: h.holder[k] < |h.sent| && h.sent[h.holder[k]] == (k, s.enqueued[k]))
    && (forall k, i | k in h.holder && 0 <= i < |h.sent| :: h.sent[i].0 == k ==> i <= h.holder[k])
  }

  ghost predicate DeliveredOnce<K, V>(h: History<K, V>) {
    && (forall j | 0 <= j < |h.delivered| :: h.delivered[j] < |h.sent|)
    && (forall j, l | 0 <= j < l < |h.delivered| :: h.delivered[j] != h.delivered[l])
  }

  /** An overwritten value was overwritten by a later send of the same key. */
  ghost predicate ReplacedLater<K, V>(h: History<K, V>) {
    forall i | i in h.replaced :: i < h.replaced[i] < |h.sent| && h.sent[h.replaced[i]].0 == h.sent[i].0
  }

  /** Every send is exactly one of held, delivered and replaced. */
  ghost predicate Accounted<K, V>(h: History<K, V>) {
    forall i: nat | i < |h.sent| ::
      if Held(h, i) then i !in h.delivered && i !in h.replaced
      else i in h.delivered <==> i !in h.replaced
  }

  ghost predicate Conserved<K, V>(s: State<K, V>, h: History<K, V>) {
    HoldsLatest(s, h) && DeliveredOnce(h) && ReplacedLater(h) && Accounted(h)
  }

  lemma InsertHolds<K, V>(s: State<K, V>, h: History<K, V>, k: K, v: V)
    requires HoldsLatest(s, h)
    ensures HoldsLatest(Next(s, Insert(k, v)), Record(s, h, Insert(k, v)))
  {
  }

  lemma InsertAccounts<K, V>(s: State<K, V>, h: History<K, V>, k: K, v: V, i: nat)
    requires Conserved(s, h) && i <= |h.sent|
    ensures var g := Record(s, h, Insert(k, v));
      if Held(g, i) then i !in g.delivered && i !in g.replaced else i in g.delivered <==> i !in g.replaced
  {
    var g := Record(s, h, Insert(k, v));
    if i < |h.sent| {
      assert g.sent[i] == h.sent[i];
      assert Held(g, i) <==> Held(h, i) && h.sent[i].0 != k;
    }
  }

  lemma InsertConserves<K, V>(s: State<K, V>, h: History<K, V>, k: K, v: V)
    requires Conserved(s, h)
    ensures Conserved(Next(s, Insert(k, v)), Record(s, h, Insert(k, v)))
  {
    InsertHolds(s, h, k, v);
    forall i: nat | i <= |h.sent|
      ensures var g := Record(s, h, Insert(k, v));
        if Held(g, i) then i !in g.delivered && i !in g.replaced else i in g.delivered <==> i !in g.replaced
    {
      InsertAccounts(s, h, k, v, i);
    }
  }

  lemma RemoveConserves<K, V>(s: State<K, V>, h: History<K, V>)
    requires Conserved(s, h) && s.hand.Some? && s.hand.value in s.enqueued
    ensures Conserved(Next(s, Remove), Record(s, h, Remove))
  {
    var g := Record(s, h, Remove);
    var o := h.holder[s.hand.value];
    assert Held(h, o);
    forall i: nat | i < |g.sent|
      ensures if Held(g, i) then i !in g.delivered && i !in g.replaced else i in g.delivered <==> i !in g.replaced
    {
      assert Held(g, i) <==> Held(h, i) && i != o;
      assert i in g.delivered <==> i in h.delivered || i == o;
    }
  }

  /** Over every run, each sent value is delivered once, still held, or replaced, and never two of these. */
  lemma {:induction false} AlwaysConserved<K, V>(run: seq<Step<K, V>>)
    requires Possible(run)
    ensures Conserved(After(run), Story(run))
  {
    if run != [] {
      var s, h := After(Init(run)), Story(Init(run));
      AlwaysConserved(Init(run));
      match Last(run)
      case Insert(k, v) => InsertConserves(s, h, k, v);
      case Remove =>
        NeverPanics(run);
        RemoveConserves(s, h);
      case _ =>
    }
  }

  /** What is received for a key is the value of the last send of it. */
  lemma ReceivesLatest<K, V>(run: seq<Step<K, V>>, i: nat)
    requires Possible(run + [Remove]) && Possible(run)
    requires var h := Story(run);
      i < |h.sent| && h.sent[i].0 == After(run).hand.value
      && forall j | i < j < |h.sent| :: h.sent[j].0 != h.sent[i].0
    ensures Result(After(run), Remove) == Received(Story(run).sent[i].0, Story(run).sent[i].1)
    ensures Story(run + [Remove]).delivered == Story(run).delivered + [i]
  {
    assert Init(run + [Remove]) == run;
    NeverPanics(run + [Remove]);
    AlwaysConserved(run);
    HolderIsLast(After(run), Story(run), i);
  }

  lemma HolderIsLast<K, V>(s: State<K, V>, h: History<K, V>, i: nat)
    requires HoldsLatest(s, h) && i < |h.sent| && h.sent[i].0 in s.enqueued
    requires forall j | i < j < |h.sent| :: h.sent[j].0 != h.sent[i].0
    ensures Held(h, i) && h.sent[i].1 == s.enqueued[h.sent[i].0]
  {
  }

  /* Order and fairness. */

  ghost function DeliveredKeys<K, V>(h: History<K, V>): seq<K>
    requires DeliveredOnce(h)
  {
    seq(|h.delivered|, j requires 0 <= j < |h.delivered| => h.sent[h.delivered[j]].0)
  }

  /** Keys leave in the order they entered; while the receiver lives, none is lost on the way. */
  ghost predicate InOrder<K, V>(s: State<K, V>, h: History<K, V>)
    requires DeliveredOnce(h)
  {
    && DeliveredKeys(h) + Queue(s) <= h.pushed
    && (s.open ==> DeliveredKeys(h) + Queue(s) == h.pushed)
  }

  lemma RemoveKeepsOrder<K, V>(s: State<K, V>, h: History<K, V>)
    requires s.hand.Some? && s.hand.value in s.enqueued && Conserved(s, h) && InOrder(s, h)
    requires DeliveredOnce(Record(s, h, Remove))
    ensures InOrder(Next(s, Remove), Record(s, h, Remove))
  {
    var t, g, k := Next(s, Remove), Record(s, h, Remove), s.hand.value;
    assert DeliveredKeys(g) == DeliveredKeys(h) + [k];
    assert DeliveredKeys(h) + Queue(s) == DeliveredKeys(g) + Queue(t);
  }

  lemma StepKeepsOrder<K, V>(s: State<K, V>, h: History<K, V>, step: Step<K, V>)
    requires Enabled(s, step) && Valid(s) && Conserved(s, h) && InOrder(s, h)
    requires DeliveredOnce(Record(s, h, step))
    ensures InOrder(Next(s, step), Record(s, h, step))
  {
    match step
    case Insert(k, v) => SameKeys(h, Record(s, h, step));
    case Push(i) => PushKeepsOrder(s, h, i);
    case Pop => Taken(s);
    case Remove =>
      RemoveKeepsValid(s);
      RemoveKeepsOrder(s, h);
    case Close =>
      assert Queue(Next(s, step)) == [];
  }

  lemma SameKeys<K, V>(h: History<K, V>, g: History<K, V>)
    requires DeliveredOnce(h) && DeliveredOnce(g) && g.delivered == h.delivered && h.sent <= g.sent
    ensures DeliveredKeys(g) == DeliveredKeys(h)
  {
  }

  lemma PushKeepsOrder<K, V>(s: State<K, V>, h: History<K, V>, i: nat)
    requires Enabled(s, Push(i)) && DeliveredOnce(h) && InOrder(s, h)
    ensures InOrder(Next(s, Push(i)), Record(s, h, Push(i)))
  {
    var t, g := Next(s, Push(i)), Record(s, h, Push(i));
    SameKeys(h, g);
    if s.open {
      assert Queue(t) == Queue(s) + [s.pending[i]];
      assert DeliveredKeys(h) + Queue(t) == DeliveredKeys(h) + Queue(s) + [s.pending[i]];
    }
  }

  lemma {:induction false} AlwaysInOrder<K, V>(run: seq<Step<K, V>>)
    requires Possible(run)
    ensures DeliveredOnce(Story(run)) && InOrder(After(run), Story(run))
  {
    AlwaysConserved(run);
    if run != [] {
      AlwaysInOrder(Init(run));
      AlwaysValid(Init(run));
      AlwaysConserved(Init(run));
      StepKeepsOrder(After(Init(run)), Story(Init(run)), Last(run));
    }
  }

  lemma {:induction false} Prefix<K, V>(run: seq<Step<K, V>>, more: seq<Step<K, V>>)
    requires Possible(run + more)
    ensures Possible(run) && Story(run).pushed <= Story(run + more).pushed
    ensures Possible(run) && Story(run).delivered <= Story(run + more).delivered && Story(run).sent <= Story(run + more).sent
    decreases |more|
  {
    if more == [] {
      assert run + more == run;
    } else {
      assert Init(run + more) == run + Init(more);
      Prefix(run, Init(more));
    }
  }

  /**
   * Take any reachable state and any continuation of its run. The keys delivered from then on start
   * with the queue as it stood, in order and all different: the key in place p is delivered after
   * exactly the p keys before it, however many sends happen meanwhile. Until then, as long as the
   * receiver lives, the key is still queued, with exactly the not yet delivered ones before it.
   */
  lemma Fairness<K, V>(run: seq<Step<K, V>>, more: seq<Step<K, V>>, p: nat)
    requires Possible(run + more) && Possible(run)
    requires p < |Queue(After(run))|
    ensures DeliveredOnce(Story(run)) && DeliveredOnce(Story(run + more))
    ensures forall i, j | 0 <= i < j < |Queue(After(run))| :: Queue(After(run))[i] != Queue(After(run))[j]
    ensures ServedInTurn(Queue(After(run)), DeliveredKeys(Story(run)), DeliveredKeys(Story(run + more)),
                         Queue(After(run + more)), After(run + more).open, p)
  {
    AlwaysInOrder(run);
    AlwaysInOrder(run + more);
    AlwaysValid(run);
    Prefix(run, more);
    var s, t, g := After(run), After(run + more), Story(run + more);
    forall i, j | 0 <= i < j < |Queue(s)| ensures Queue(s)[i] != Queue(s)[j] { TokensDistinct(s, i, j); }
    LaterDeliveries(Story(run), g);
    QueuePositions(DeliveredKeys(Story(run)), Queue(s), DeliveredKeys(g), Queue(t), g.pushed, t.open, p);
  }

  lemma LaterDeliveries<K, V>(h: History<K, V>, g: History<K, V>)
    requires DeliveredOnce(h) && DeliveredOnce(g) && h.delivered <= g.delivered && h.sent <= g.sent
    ensures DeliveredKeys(h) <= DeliveredKeys(g)
  {
  }

  /**
   * Of the keys delivered by now, those after the first |before| start with the queue q as it was, as
   * far as place p; if place p has not been served and the receiver lives, its key is still queued,
   * with exactly the unserved keys of q before it.
   */
  ghost predicate ServedInTurn<K>(q: seq<K>, before: seq<K>, after: seq<K>, rest: seq<K>, open: bool, p: nat)
    requires p < |q|
  {
    && before <= after
    && (|after| > |before| + p ==> after[|before|..][..p + 1] == q[..p + 1])
    && (|after| <= |before| + p && open ==>
          var i := p - (|after| - |before|);
          i < |rest| && rest[..i + 1] == q[p - i..p + 1])
  }

  lemma QueuePositions<K>(before: seq<K>, q: seq<K>, after: seq<K>, rest: seq<K>, pushed: seq<K>, open: bool, p: nat)
    requires before <= after && before + q <= pushed && after + rest <= pushed && p < |q|
    requires open ==> after + rest == pushed
    ensures ServedInTurn(q, before, after, rest, open, p)
  {
    var b := |before|;
    if |after| > b + p {
      forall j | 0 <= j <= p ensures after[b..][j] == q[j] {
        assert after[b + j] == (after + rest)[b + j] == pushed[b + j] == (before + q)[b + j];
      }
    } else if open {
      var i := p - (|after| - b);
      forall j | 0 <= j <= i ensures rest[j] == q[p - i + j] {
        assert rest[j] == pushed[|after| + j] == (before + q)[|after| + j];
      }
    }
  }

  /* The shared object. */

  /** Both halves of a send, one right after the other. */
  function Sent<K, V>(s: State<K, V>, key: K, value: V): State<K, V> {
    var t := Next(s, Insert(key, value));
    if key in s.enqueued then t else Next(t, Push(|t.pending| - 1))
  }

  lemma SentKeepsValid<K, V>(s: State<K, V>, key: K, value: V)
    requires Valid(s)
    ensures Valid(Sent(s, key, value))
  {
    if key in s.enqueued {
      InsertKeepsValid(s, key, value);
    } else {
      TwoStepsKeepValid(s, Insert(key, value), Push(|s.pending|));
    }
  }

  lemma TwoStepsKeepValid<K, V>(s: State<K, V>, first: Step<K, V>, second: Step<K, V>)
    requires Valid(s) && Enabled(s, first) && Enabled(Next(s, first), second)
    ensures Valid(Next(Next(s, first), second))
  {
    StepKeepsValid(s, first);
    StepKeepsValid(Next(s, first), second);
  }

  /** A send sets the key's value, and queues the key last exactly when it was not under way already. */
  lemma SentQueues<K, V>(s: State<K, V>, key: K, value: V)
    ensures var t := Sent(s, key, value);
      && t.enqueued == s.enqueued[key := value] && t.pending == s.pending
      && (s.open ==> Queue(t) == Queue(s) + if key in s.enqueued then [] else [key])
  {
    var t := Next(s, Insert(key, value));
    if key !in s.enqueued {
      assert Without(t.pending, |t.pending| - 1) == s.pending;
    }
  }

  /**
   * The map and the key channel behind the senders and the receiver. Each step method is one atomic
   * step; the keys in the hands of the threads are recorded for the specification only.
   */
  class Channel<K(==), V> {
    var enqueued: map<K, V>
    var keys: seq<K>
    var open: bool
    ghost var pending: seq<K>
    ghost var hand: Option<K>
    ghost var stranded: seq<K>

    ghost function Abs(): State<K, V>
      reads this
    {
      State(enqueued, keys, pending, hand, stranded, open)
    }

    constructor ()
      ensures Abs() == Initial()
    {
      enqueued, keys, open := map[], [], true;
      pending, hand, stranded := [], None, [];
    }

    /** First half of a send: tells whether the key still has to be pushed. */
    method InsertStep(key: K, value: V) returns (isNew: bool)
      modifies this
      ensures Abs() == Next(old(Abs()), Insert(key, value))
      ensures isNew <==> key !in old(enqueued)
    {
      isNew := key !in enqueued;
      enqueued := enqueued[key := value];
      if isNew { pending := pending + [key]; }
    }

    /** Second half of a send of a new key, the i-th of those under way. */
    method PushStep(key: K, ghost i: nat) returns (result: Outcome<K, V>)
      requires i < |pending| && pending[i] == key
      modifies this
      ensures Abs() == Next(old(Abs()), Push(i))
      ensures result == Result(old(Abs()), Push(i))
    {
      pending := Without(pending, i);
      if open {
        keys := keys + [key];
        result := Silent;
      } else {
        stranded := stranded + [key];
        result := SendError(key);
      }
    }

    method PopStep() returns (key: K)
      requires Enabled(Abs(), Pop)
      modifies this
      ensures Abs() == Next(old(Abs()), Pop) && hand == Some(key)
    {
      key := keys[0];
      keys := keys[1..];
      hand := Some(key);
    }

    method RemoveStep(key: K) returns (result: Outcome<K, V>)
      requires hand == Some(key)
      modifies this
      ensures Abs() == Next(old(Abs()), Remove)
      ensures result == Result(old(Abs()), Remove)
    {
      result := if key in enqueued then Received(key, enqueued[key]) else Panic;
      enqueued := enqueued - {key};
      hand := None;
    }

    /** A whole send that no other step interrupts. */
    method Send(key: K, value: V) returns (result: Outcome<K, V>)
      modifies this
      ensures Abs() == Sent(old(Abs()), key, value)
      ensures result == if key in old(enqueued) || old(open) then Silent else SendError(key)
    {
      var isNew := InsertStep(key, value);
      result := Silent;
      if isNew { result := PushStep(key, |pending| - 1); }
    }

    /** A whole receive from a non-empty channel that no other step interrupts. */
    method Recv() returns (key: K, value: V)
      requires Valid(Abs()) && Enabled(Abs(), Pop)
      modifies this
      ensures Valid(Abs())
      ensures key == old(keys)[0] && keys == old(keys)[1..] && key in old(enqueued) && value == old(enqueued)[key]
      ensures enqueued == old(enqueued) - {key} && hand == None && pending == old(pending) && open
    {
      StepKeepsValid(Abs(), Pop);
      key := PopStep();
      RemoveKeepsValid(Abs());
      var result := RemoveStep(key);
      value := result.value;
    }
  }
}
