/** What transactions add to wallets: saturating totals and the exact sums behind them. */
module WalletTally {
  import opened Options
  import opened Sequences

  type Address = string
  const MAX: nat := 0xffff_ffff_ffff_ffff

  /** An input or output: its wallet, unless the label is blank, and its amount, 0 when absent. */
  datatype Note = Note(wallet: Option<Address>, amount: nat)
  datatype Details = Details(inputs: seq<Note>, outputs: seq<Note>)

  datatype Tally = Tally(received: nat, sent: nat, txCount: nat)
  datatype Delta = Delta(address: Address, tally: Tally)

  type Tallies = map<Address, Tally>

  const ZERO := Tally(0, 0, 0)

  function Sat(n: nat): nat { if n <= MAX then n else MAX }

  /** Addition of machine tallies: amounts saturate, counts do not. */
  function SatPlus(x: Tally, y: Tally): Tally {
    Tally(Sat(x.received + y.received), Sat(x.sent + y.sent), x.txCount + y.txCount)
  }

  function Plus(x: Tally, y: Tally): Tally {
    Tally(x.received + y.received, x.sent + y.sent, x.txCount + y.txCount)
  }

  function Clamp(x: Tally): Tally { Tally(Sat(x.received), Sat(x.sent), x.txCount) }

  lemma ClampPlus(x: Tally, y: Tally)
    ensures SatPlus(Clamp(x), Clamp(y)) == Clamp(Plus(x, y)) == SatPlus(Clamp(x), y)
  {
  }

  function At(m: Tallies, a: Address): Tally { if a in m then m[a] else ZERO }

  /* The exact meaning. */

  function SumFor(notes: seq<Note>, a: Address): nat {
    if notes == [] then 0
    else SumFor(notes[..|notes| - 1], a) + (var n := notes[|notes| - 1]; if n.wallet == Some(a) then n.amount else 0)
  }

  predicate Names(notes: seq<Note>, a: Address) { exists i | 0 <= i < |notes| :: notes[i].wallet == Some(a) }

  predicate Touches(d: Details, a: Address) { Names(d.inputs, a) || Names(d.outputs, a) }

  /** What one transaction adds to a wallet. */
  function Exact(d: Details, a: Address): Tally {
    Tally(SumFor(d.outputs, a), SumFor(d.inputs, a), if Touches(d, a) then 1 else 0)
  }

  /** The sum of what the members of a list add. */
  function SumOf<T>(s: seq<T>, f: T -> Tally): Tally {
    if s == [] then ZERO else Plus(f(s[0]), SumOf(s[1..], f))
  }

  lemma PlusLaws(x: Tally, y: Tally, z: Tally)
    ensures Plus(Plus(x, y), z) == Plus(x, Plus(y, z)) && Plus(x, y) == Plus(y, x) && Plus(ZERO, x) == x
  {
  }

  lemma SumOne<T>(x: T, f: T -> Tally)
    ensures SumOf([x], f) == f(x)
  {
    assert [x][1..] == [];
  }

  lemma SumConcat<T>(s: seq<T>, t: seq<T>, f: T -> Tally)
    ensures SumOf(s + t, f) == Plus(SumOf(s, f), SumOf(t, f))
  {
    SumJoined(s, t, s + t, f);
  }

  lemma {:induction false} SumJoined<T>(s: seq<T>, t: seq<T>, u: seq<T>, f: T -> Tally)
    requires u == s + t
    ensures SumOf(u, f) == Plus(SumOf(s, f), SumOf(t, f))
    decreases |s|
  {
    if s == [] {
      assert u == t;
      PlusLaws(SumOf(t, f), ZERO, ZERO);
    } else {
      SumJoined(s[1..], t, u[1..], f);
      SumOnto(s, t, u, f);
    }
  }

  lemma SumOnto<T>(s: seq<T>, t: seq<T>, u: seq<T>, f: T -> Tally)
    requires s != [] && u != [] && u[0] == s[0] && u[1..] == s[1..] + t
    requires SumOf(s[1..] + t, f) == Plus(SumOf(s[1..], f), SumOf(t, f))
    ensures SumOf(u, f) == Plus(SumOf(s, f), SumOf(t, f))
  {
    PlusLaws(f(s[0]), SumOf(s[1..], f), SumOf(t, f));
  }

  lemma {:induction false} SumWithout<T>(s: seq<T>, i: nat, f: T -> Tally)
    requires i < |s|
    ensures SumOf(s, f) == Plus(f(s[i]), SumOf(Without(s, i), f))
  {
    if i > 0 {
      SumWithout(s[1..], i - 1, f);
      assert Without(s, i)[1..] == Without(s[1..], i - 1);
      var rest := SumOf(Without(s[1..], i - 1), f);
      PlusLaws(f(s[0]), f(s[i]), rest);
      PlusLaws(f(s[i]), f(s[0]), rest);
    } else {
      assert Without(s, 0) == s[1..];
    }
  }

  lemma {:induction false} SumPermutes<T>(s: seq<T>, t: seq<T>, f: T -> Tally)
    requires multiset(s) == multiset(t)
    ensures SumOf(s, f) == SumOf(t, f)
    decreases |s|
  {
    if s == [] {
      assert |t| == |multiset(t)|;
    } else {
      assert s[0] in multiset(t);
      var i :| 0 <= i < |t| && t[i] == s[0];
      Removed(s, 0);
      Removed(t, i);
      assert Without(s, 0) == s[1..];
      SumWithout(t, i, f);
      SumPermutes(s[1..], Without(t, i), f);
    }
  }

  /** What a list of transactions adds to a wallet. */
  function Total(ds: seq<Details>, a: Address): Tally { SumOf(ds, (d: Details) => Exact(d, a)) }

  lemma TotalConcat(ds: seq<Details>, es: seq<Details>, a: Address)
    ensures Total(ds + es, a) == Plus(Total(ds, a), Total(es, a))
  {
    SumConcat(ds, es, (d: Details) => Exact(d, a));
  }

  /** The tallies are, wallet by wallet, the exact totals cut off at the largest word. */
  ghost predicate Tallied(m: Tallies, ds: seq<Details>) {
    forall a: Address :: (a in m <==> Total(ds, a).txCount > 0) && At(m, a) == Clamp(Total(ds, a))
  }

  /** Tallies that account for the same transactions are the same tallies. */
  lemma TalliedUnique(m: Tallies, n: Tallies, ds: seq<Details>, es: seq<Details>)
    requires Tallied(m, ds) && Tallied(n, es) && multiset(ds) == multiset(es)
    ensures m == n
  {
    forall a: Address ensures a in m <==> a in n
      ensures At(m, a) == At(n, a)
    {
      SumPermutes(ds, es, (d: Details) => Exact(d, a));
    }
    assert forall a | a in m :: m[a] == At(m, a) == At(n, a) == n[a];
  }

  /* One transaction. */

  /** The tallies after one more transaction. */
  ghost predicate Accumulated(m: Tallies, d: Details, r: Tallies) {
    forall a: Address :: (a in r <==> a in m || Touches(d, a)) && At(r, a) == SatPlus(At(m, a), Exact(d, a))
  }

  lemma AccumulatedTallies(m: Tallies, ds: seq<Details>, d: Details, r: Tallies)
    requires Tallied(m, ds) && Accumulated(m, d, r)
    ensures Tallied(r, ds + [d])
  {
    forall a: Address ensures (a in r <==> Total(ds + [d], a).txCount > 0) && At(r, a) == Clamp(Total(ds + [d], a)) {
      TotalConcat(ds, [d], a);
      SumOne(d, (x: Details) => Exact(x, a));
      ClampPlus(Total(ds, a), Exact(d, a));
    }
  }

  ghost predicate Fits(m: Tallies) { forall a | a in m :: m[a].received <= MAX && m[a].sent <= MAX }

  ghost predicate AfterInputs(m: Tallies, notes: seq<Note>, r: Tallies) {
    forall a: Address :: (a in r <==> a in m || Names(notes, a))
      && At(r, a) == At(m, a).(sent := Sat(At(m, a).sent + SumFor(notes, a)))
  }

  ghost predicate AfterOutputs(m: Tallies, notes: seq<Note>, r: Tallies) {
    forall a: Address :: (a in r <==> a in m || Names(notes, a))
      && At(r, a) == At(m, a).(received := Sat(At(m, a).received + SumFor(notes, a)))
  }

  lemma NamesSnoc(notes: seq<Note>, n: Note, a: Address)
    ensures Names(notes + [n], a) <==> Names(notes, a) || n.wallet == Some(a)
    ensures SumFor(notes + [n], a) == SumFor(notes, a) + if n.wallet == Some(a) then n.amount else 0
  {
    var s := notes + [n];
    assert s[..|notes|] == notes;
    if Names(notes, a) {
      var i :| 0 <= i < |notes| && notes[i].wallet == Some(a);
      assert s[i].wallet == Some(a);
    }
    if n.wallet == Some(a) { assert s[|notes|].wallet == Some(a); }
  }

  /** The wallets touched before, and those the notes name. */
  ghost predicate NamedSet(touched: set<Address>, before: set<Address>, notes: seq<Note>) {
    forall a: Address :: a in touched <==> a in before || Names(notes, a)
  }

  lemma NamedStep(touched: set<Address>, before: set<Address>, notes: seq<Note>, n: Note)
    requires NamedSet(touched, before, notes)
    ensures NamedSet(if n.wallet.Some? then touched + {n.wallet.value} else touched, before, notes + [n])
  {
    forall a: Address ensures Names(notes + [n], a) <==> Names(notes, a) || n.wallet == Some(a) {
      NamesSnoc(notes, n, a);
    }
  }

  lemma NoNotes(m: Tallies, before: set<Address>)
    requires Fits(m)
    ensures AfterInputs(m, [], m) && AfterOutputs(m, [], m) && NamedSet(before, before, [])
  {
  }

  function AddInput(r: Tallies, n: Note): Tallies {
    if n.wallet.None? then r
    else var entry := At(r, n.wallet.value); r[n.wallet.value := entry.(sent := Sat(entry.sent + n.amount))]
  }

  lemma AddInputStep(m: Tallies, notes: seq<Note>, r: Tallies, n: Note)
    requires AfterInputs(m, notes, r)
    ensures AfterInputs(m, notes + [n], AddInput(r, n))
  {
    var q := AddInput(r, n);
    forall a: Address ensures (a in q <==> a in m || Names(notes + [n], a))
      && At(q, a) == At(m, a).(sent := Sat(At(m, a).sent + SumFor(notes + [n], a)))
    {
      NamesSnoc(notes, n, a);
    }
  }

  method AddInputs(m: Tallies, notes: seq<Note>) returns (r: Tallies, touched: set<Address>)
    requires Fits(m)
    ensures AfterInputs(m, notes, r)
    ensures NamedSet(touched, {}, notes)
  {
    r, touched := m, {};
    NoNotes(m, {});
    assert notes[..0] == [];
    for i := 0 to |notes|
      invariant AfterInputs(m, notes[..i], r)
      invariant NamedSet(touched, {}, notes[..i])
    {
      var n := notes[i];
      assert notes[..i + 1] == notes[..i] + [n];
      AddInputStep(m, notes[..i], r, n);
      NamedStep(touched, {}, notes[..i], n);
      if n.wallet.Some? {
        var a := n.wallet.value;
        var entry := At(r, a);
        r := r[a := entry.(sent := Sat(entry.sent + n.amount))];
        touched := touched + {a};
      }
    }
    assert notes[..|notes|] == notes;
  }

  function AddOutput(r: Tallies, n: Note): Tallies {
    if n.wallet.None? then r
    else var entry := At(r, n.wallet.value); r[n.wallet.value := entry.(received := Sat(entry.received + n.amount))]
  }

  lemma AddOutputStep(m: Tallies, notes: seq<Note>, r: Tallies, n: Note)
    requires AfterOutputs(m, notes, r)
    ensures AfterOutputs(m, notes + [n], AddOutput(r, n))
  {
    var q := AddOutput(r, n);
    forall a: Address ensures (a in q <==> a in m || Names(notes + [n], a))
      && At(q, a) == At(m, a).(received := Sat(At(m, a).received + SumFor(notes + [n], a)))
    {
      NamesSnoc(notes, n, a);
    }
  }

  method AddOutputs(m: Tallies, notes: seq<Note>, before: set<Address>) returns (r: Tallies, touched: set<Address>)
    requires Fits(m)
    ensures AfterOutputs(m, notes, r)
    ensures NamedSet(touched, before, notes)
  {
    r, touched := m, before;
    NoNotes(m, before);
    assert notes[..0] == [];
    for i := 0 to |notes|
      invariant AfterOutputs(m, notes[..i], r)
      invariant NamedSet(touched, before, notes[..i])
    {
      var n := notes[i];
      assert notes[..i + 1] == notes[..i] + [n];
      AddOutputStep(m, notes[..i], r, n);
      NamedStep(touched, before, notes[..i], n);
      if n.wallet.Some? {
        var a := n.wallet.value;
        var entry := At(r, a);
        r := r[a := entry.(received := Sat(entry.received + n.amount))];
        touched := touched + {a};
      }
    }
    assert notes[..|notes|] == notes;
  }

  method CountTouched(m: Tallies, touched: set<Address>) returns (r: Tallies)
    requires forall a | a in touched :: a in m
    ensures r.Keys == m.Keys
    ensures forall a: Address :: At(r, a) == if a in touched then At(m, a).(txCount := At(m, a).txCount + 1) else At(m, a)
  {
    r := m;
    var todo := touched;
    while todo != {}
      invariant todo <= touched && r.Keys == m.Keys
      invariant forall a: Address ::
        At(r, a) == if a in touched && a !in todo then At(m, a).(txCount := At(m, a).txCount + 1) else At(m, a)
    {
      var a :| a in todo;
      todo := todo - {a};
      r := r[a := r[a].(txCount := r[a].txCount + 1)];
    }
  }

  /** Adds one transaction: saturating amounts per note, and one count per wallet it touches. */
  method AccumulateWalletDelta(m: Tallies, d: Details) returns (r: Tallies)
    requires Fits(m)
    ensures Accumulated(m, d, r)
  {
    var r1, touched1 := AddInputs(m, d.inputs);
    var r2, touched := AddOutputs(r1, d.outputs, touched1);
    r := CountTouched(r2, touched);
    forall a: Address ensures (a in r <==> a in m || Touches(d, a)) && At(r, a) == SatPlus(At(m, a), Exact(d, a)) {
      AfterBoth(m, d, r1, r2, a);
    }
  }

  /** The amounts of a wallet after the inputs and then the outputs. */
  lemma AfterBoth(m: Tallies, d: Details, r1: Tallies, r2: Tallies, a: Address)
    requires AfterInputs(m, d.inputs, r1) && AfterOutputs(r1, d.outputs, r2)
    ensures a in r2 <==> a in m || Touches(d, a)
    ensures At(r2, a) == SatPlus(At(m, a), Exact(d, a)).(txCount := At(m, a).txCount)
  {
  }

  /* A vector of deltas. */

  function Apply(m: Tallies, deltas: seq<Delta>): Tallies
    decreases |deltas|
  {
    if deltas == [] then m
    else
      var rest, d := Apply(m, deltas[..|deltas| - 1]), deltas[|deltas| - 1];
      rest[d.address := SatPlus(At(rest, d.address), d.tally)]
  }

  /** The vector lists the map's entries, each once, in some order. */
  ghost predicate Lists(deltas: seq<Delta>, m: Tallies) {
    && (forall i | 0 <= i < |deltas| :: deltas[i].address in m && m[deltas[i].address] == deltas[i].tally)
    && (forall a | a in m :: exists i | 0 <= i < |deltas| :: deltas[i].address == a)
    && (forall i, j | 0 <= i < j < |deltas| :: deltas[i].address != deltas[j].address)
  }

  lemma {:induction false} ApplyMissing(m: Tallies, deltas: seq<Delta>, a: Address)
    requires forall i | 0 <= i < |deltas| :: deltas[i].address != a
    ensures (a in Apply(m, deltas) <==> a in m) && At(Apply(m, deltas), a) == At(m, a)
    decreases |deltas|
  {
    if deltas != [] { ApplyMissing(m, deltas[..|deltas| - 1], a); }
  }

  lemma {:induction false} ApplyOnce(m: Tallies, deltas: seq<Delta>, i: nat)
    requires i < |deltas| && forall j, k | 0 <= j < k < |deltas| :: deltas[j].address != deltas[k].address
    ensures var a, r := deltas[i].address, Apply(m, deltas); a in r && r[a] == SatPlus(At(m, a), deltas[i].tally)
    decreases |deltas|
  {
    var n := |deltas| - 1;
    if i == n {
      ApplyMissing(m, deltas[..n], deltas[n].address);
    } else {
      ApplyOnce(m, deltas[..n], i);
    }
  }

  /** Applying a chunk's deltas, in any order, accounts for the chunk's transactions. */
  lemma ApplyAt(m: Tallies, deltas: seq<Delta>, d: Tallies, a: Address)
    requires Lists(deltas, d)
    ensures a in Apply(m, deltas) <==> a in m || a in d
    ensures At(Apply(m, deltas), a) == if a in d then SatPlus(At(m, a), d[a]) else At(m, a)
  {
    if a in d {
      var i :| 0 <= i < |deltas| && deltas[i].address == a;
      ApplyOnce(m, deltas, i);
    } else {
      ApplyMissing(m, deltas, a);
    }
  }

  lemma ApplyTallies(m: Tallies, ds: seq<Details>, deltas: seq<Delta>, d: Tallies, es: seq<Details>)
    requires Tallied(m, ds) && Tallied(d, es) && Lists(deltas, d)
    ensures Tallied(Apply(m, deltas), ds + es)
  {
    var r := Apply(m, deltas);
    forall a: Address ensures (a in r <==> Total(ds + es, a).txCount > 0) && At(r, a) == Clamp(Total(ds + es, a)) {
      TotalConcat(ds, es, a);
      ClampPlus(Total(ds, a), Total(es, a));
      ApplyAt(m, deltas, d, a);
      assert At(d, a) == Clamp(Total(es, a));
    }
  }
}
