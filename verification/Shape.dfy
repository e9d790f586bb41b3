/** The shape of a noun as a Dyck word, and its leaves. */
module Shape {
  import opened Options
  import opened Sequences
  import opened Nouns

  type Word = seq<nat>

  const U64_BOUND: nat := 0x1_0000_0000_0000_0000

  /* Shape. */

  function DyckRecursive(t: Noun, vec: Word): Word {
    match t
    case Atom(_) => vec
    case Cell(h, l) => DyckRecursive(l, [1] + DyckRecursive(h, [0] + vec))
  }

  /** The code's form: letters are put in front as the noun is walked, and the list reversed at the end. */
  function Dyck(t: Noun): Word { Reverse(DyckRecursive(t, [])) }

  /** The shape, read off the noun. */
  function ShapeOf(t: Noun): Word {
    match t
    case Atom(_) => []
    case Cell(h, l) => [0] + ShapeOf(h) + [1] + ShapeOf(l)
  }

  lemma {:induction false} DyckAccumulates(t: Noun, vec: Word)
    ensures Reverse(DyckRecursive(t, vec)) == Reverse(vec) + ShapeOf(t)
  {
    if t.Cell? {
      var inner := DyckRecursive(t.head, [0] + vec);
      DyckAccumulates(t.head, [0] + vec);
      DyckAccumulates(t.tail, [1] + inner);
      ReverseConcat([0], vec);
      ReverseConcat([1], inner);
    }
  }

  lemma DyckIsShape(t: Noun)
    ensures Dyck(t) == ShapeOf(t)
  {
    DyckAccumulates(t, []);
  }

  function Cells(t: Noun): nat {
    match t
    case Atom(_) => 0
    case Cell(h, l) => 1 + Cells(h) + Cells(l)
  }

  /** How many more 0s than 1s. */
  function Depth(w: Word): int { if w == [] then 0 else (if w[0] == 0 then 1 else -1) + Depth(w[1..]) }

  /** Never more 1s than 0s from the left, and as many in all. */
  ghost predicate Balanced(w: Word) {
    && (forall i | 0 <= i < |w| :: w[i] == 0 || w[i] == 1)
    && (forall i | 0 <= i <= |w| :: Depth(w[..i]) >= 0) && Depth(w) == 0
  }

  lemma {:induction false} DepthConcat(a: Word, b: Word)
    ensures Depth(a + b) == Depth(a) + Depth(b)
  {
    if a == [] {
      assert a + b == b;
    } else {
      DepthConcat(a[1..], b);
      assert (a + b)[1..] == a[1..] + b;
    }
  }

  lemma BalancedJoin(a: Word, b: Word)
    requires Balanced(a) && Balanced(b)
    ensures Balanced([0] + a + [1] + b)
  {
    var w := [0] + a + [1] + b;
    assert Depth([0]) == 1 && Depth([1]) == -1;
    forall i | 0 <= i <= |w| ensures Depth(w[..i]) >= 0 {
      if i == 0 {
      } else if i <= 1 + |a| {
        assert w[..i] == [0] + a[..i - 1];
        DepthConcat([0], a[..i - 1]);
      } else {
        assert w[..i] == ([0] + a) + ([1] + b[..i - |a| - 2]);
        DepthConcat([0] + a, [1] + b[..i - |a| - 2]);
        DepthConcat([0], a);
        DepthConcat([1], b[..i - |a| - 2]);
      }
    }
    assert w == ([0] + a) + ([1] + b);
    DepthConcat([0] + a, [1] + b);
    DepthConcat([0], a);
    DepthConcat([1], b);
  }

  /** The Dyck word of a noun is balanced and has two letters for every cell. */
  lemma {:induction false} DyckBalanced(t: Noun)
    ensures Balanced(Dyck(t)) && |Dyck(t)| == 2 * Cells(t)
  {
    DyckIsShape(t);
    if t.Cell? {
      DyckBalanced(t.head);
      DyckIsShape(t.head);
      DyckBalanced(t.tail);
      DyckIsShape(t.tail);
      BalancedJoin(ShapeOf(t.head), ShapeOf(t.tail));
    }
  }

  /* Leaves. */

  function Leaves(t: Noun): (l: seq<nat>)
    ensures |l| == Cells(t) + 1
  {
    match t
    case Atom(n) => [n]
    case Cell(h, l) => Leaves(h) + Leaves(l)
  }

  /** How many leaves come before the first that does not fit a 64-bit word. */
  function Fitting(l: seq<nat>): (n: nat)
    ensures n <= |l| && (forall i | 0 <= i < n :: l[i] < U64_BOUND) && (n < |l| ==> l[n] >= U64_BOUND)
  {
    if l == [] || l[0] >= U64_BOUND then 0 else 1 + Fitting(l[1..])
  }

  lemma {:induction false} FittingConcat(a: seq<nat>, b: seq<nat>)
    ensures Fitting(a + b) == if Fitting(a) == |a| then |a| + Fitting(b) else Fitting(a)
  {
    if a == [] {
      assert a + b == b;
    } else if a[0] < U64_BOUND {
      FittingConcat(a[1..], b);
      assert (a + b)[1..] == a[1..] + b;
    }
  }

  predicate Fits(t: Noun) { Fitting(Leaves(t)) == |Leaves(t)| }

  /** The leaves before the first that does not fit. */
  function FittingLeaves(t: Noun): seq<nat> { Leaves(t)[..Fitting(Leaves(t))] }

  lemma FittingLeavesOfCell(h: Noun, l: Noun)
    ensures Fits(Cell(h, l)) <==> Fits(h) && Fits(l)
    ensures FittingLeaves(Cell(h, l)) == FittingLeaves(h) + if Fits(h) then FittingLeaves(l) else []
  {
    var a, b := Leaves(h), Leaves(l);
    FittingConcat(a, b);
    TakeJoined(a, b, Fitting(a + b), Fitting(a), Fitting(b));
  }

  lemma TakeJoined<T>(a: seq<T>, b: seq<T>, n: nat, i: nat, j: nat)
    requires i <= |a| && j <= |b| && n == if i == |a| then |a| + j else i
    ensures (a + b)[..n] == a[..i] + if i == |a| then b[..j] else []
  {
  }

  lemma FittingLeavesOfAtom(n: nat)
    ensures Fits(Atom(n)) <==> n < U64_BOUND
    ensures FittingLeaves(Atom(n)) == if n < U64_BOUND then [n] else []
  {
    assert [n][1..] == [];
  }

  lemma Appended<T>(v: seq<T>, a: seq<T>, b: seq<T>)
    ensures v + a + b == v + (a + b) && a + [] == a
  {
  }

  lemma FittingAll(t: Noun)
    requires Fits(t)
    ensures FittingLeaves(t) == Leaves(t)
  {
  }

  class LeafBuffer {
    var vec: seq<nat>

    constructor ()
      ensures vec == []
    {
      vec := [];
    }

    /**
     * Pushes the leaves from left to right; stops with an error at the first that does not fit,
     * having pushed exactly the ones before it.
     */
    method DoLeafSequence(t: Noun) returns (ok: bool)
      modifies this
      ensures ok <==> Fits(t)
      ensures vec == old(vec) + FittingLeaves(t)
      decreases t
    {
      match t
      case Atom(n) =>
        FittingLeavesOfAtom(n);
        ok := n < U64_BOUND;
        if ok { vec := vec + [n]; }
      case Cell(h, l) =>
        FittingLeavesOfCell(h, l);
        Appended(vec, FittingLeaves(h), FittingLeaves(l));
        ok := DoLeafSequence(h);
        if ok { ok := DoLeafSequence(l); }
    }
  }

  method LeafSequence(t: Noun) returns (leaves: Option<seq<nat>>)
    ensures leaves == if Fits(t) then Some(Leaves(t)) else None
  {
    var buffer := new LeafBuffer();
    var ok := buffer.DoLeafSequence(t);
    if ok { FittingAll(t); }
    assert [] + FittingLeaves(t) == FittingLeaves(t);
    leaves := if ok then Some(buffer.vec) else None;
  }

  /* The noun from its shape and leaves. */

  datatype Parsed = Parsed(noun: Noun, word: Word, leaves: seq<nat>)

  /** Reads one noun off the front of a word and a list of leaves. */
  function Rebuild(w: Word, l: seq<nat>): (r: Option<Parsed>)
    ensures r.Some? ==> |r.value.word| <= |w|
    decreases |w|
  {
    if w == [] || w[0] != 0 then
      if l == [] then None else Some(Parsed(Atom(l[0]), w, l[1..]))
    else
      var h := Rebuild(w[1..], l);
      if h.None? || h.value.word == [] || h.value.word[0] != 1 then None
      else
        var t := Rebuild(h.value.word[1..], h.value.leaves);
        if t.None? then None else Some(Parsed(Cell(h.value.noun, t.value.noun), t.value.word, t.value.leaves))
  }

  lemma {:induction false} RebuildsWith(t: Noun, w: Word, l: seq<nat>)
    requires w == [] || w[0] != 0
    ensures Rebuild(ShapeOf(t) + w, Leaves(t) + l) == Some(Parsed(t, w, l))
    decreases t
  {
    match t
    case Atom(n) =>
      assert ShapeOf(t) + w == w && (Leaves(t) + l)[1..] == l;
    case Cell(a, b) =>
      RebuildsWith(a, [1] + (ShapeOf(b) + w), Leaves(b) + l);
      RebuildsWith(b, w, l);
      Appended(Leaves(a), Leaves(b), l);
      RebuildsCell(a, b, w, l, ShapeOf(t) + w);
  }

  lemma RebuildsCell(a: Noun, b: Noun, w: Word, l: seq<nat>, u: Word)
    requires u == ShapeOf(Cell(a, b)) + w
    requires var rest := [1] + (ShapeOf(b) + w);
      Rebuild(ShapeOf(a) + rest, Leaves(a) + (Leaves(b) + l)) == Some(Parsed(a, rest, Leaves(b) + l))
    requires Rebuild(ShapeOf(b) + w, Leaves(b) + l) == Some(Parsed(b, w, l))
    ensures Rebuild(u, Leaves(a) + (Leaves(b) + l)) == Some(Parsed(Cell(a, b), w, l))
  {
    var rest := [1] + (ShapeOf(b) + w);
    Parts(ShapeOf(a), ShapeOf(b), w);
    assert u[1..] == ShapeOf(a) + rest && rest[1..] == ShapeOf(b) + w;
    RebuildCell(u, Leaves(a) + (Leaves(b) + l), Parsed(a, rest, Leaves(b) + l), Parsed(b, w, l));
  }

  lemma Parts(a: Word, b: Word, w: Word)
    ensures [0] + a + [1] + b + w == [0] + (a + ([1] + (b + w)))
  {
  }

  lemma RebuildCell(w: Word, l: seq<nat>, h: Parsed, t: Parsed)
    requires w != [] && w[0] == 0 && Rebuild(w[1..], l) == Some(h) && h.word != [] && h.word[0] == 1
    requires |h.word| < |w| && Rebuild(h.word[1..], h.leaves) == Some(t)
    ensures Rebuild(w, l) == Some(Parsed(Cell(h.noun, t.noun), t.word, t.leaves))
  {
  }

  /** Shape and leaves together give the noun back. */
  lemma RebuildInverts(t: Noun)
    ensures Rebuild(Dyck(t), Leaves(t)) == Some(Parsed(t, [], []))
  {
    DyckIsShape(t);
    RebuildsWith(t, [], []);
    assert ShapeOf(t) + [] == ShapeOf(t) && Leaves(t) + [] == Leaves(t);
  }

  /** Nouns with the same Dyck word and the same leaf sequence are the same noun. */
  lemma ShapeAndLeavesDetermine(a: Noun, b: Noun)
    requires Dyck(a) == Dyck(b) && Leaves(a) == Leaves(b)
    ensures a == b
  {
    RebuildInverts(a);
    RebuildInverts(b);
  }

  /** Whatever is read off has the shape and the leaves it was read from. */
  lemma {:induction false} RebuildSound(w: Word, l: seq<nat>)
    requires Rebuild(w, l).Some?
    ensures var r := Rebuild(w, l).value; w == ShapeOf(r.noun) + r.word && l == Leaves(r.noun) + r.leaves
    decreases |w|
  {
    if w != [] && w[0] == 0 {
      var h := Rebuild(w[1..], l).value;
      RebuildSound(w[1..], l);
      var t := Rebuild(h.word[1..], h.leaves).value;
      RebuildSound(h.word[1..], h.leaves);
      Parts(ShapeOf(h.noun), ShapeOf(t.noun), t.word);
      Reassemble(w, h.word, ShapeOf(h.noun), ShapeOf(t.noun) + t.word);
      assert Leaves(h.noun) + (Leaves(t.noun) + t.leaves) == Leaves(h.noun) + Leaves(t.noun) + t.leaves;
    }
  }

  lemma Reassemble(w: Word, v: Word, a: Word, b: Word)
    requires w != [] && w[0] == 0 && v != [] && v[0] == 1 && w[1..] == a + v && v[1..] == b
    ensures w == [0] + (a + ([1] + b))
  {
    assert w == [0] + w[1..] && v == [1] + v[1..];
  }

  /* Every balanced word is the shape of a noun. */

  lemma DepthSlice(w: Word, i: nat, j: nat)
    requires i <= j <= |w|
    ensures Depth(w[..j]) == Depth(w[..i]) + Depth(w[i..j])
  {
    assert w[..j] == w[..i] + w[i..j];
    DepthConcat(w[..i], w[i..j]);
  }

  /** Where the word first comes back to depth zero. */
  lemma FirstReturn(w: Word) returns (k: nat)
    requires Balanced(w) && w != []
    ensures 0 < k < |w| && Depth(w[..k + 1]) == 0 && forall i | 1 <= i <= k :: Depth(w[..i]) > 0
  {
    k := 0;
    assert w[..1] == [w[0]] && w[..|w|] == w;
    while Depth(w[..k + 1]) > 0
      invariant k < |w| && forall i | 1 <= i <= k :: Depth(w[..i]) > 0
      decreases |w| - k
    {
      k := k + 1;
    }
  }

  lemma BalancedSplit(w: Word, k: nat)
    requires Balanced(w) && 0 < k < |w| && Depth(w[..k + 1]) == 0
    requires forall i | 1 <= i <= k :: Depth(w[..i]) > 0
    ensures w[0] == 0 && w[k] == 1 && Balanced(w[1..k]) && Balanced(w[k + 1..])
  {
    assert w[..1] == [w[0]] && w[k..k + 1] == [w[k]];
    DepthSlice(w, k, k + 1);
    BalancedSlice(w, 1, k);
    assert w[..|w|] == w && w[k + 1..|w|] == w[k + 1..];
    BalancedSlice(w, k + 1, |w|);
  }

  lemma SliceOfSlice(w: Word, i: nat, j: nat, n: nat)
    requires i <= j <= |w| && n <= j - i
    ensures w[i..j][..n] == w[i..i + n]
  {
  }

  /** A slice between two places of the same depth, never below it in between, is balanced. */
  lemma BalancedSlice(w: Word, i: nat, j: nat)
    requires i <= j <= |w| && Depth(w[..i]) == Depth(w[..j])
    requires forall n | 0 <= n < |w| :: w[n] == 0 || w[n] == 1
    requires forall n | i <= n <= j :: Depth(w[..n]) >= Depth(w[..i])
    ensures Balanced(w[i..j])
  {
    var v := w[i..j];
    DepthSlice(w, i, j);
    forall n | 0 <= n <= |v| ensures Depth(v[..n]) >= 0 {
      SliceOfSlice(w, i, j, n);
      DepthSlice(w, i, i + n);
      assert Depth(w[..i + n]) >= Depth(w[..i]);
    }
  }

  /** The Dyck words are exactly the balanced ones, and each goes with any leaves of the right number. */
  lemma {:induction false} BalancedIsDyck(w: Word, l: seq<nat>) returns (t: Noun)
    requires Balanced(w) && 2 * |l| == |w| + 2
    ensures Dyck(t) == w && Leaves(t) == l
    decreases |w|
  {
    if w == [] {
      t := Atom(l[0]);
      assert l == [l[0]];
    } else {
      var k := FirstReturn(w);
      BalancedSplit(w, k);
      EvenLength(w[1..k]);
      var n := (k - 1) / 2 + 1;
      var h := BalancedIsDyck(w[1..k], l[..n]);
      var r := BalancedIsDyck(w[k + 1..], l[n..]);
      t := Cell(h, r);
      DyckIsShape(h);
      DyckIsShape(r);
      assert w == [0] + w[1..k] + [1] + w[k + 1..];
      assert l == l[..n] + l[n..];
    }
    DyckIsShape(t);
  }

  lemma EvenLength(w: Word)
    requires Balanced(w)
    ensures |w| % 2 == 0
  {
    DepthParity(w);
  }

  lemma {:induction false} DepthParity(w: Word)
    ensures (Depth(w) - |w|) % 2 == 0
  {
    if w != [] { DepthParity(w[1..]); }
  }
}
