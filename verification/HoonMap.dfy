/** Maps laid out as search trees of nouns, [[key value] left right], ordered by gor. */
module HoonMap {
  import opened Options
  import opened Nouns

  /** A decoded tree node; a child that is no cell is absent. */
  datatype Node = Node(node: Noun, left: Option<Noun>, right: Option<Noun>)

  function CellOnly(n: Noun): (r: Option<Noun>)
    ensures r.Some? ==> r.value == n
  {
    if n.Cell? then Some(n) else None
  }

  function TryFrom(n: Noun): (r: Option<Node>)
    ensures r.Some? && r.value.left.Some? ==> r.value.left.value < n
    ensures r.Some? && r.value.right.Some? ==> r.value.right.value < n
  {
    match n
    case Cell(h, Cell(l, r)) => Some(Node(h, CellOnly(l), CellOnly(r)))
    case _ => None
  }

  /** Lookup; gor(k, ck) sends the search for k to the left of a node with key ck. */
  function Get(n: Noun, k: Noun, gor: (Noun, Noun) -> bool): Option<Noun> {
    match TryFrom(n)
    case None => None
    case Some(m) =>
      match m.node
      case Atom(_) => None
      case Cell(ck, cv) =>
        if ck == k then Some(cv)
        else
          var next := if gor(k, ck) then m.left else m.right;
          if next.None? then None else Get(next.value, k, gor)
  }

  /** All the nodes, each before its left subtree and that before its right one. */
  function Entries(n: Noun): seq<Noun> {
    match TryFrom(n)
    case None => []
    case Some(m) =>
      var l := if m.left.Some? then Entries(m.left.value) else [];
      var r := if m.right.Some? then Entries(m.right.value) else [];
      [m.node] + (l + r)
  }

  function Listed(n: Option<Noun>): seq<Noun> { if n.Some? then Entries(n.value) else [] }

  /** The entries of a left and a right subtree lie on their sides of the key. */
  ghost predicate Separated(key: Noun, l: seq<Noun>, r: seq<Noun>, gor: (Noun, Noun) -> bool) {
    && (forall e | e in l :: e.Cell? && e.head != key && gor(e.head, key))
    && (forall e | e in r :: e.Cell? && e.head != key && !gor(e.head, key))
  }

  ghost predicate Ordered(n: Noun, gor: (Noun, Noun) -> bool) {
    match TryFrom(n)
    case None => true
    case Some(m) =>
      && m.node.Cell? && Separated(m.node.head, Listed(m.left), Listed(m.right), gor)
      && (m.left.Some? ==> Ordered(m.left.value, gor)) && (m.right.Some? ==> Ordered(m.right.value, gor))
  }

  /** Every entry is a pair, and no two have the same key. */
  ghost predicate DistinctKeys(s: seq<Noun>) {
    && (forall e | e in s :: e.Cell?)
    && forall i, j | 0 <= i < j < |s| :: s[i].head != s[j].head
  }

  lemma DistinctJoin(node: Noun, l: seq<Noun>, r: seq<Noun>, gor: (Noun, Noun) -> bool)
    requires node.Cell? && Separated(node.head, l, r, gor) && DistinctKeys(l) && DistinctKeys(r)
    ensures DistinctKeys([node] + (l + r))
  {
    var s := l + r;
    forall i, j | 0 <= i < j < |s| ensures s[i].head != s[j].head {
      if i < |l| <= j { assert s[i] in l && s[j] in r; }
    }
    assert forall e | e in s :: e in l || e in r;
  }

  /** An ordered tree holds every key once. */
  lemma {:induction false} OrderedKeys(n: Noun, gor: (Noun, Noun) -> bool)
    requires Ordered(n, gor)
    ensures DistinctKeys(Entries(n))
  {
    var d := TryFrom(n);
    if d.Some? {
      var m := d.value;
      if m.left.Some? { OrderedKeys(m.left.value, gor); }
      if m.right.Some? { OrderedKeys(m.right.value, gor); }
      DistinctJoin(m.node, Listed(m.left), Listed(m.right), gor);
    }
  }

  /** r is the value of the entry with key k, or nothing if there is none. */
  ghost predicate Finds(r: Option<Noun>, k: Noun, entries: seq<Noun>) {
    && (forall v :: r == Some(v) <==> Cell(k, v) in entries)
    && (r.None? <==> forall e | e in entries :: e.Cell? ==> e.head != k)
  }

  lemma FindsJoin(r: Option<Noun>, k: Noun, node: Noun, left: seq<Noun>, right: seq<Noun>, gor: (Noun, Noun) -> bool)
    requires node.Cell? && Separated(node.head, left, right, gor)
    requires if node.head == k then r == Some(node.tail) else Finds(r, k, if gor(k, node.head) then left else right)
    ensures Finds(r, k, [node] + (left + right))
  {
    var all := [node] + (left + right);
    assert forall e :: e in all <==> e == node || e in left || e in right;
    if node.head == k { assert node in all && node == Cell(k, node.tail); }
  }

  /** On an ordered tree, lookup finds exactly what traversal yields. */
  lemma {:induction false} GetFinds(n: Noun, k: Noun, gor: (Noun, Noun) -> bool)
    requires Ordered(n, gor)
    ensures Finds(Get(n, k, gor), k, Entries(n))
  {
    var d := TryFrom(n);
    if d.Some? {
      var m := d.value;
      if m.node.head != k {
        var next := if gor(k, m.node.head) then m.left else m.right;
        if next.Some? { GetFinds(next.value, k, gor); }
      }
      FindsJoin(Get(n, k, gor), k, m.node, Listed(m.left), Listed(m.right), gor);
    }
  }

  /* Trees, apart from their layout. */

  /** A map's tree: branches with an entry, and whatever noun ends it. */
  datatype Tree = End(noun: Noun) | Branch(entry: Noun, left: Tree, right: Tree)

  /** An end is no noun that could be read as a branch. */
  predicate Proper(t: Tree) {
    match t
    case End(n) => n.Atom? || n.tail.Atom?
    case Branch(_, l, r) => Proper(l) && Proper(r)
  }

  /** The layout: [entry left right]. */
  function Encode(t: Tree): Noun {
    match t
    case End(n) => n
    case Branch(e, l, r) => Cell(e, Cell(Encode(l), Encode(r)))
  }

  function Preorder(t: Tree): seq<Noun> {
    match t
    case End(_) => []
    case Branch(e, l, r) => [e] + (Preorder(l) + Preorder(r))
  }

  /** Keys that gor puts before the entry's are on its left, the others on its right. */
  ghost predicate Sorted(t: Tree, gor: (Noun, Noun) -> bool) {
    match t
    case End(_) => true
    case Branch(e, l, r) =>
      e.Cell? && Separated(e.head, Preorder(l), Preorder(r), gor) && Sorted(l, gor) && Sorted(r, gor)
  }

  /** Every noun is the layout of a tree. */
  lemma {:induction false} EveryNounIsTree(n: Noun) returns (t: Tree)
    ensures Proper(t) && Encode(t) == n
  {
    if n.Cell? && n.tail.Cell? {
      var l := EveryNounIsTree(n.tail.head);
      var r := EveryNounIsTree(n.tail.tail);
      t := Branch(n.head, l, r);
    } else {
      t := End(n);
    }
  }

  lemma ListedTree(t: Tree)
    requires Proper(t)
    ensures Listed(CellOnly(Encode(t))) == Entries(Encode(t))
  {
  }

  /** What is listed from the layout is the tree in preorder. */
  lemma {:induction false} EntriesArePreorder(t: Tree)
    requires Proper(t)
    ensures Entries(Encode(t)) == Preorder(t)
  {
    if t.Branch? {
      EntriesArePreorder(t.left);
      EntriesArePreorder(t.right);
      ListedTree(t.left);
      ListedTree(t.right);
    }
  }

  lemma {:induction false} SortedIsOrdered(t: Tree, gor: (Noun, Noun) -> bool)
    requires Proper(t) && Sorted(t, gor)
    ensures Ordered(Encode(t), gor)
  {
    if t.Branch? {
      SortedIsOrdered(t.left, gor);
      SortedIsOrdered(t.right, gor);
      EntriesArePreorder(t.left);
      EntriesArePreorder(t.right);
      ListedTree(t.left);
      ListedTree(t.right);
    }
  }

  /** Lookup in the layout of a sorted tree finds the value that the tree stores under the key. */
  lemma GetInTree(t: Tree, k: Noun, gor: (Noun, Noun) -> bool)
    requires Proper(t) && Sorted(t, gor)
    ensures Finds(Get(Encode(t), k, gor), k, Preorder(t)) && DistinctKeys(Preorder(t))
  {
    SortedIsOrdered(t, gor);
    EntriesArePreorder(t);
    GetFinds(Encode(t), k, gor);
    OrderedKeys(Encode(t), gor);
  }

  /* The iterator. */

  /** What the stack still holds, its top last. */
  function Remaining(stack: seq<Option<Noun>>): seq<Noun> {
    if stack == [] then [] else Listed(stack[|stack| - 1]) + Remaining(stack[..|stack| - 1])
  }

  lemma Popped(stack: seq<Option<Noun>>)
    requires stack != []
    ensures var top, rest := stack[|stack| - 1], stack[..|stack| - 1];
      && (top.None? || TryFrom(top.value).None? ==> Remaining(stack) == Remaining(rest))
      && (top.Some? && TryFrom(top.value).Some? ==>
            var m := TryFrom(top.value).value;
            Remaining(stack) == [m.node] + Remaining(rest + [m.right] + [m.left]))
  {
    var top, rest := stack[|stack| - 1], stack[..|stack| - 1];
    if top.Some? && TryFrom(top.value).Some? {
      var m := TryFrom(top.value).value;
      var s := rest + [m.right];
      assert (s + [m.left])[..|s|] == s && s[..|rest|] == rest;
      Regroup(m.node, Listed(m.left), Listed(m.right), Remaining(rest));
    }
  }

  lemma Regroup(x: Noun, a: seq<Noun>, b: seq<Noun>, c: seq<Noun>)
    ensures [x] + (a + b) + c == [x] + (a + (b + c))
  {
  }

  class HoonMapIter {
    var stack: seq<Option<Noun>>

    constructor (n: Noun)
      ensures Remaining(stack) == Entries(n)
      ensures forall t: Tree | Proper(t) && Encode(t) == n :: Remaining(stack) == Preorder(t)
    {
      forall t: Tree | Proper(t) && Encode(t) == n ensures Entries(n) == Preorder(t) { EntriesArePreorder(t); }
      stack := if n.Cell? then [Some(n)] else [None];
    }

    /** Yields the next node of the traversal, and nothing once there is none. */
    method Next() returns (r: Option<Noun>)
      modifies this
      ensures r.None? ==> old(Remaining(stack)) == [] && Remaining(stack) == []
      ensures r.Some? ==> old(Remaining(stack)) == [r.value] + Remaining(stack)
      decreases |stack|
    {
      if stack == [] { return None; }
      Popped(stack);
      var top := stack[|stack| - 1];
      stack := stack[..|stack| - 1];
      if top.None? {
        r := Next();
        return;
      }
      var trie := TryFrom(top.value);
      if trie.None? {
        r := Next();
        return;
      }
      stack := stack + [trie.value.right];
      stack := stack + [trie.value.left];
      r := Some(trie.value.node);
    }
  }

  /** Draining the iterator lists every node once, in preorder. */
  method Collect(n: Noun) returns (all: seq<Noun>)
    ensures all == Entries(n)
    ensures forall t: Tree | Proper(t) && Encode(t) == n :: all == Preorder(t)
  {
    forall t: Tree | Proper(t) && Encode(t) == n ensures Entries(n) == Preorder(t) { EntriesArePreorder(t); }
    var iter := new HoonMapIter(n);
    all := [];
    var next := iter.Next();
    while next.Some?
      invariant fresh(iter)
      invariant Entries(n) == all + (if next.Some? then [next.value] else []) + Remaining(iter.stack)
      invariant next.None? ==> Remaining(iter.stack) == []
      decreases |Remaining(iter.stack)|, if next.Some? then 1 else 0
    {
      all := all + [next.value];
      next := iter.Next();
    }
  }
}
