/** Noun-phrase chunk extraction (parser/parser.py, `check_for_NP` and
    `np_chunk`). The parse tree the grammar produces is a labelled node with an
    ordered list of children; the words of the sentence are the leaves. */
module Parser {
  import opened Wrappers

  datatype Tree = Leaf(word: string) | Node(tag: string, children: seq<Tree>)

  const NounPhrase: string := "NP"

  // ------------------------------------------------------------ check_for_NP

  /** What `check_for_NP` searches for below `t`: a child (a node, not a
      word) labelled NP, or a child with other than one child of its own
      below which there is one. Children with exactly one child are not
      searched. */
  ghost predicate ContainsNP(t: Tree)
    decreases t, 1
  {
    t.Node? && exists n :: 0 <= n < |t.children| && Hit(t, n)
  }

  ghost predicate Hit(t: Tree, n: nat)
    requires t.Node? && n < |t.children|
    decreases t, 0
  {
    var c := t.children[n];
    c.Node? && (c.tag == NounPhrase || (|c.children| != 1 && ContainsNP(c)))
  }

  /** A tree `check_for_NP` searches without meeting a word where it reads a
      tag: every child it looks at is a node, and so is every child of a
      child it descends into. */
  ghost predicate Searchable(t: Tree)
    decreases t, 1
  {
    t.Node? && forall n :: 0 <= n < |t.children| ==> SafeChild(t, n)
  }

  ghost predicate SafeChild(t: Tree, n: nat)
    requires t.Node? && n < |t.children|
    decreases t, 0
  {
    var c := t.children[n];
    c.Node? && (|c.children| != 1 ==> Searchable(c))
  }

  /** `check_for_NP(t)`. `None` is the AttributeError the source raises when
      it asks a word for its tag. */
  function CheckForNP(t: Tree): (r: Option<bool>)
    requires t.Node?
    decreases t, 1
    ensures r.Some? ==> (r.value <==> ContainsNP(t))
    ensures Searchable(t) ==> r.Some?
  {
    ScanChildren(t, 0)
  }

  /** The loop of `check_for_NP` over the children from position `k` on. */
  function ScanChildren(t: Tree, k: nat): (r: Option<bool>)
    requires t.Node? && k <= |t.children|
    decreases t, 0, |t.children| - k
    ensures r.Some? ==> (r.value <==> exists n :: k <= n < |t.children| && Hit(t, n))
    ensures (forall n :: k <= n < |t.children| ==> SafeChild(t, n)) ==> r.Some?
  {
    if k == |t.children| then Some(false)
    else
      var sub := t.children[k];
      if sub.Leaf? then
        assert !SafeChild(t, k);
        None
      else
        // what the source's loop body decides for this child
        var here :=
          if sub.tag == NounPhrase then Some(true)
          else if |sub.children| != 1 then CheckForNP(sub)
          else Some(false);
        assert here.Some? ==> (here.value <==> Hit(t, k));
        assert SafeChild(t, k) ==> here.Some?;
        if here.None? then None
        else if here.value then
          assert exists n :: k <= n < |t.children| && Hit(t, n);
          Some(true)
        else
          ScanStep(t, k);
          var rest := ScanChildren(t, k + 1);
          assert rest.Some? ==> (rest.value <==> exists n :: k + 1 <= n < |t.children| && Hit(t, n));
          assert rest.Some? ==> (rest.value <==> exists n :: k <= n < |t.children| && Hit(t, n));
          rest
  }

  lemma ScanStep(t: Tree, k: nat)
    requires t.Node? && k < |t.children| && !Hit(t, k)
    ensures (exists n :: k <= n < |t.children| && Hit(t, n)) <==>
            (exists n :: k + 1 <= n < |t.children| && Hit(t, n))
  {
  }

  /** A node one of whose children is labelled NP contains a noun phrase, and
      `check_for_NP` says so unless it stops earlier on a word. */
  lemma DirectChildNP(t: Tree, n: nat)
    requires t.Node? && n < |t.children|
    requires t.children[n].Node? && t.children[n].tag == NounPhrase
    ensures ContainsNP(t)
    ensures CheckForNP(t).Some? ==> CheckForNP(t) == Some(true)
  {
    assert Hit(t, n);
  }

  // ---------------------------------------------------------------- subtrees

  /** `s` is `t` or lies below it. */
  ghost predicate IsSubtree(s: Tree, t: Tree)
    decreases t
  {
    s == t || (t.Node? && exists c :: c in t.children && IsSubtree(s, c))
  }

  /** `tree.subtrees()`: the nodes of `t` in pre-order, `t` first. */
  function Subtrees(t: Tree): (r: seq<Tree>)
    decreases t
  {
    if t.Leaf? then [] else [t] + SubtreesOf(t.children)
  }

  function SubtreesOf(ts: seq<Tree>): (r: seq<Tree>)
    decreases ts
  {
    if ts == [] then [] else Subtrees(ts[0]) + SubtreesOf(ts[1..])
  }

  /** The pre-order list holds exactly the nodes at or below `t`. */
  lemma {:induction false} SubtreesAreTheNodes(t: Tree, s: Tree)
    decreases t
    ensures s in Subtrees(t) <==> s.Node? && IsSubtree(s, t)
  {
    if t.Node? {
      SubtreesOfAreTheNodes(t.children, s);
      if s in SubtreesOf(t.children) {
        var c :| c in t.children && IsSubtree(s, c);
      }
    }
  }

  lemma {:induction false} SubtreesOfAreTheNodes(ts: seq<Tree>, s: Tree)
    decreases ts
    ensures s in SubtreesOf(ts) <==> s.Node? && exists c :: c in ts && IsSubtree(s, c)
  {
    if ts != [] {
      SubtreesAreTheNodes(ts[0], s);
      SubtreesOfAreTheNodes(ts[1..], s);
      forall c | c in ts
        ensures c == ts[0] || c in ts[1..]
      {
      }
    }
  }

  lemma {:induction false} SubtreesAreNodes(t: Tree)
    ensures forall s :: s in Subtrees(t) ==> s.Node?
  {
    forall s | s in Subtrees(t) ensures s.Node? {
      SubtreesAreTheNodes(t, s);
    }
  }

  // ---------------------------------------------------------------- np_chunk

  /** A noun-phrase chunk: an NP node below which `check_for_NP` finds no NP. */
  predicate IsChunk(s: Tree) {
    s.Node? && s.tag == NounPhrase && CheckForNP(s) == Some(false)
  }

  /** `xs` is `ys` with some elements left out, the rest in their order. */
  ghost predicate Subsequence(xs: seq<Tree>, ys: seq<Tree>)
    decreases |ys|
  {
    if xs == [] then true
    else if ys == [] then false
    else (xs[0] == ys[0] && Subsequence(xs[1..], ys[1..])) || Subsequence(xs, ys[1..])
  }

  /** The loop of `np_chunk` over the pre-order list `ts`: each chunk of
      `ts` as often as it occurs there, nothing else, in the order of `ts`. */
  function Chunks(ts: seq<Tree>): (r: Option<seq<Tree>>)
    requires forall s :: s in ts ==> s.Node?
    ensures r.None? <==> exists s :: s in ts && s.tag == NounPhrase && CheckForNP(s).None?
    ensures r.Some? ==> forall c :: c in r.value ==> IsChunk(c) && c in ts
    ensures r.Some? ==> forall s :: s in ts && IsChunk(s) ==> s in r.value
    ensures r.Some? ==> Subsequence(r.value, ts)
    ensures r.Some? ==> forall c :: multiset(r.value)[c] == if IsChunk(c) then multiset(ts)[c] else 0
  {
    if ts == [] then Some([])
    else
      var s := ts[0];
      assert ts == [s] + ts[1..];
      var rest := Chunks(ts[1..]);
      assert forall x :: x in ts ==> x == s || x in ts[1..];
      if s.tag == NounPhrase then
        match CheckForNP(s)
        case None => None
        case Some(found) =>
          if found then rest
          else if rest.None? then None
          else
            assert ([s] + rest.value)[1..] == rest.value;
            Some([s] + rest.value)
      else rest
  }

  /** `np_chunk(tree)`: every NP subtree below which `check_for_NP` finds no
      NP, in pre-order, as many times as it occurs in the tree; `None` when
      one of those checks raises. */
  function NpChunk(tree: Tree): (r: Option<seq<Tree>>)
    requires tree.Node?
    ensures r.Some? ==> forall c :: c in r.value ==>
              c.Node? && c.tag == NounPhrase && CheckForNP(c) == Some(false)
    ensures r.Some? ==> forall s :: IsSubtree(s, tree) && IsChunk(s) ==> s in r.value
    ensures r.Some? ==> forall c :: c in r.value ==> IsSubtree(c, tree)
    ensures r.Some? ==> Subsequence(r.value, Subtrees(tree))
    ensures r.Some? ==> forall c :: multiset(r.value)[c] == if IsChunk(c) then multiset(Subtrees(tree))[c] else 0
    ensures r.None? <==>
              exists s :: IsSubtree(s, tree) && s.Node? && s.tag == NounPhrase && CheckForNP(s).None?
  {
    SubtreesAreNodes(tree);
    var r := Chunks(Subtrees(tree));
    forall s ensures s in Subtrees(tree) <==> s.Node? && IsSubtree(s, tree) {
      SubtreesAreTheNodes(tree, s);
    }
    r
  }
}
