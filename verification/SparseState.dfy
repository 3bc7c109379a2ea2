/** What each contract call does to the root and to the set of stored nodes. */
module SparseState {
  import opened Bits
  import opened SparseTree
  import opened SparsePath
  import opened NodeStore

  /** The root and the hashes in storage; entries are determined by their hashes. */
  datatype State = State(root: Hash, stored: set<Hash>)

  const EMPTY := State(Zero, {})

  ghost predicate Valid(s: State) {
    && Canonical(s.root, 0)
    && Zero !in s.stored
    && Live(s.root) <= s.stored
  }

  /** No garbage: exactly the reachable nodes are stored. */
  ghost predicate Exact(s: State) {
    s.stored == Live(s.root)
  }

  function PairsOf(s: State): Contents { ContentsOf(s.root) }

  /** The new tree's nodes take the place of the old tree's; other nodes stay as they are. */
  ghost predicate Replaced(s: State, s': State) {
    s'.stored == s.stored - Live(s.root) + Live(s'.root)
  }

  /** The nodes from a leaf of key up to the root. */
  function LeafPath(key: U256, siblings: seq<Hash>, value: U256): set<Hash> {
    PathNodes(key, siblings, Leaf(key, value), 0) + {Leaf(key, value)}
  }

  // ----- insertion

  function Insert(s: State, key: U256, value: U256): State {
    var r := Search(s.root, 0, key);
    State(
      InsertTree(s.root, 0, key, value),
      s.stored - PathNodes(key, r.siblings, Terminal(r, key), 0)
        + LeafPath(key, NewSiblings(r, key, 0), value))
  }

  lemma NewSiblingsNodes(t: Hash, key: U256)
    requires Canonical(t, 0) && key !in ContentsOf(t)
    ensures var r := Search(t, 0, key);
      && LiveAll(NewSiblings(r, key, 0)) == LiveAll(r.siblings) + Live(Terminal(r, key))
      && SiblingsLack(NewSiblings(r, key, 0), key)
  {
    var r := Search(t, 0, key);
    SearchIsLookup(t, 0, key);
    SearchSiblingsLack(t, 0, key);
    if !r.isOld0 {
      var n := |r.siblings|;
      ExtendedSiblings(r.siblings, SplitDepth(key, r.notFoundKey, n) - n, Terminal(r, key), key);
    }
  }

  lemma ExtendedSiblings(siblings: seq<Hash>, n: nat, leaf: Hash, key: U256)
    requires SiblingsLack(siblings, key) && key !in ContentsOf(leaf)
    ensures LiveAll(siblings + Zeros(n) + [leaf]) == LiveAll(siblings) + Live(leaf)
    ensures SiblingsLack(siblings + Zeros(n) + [leaf], key)
  {
    LiveAllAppend(siblings + Zeros(n), [leaf]);
    LiveAllAppend(siblings, Zeros(n));
    LiveZeros(n);
    assert LiveAll([leaf]) == Live(leaf) + LiveAll([]);
  }

  /** The common-prefix loop ends in time: the new leaf's siblings fit the key's bits. */
  lemma NewSiblingsBound(t: Hash, key: U256)
    requires Canonical(t, 0) && key !in ContentsOf(t)
    ensures |NewSiblings(Search(t, 0, key), key, 0)| <= KEY_BITS
  {
    var r := Search(t, 0, key);
    SearchIsLookup(t, 0, key);
    if !r.isOld0 {
      CollisionPrefix(t, 0, key);
      DistinctKeysDiffer(key, r.notFoundKey);
    }
  }

  /** The leaf that a search runs into lies on the search's own path. */
  lemma {:induction false} CollisionPrefix(t: Hash, d: nat, key: U256)
    requires Canonical(t, d) && !Search(t, d, key).found && !Search(t, d, key).isOld0
    ensures var r := Search(t, d, key);
      r.notFoundKey in ContentsOf(t) &&
      forall i :: d <= i < d + |r.siblings| ==> Bit(r.notFoundKey, i) == Bit(key, i)
  {
    if t.Node? {
      var c := Child(t, Bit(key, d));
      CollisionPrefix(c, d + 1, key);
      SearchIsLookup(t, d, key);
    }
  }

  /** Old path nodes are not in the new tree; together with them the new path is all
      that changes. */
  lemma InsertSets(t: Hash, key: U256, value: U256)
    requires Canonical(t, 0) && key !in ContentsOf(t)
    ensures var r := Search(t, 0, key);
      var old' := PathNodes(key, r.siblings, Terminal(r, key), 0);
      var rest := Live(Terminal(r, key)) + LiveAll(r.siblings);
      var new' := LeafPath(key, NewSiblings(r, key, 0), value);
      && Live(t) == old' + rest && Live(InsertTree(t, 0, key, value)) == new' + rest
      && old' !! rest && old' !! new'
  {
    var r := Search(t, 0, key);
    SearchIsLookup(t, 0, key);
    LiveFold(key, r.siblings, Terminal(r, key), 0);
    PathIsApart(t, 0, key);
    NewSiblingsNodes(t, key);
    InsertFolds(t, 0, key, value);
    LiveFold(key, NewSiblings(r, key, 0), Leaf(key, value), 0);
    PathHas(key, NewSiblings(r, key, 0), value, 0);
    SearchSiblingsLack(t, 0, key);
    PathLacks(key, r.siblings, Terminal(r, key), 0, key);
  }

  lemma NoZeroOnPath(key: U256, siblings: seq<Hash>, value: U256)
    ensures Zero !in LeafPath(key, siblings, value)
  {
    if Zero in LeafPath(key, siblings, value) {
      PathHasNoZero(key, siblings, Leaf(key, value), 0);
    }
  }

  lemma {:induction false} PathHasNoZero(key: U256, siblings: seq<Hash>, start: Hash, d: nat)
    ensures Zero !in PathNodes(key, siblings, start, d)
    decreases |siblings|
  {
    if siblings != [] { PathHasNoZero(key, siblings[1..], start, d + 1); }
  }

  /** Insertion adds one pair, keeps every node of the tree stored, makes no garbage. */
  lemma InsertKeepsValid(s: State, key: U256, value: U256)
    requires Valid(s) && key !in PairsOf(s) && InField(key) && InField(value)
    ensures var s' := Insert(s, key, value);
      && Valid(s') && PairsOf(s') == PairsOf(s)[key := value]
      && Replaced(s, s') && (Exact(s) ==> Exact(s'))
  {
    InsertIsCanonical(s.root, 0, key, value);
    InsertSets(s.root, key, value);
    NoZeroOnPath(key, NewSiblings(Search(s.root, 0, key), key, 0), value);
  }

  // ----- update

  function Update(s: State, key: U256, value: U256): State {
    var r := Search(s.root, 0, key);
    State(
      UpdateTree(s.root, 0, key, value),
      s.stored + LeafPath(key, r.siblings, value) - LeafPath(key, r.siblings, r.foundValue))
  }

  lemma UpdateSets(t: Hash, key: U256, value: U256)
    requires Canonical(t, 0) && key in ContentsOf(t)
    ensures var r := Search(t, 0, key);
      var old', new' := LeafPath(key, r.siblings, r.foundValue), LeafPath(key, r.siblings, value);
      && Live(t) == old' + LiveAll(r.siblings)
      && Live(UpdateTree(t, 0, key, value)) == new' + LiveAll(r.siblings)
      && Has(old', key, r.foundValue) && Has(new', key, value)
      && Lacks(LiveAll(r.siblings), key)
  {
    var r := Search(t, 0, key);
    SearchIsLookup(t, 0, key);
    UpdateFolds(t, 0, key, value);
    LiveFold(key, r.siblings, Leaf(key, r.foundValue), 0);
    LiveFold(key, r.siblings, Leaf(key, value), 0);
    SearchSiblingsLack(t, 0, key);
    SiblingNodesLack(t, 0, key);
    PathHas(key, r.siblings, r.foundValue, 0);
    PathHas(key, r.siblings, value, 0);
  }

  /** An update keeps the tree stored if and only if it changes the value. */
  lemma UpdateKeepsValid(s: State, key: U256, value: U256)
    requires Valid(s) && key in PairsOf(s) && InField(value)
    ensures var s' := Update(s, key, value);
      && PairsOf(s') == PairsOf(s)[key := value]
      && (Valid(s') <==> value != PairsOf(s)[key])
      && (value != PairsOf(s)[key] ==> Replaced(s, s') && (Exact(s) ==> Exact(s')))
      && (value == PairsOf(s)[key] ==> s'.root == s.root && s'.root !in s'.stored && s'.root != Zero)
  {
    var r := Search(s.root, 0, key);
    var s' := Update(s, key, value);
    SearchIsLookup(s.root, 0, key);
    UpdateIsCanonical(s.root, 0, key, value);
    UpdateSets(s.root, key, value);
    NoZeroOnPath(key, r.siblings, value);
    UpdateFolds(s.root, 0, key, value);
    RootOnPath(key, r.siblings, value);
    RootIsLive(s'.root);
  }

  lemma RootOnPath(key: U256, siblings: seq<Hash>, value: U256)
    ensures Fold(key, siblings, Leaf(key, value), 0) in LeafPath(key, siblings, value)
  {
  }

  lemma RootIsLive(t: Hash)
    requires t != Zero
    ensures t in Live(t)
  {
  }

  // ----- deletion

  /** The nodes that `Collapse` hashes. */
  function CollapseNodes(key: U256, siblings: seq<Hash>, start: Hash, d: nat): set<Hash>
    decreases |siblings|
  {
    if AllZero(siblings) then {}
    else {Collapse(key, siblings, start, d)} + CollapseNodes(key, siblings[1..], start, d + 1)
  }

  function Delete(s: State, key: U256): State {
    var r := Search(s.root, 0, key);
    var kept := KeptSiblings(r.siblings);
    State(
      DeleteTree(s.root, 0, key),
      s.stored - LeafPath(key, kept, r.foundValue)
        + CollapseNodes(key, kept, Promoted(r.siblings), 0))
  }

  lemma {:induction false} LiveCollapse(key: U256, siblings: seq<Hash>, start: Hash, d: nat)
    ensures Live(Collapse(key, siblings, start, d))
         == CollapseNodes(key, siblings, start, d) + Live(start) + LiveAll(siblings)
    decreases |siblings|
  {
    if AllZero(siblings) {
      assert siblings == Zeros(|siblings|);
      LiveZeros(|siblings|);
    } else {
      LiveCollapse(key, siblings[1..], start, d + 1);
    }
  }

  lemma KeptNodes(siblings: seq<Hash>)
    ensures LiveAll(siblings) == LiveAll(KeptSiblings(siblings)) + Live(Promoted(siblings))
  {
    if KeptSiblings(siblings) != siblings {
      var kept, last := KeptSiblings(siblings), Promoted(siblings);
      assert siblings == kept + [last];
      LiveAllAppend(kept, [last]);
      assert LiveAll([last]) == Live(last) + LiveAll([]);
    }
  }

  /** What is removed holds the deleted key, what the new tree needs does not. */
  lemma DeleteSets(t: Hash, key: U256)
    requires Canonical(t, 0) && key in ContentsOf(t)
    ensures var r := Search(t, 0, key);
      var kept := KeptSiblings(r.siblings);
      && Live(DeleteTree(t, 0, key))
           == CollapseNodes(key, kept, Promoted(r.siblings), 0) + LiveAll(r.siblings)
      && Live(t) == LeafPath(key, r.siblings, r.foundValue) + LiveAll(r.siblings)
      && Has(LeafPath(key, kept, r.foundValue), key, r.foundValue)
      && Has(LeafPath(key, r.siblings, r.foundValue), key, r.foundValue)
      && Lacks(Live(DeleteTree(t, 0, key)), key)
  {
    var r := Search(t, 0, key);
    var kept := KeptSiblings(r.siblings);
    SearchIsLookup(t, 0, key);
    SearchSiblingsLack(t, 0, key);
    DeleteCollapses(t, 0, key);
    LiveCollapse(key, kept, Promoted(r.siblings), 0);
    KeptNodes(r.siblings);
    LiveFold(key, r.siblings, Leaf(key, r.foundValue), 0);
    PathHas(key, kept, r.foundValue, 0);
    PathHas(key, r.siblings, r.foundValue, 0);
    DeleteIsCanonical(t, 0, key);
    LiveLacks(DeleteTree(t, 0, key), 0, key);
  }

  /** The value of a fold is longer than any of the nodes it was built from. */
  lemma {:induction false} PathSize(key: U256, siblings: seq<Hash>, start: Hash, d: nat, h: Hash)
    requires h in PathNodes(key, siblings, start, d)
    ensures Size(h) <= Size(Fold(key, siblings, start, d))
    decreases |siblings|
  {
    if h != Fold(key, siblings, start, d) { PathSize(key, siblings[1..], start, d + 1, h); }
  }

  lemma {:induction false} FoldAppendLeaf(key: U256, siblings: seq<Hash>, s: Hash, start: Hash, d: nat)
    ensures Size(Fold(key, siblings + [s], start, d)) > Size(Fold(key, siblings, start, d))
    decreases |siblings|
  {
    if siblings == [] {
      assert [] + [s] == [s];
      assert Fold(key, [s][1..], start, d + 1) == start;
    } else {
      assert (siblings + [s])[1..] == siblings[1..] + [s];
      FoldAppendLeaf(key, siblings[1..], s, start, d + 1);
    }
  }

  /** After promoting a leaf the old root stays behind as garbage. */
  lemma OldRootStays(key: U256, kept: seq<Hash>, last: Hash, value: U256)
    ensures Fold(key, kept + [last], Leaf(key, value), 0) !in LeafPath(key, kept, value)
  {
    var t := Fold(key, kept + [last], Leaf(key, value), 0);
    FoldAppendLeaf(key, kept, last, Leaf(key, value), 0);
    if t in PathNodes(key, kept, Leaf(key, value), 0) {
      PathSize(key, kept, Leaf(key, value), 0, t);
    }
  }

  /** Deletion removes one pair and keeps every node of the new tree stored; it leaves
      garbage exactly when the deleted leaf's sibling is a leaf, which is promoted. */
  lemma DeleteKeepsValid(s: State, key: U256)
    requires Valid(s) && key in PairsOf(s)
    ensures var s' := Delete(s, key);
      && Valid(s') && PairsOf(s') == PairsOf(s) - {key}
      && (Promoted(Search(s.root, 0, key).siblings) == Zero ==> Replaced(s, s'))
      && (Exact(s) ==> (Exact(s') <==> Promoted(Search(s.root, 0, key).siblings) == Zero))
  {
    DeleteIsCanonical(s.root, 0, key);
    DeleteSets(s.root, key);
    LiveNotZero(DeleteTree(s.root, 0, key));
    if Promoted(Search(s.root, 0, key).siblings) == Zero { NoGarbage(s, key); }
    if Exact(s) {
      DeleteGarbage(s, key);
    }
  }

  lemma DeleteGarbage(s: State, key: U256)
    requires Valid(s) && key in PairsOf(s) && Exact(s)
    ensures Exact(Delete(s, key)) <==> Promoted(Search(s.root, 0, key).siblings) == Zero
  {
    DeleteSets(s.root, key);
    if Promoted(Search(s.root, 0, key).siblings) != Zero {
      OldRootIsGarbage(s, key);
    } else {
      NoGarbage(s, key);
    }
  }

  lemma OldRootIsGarbage(s: State, key: U256)
    requires Valid(s) && key in PairsOf(s)
    requires Promoted(Search(s.root, 0, key).siblings) != Zero
    ensures s.root in Delete(s, key).stored && s.root !in Live(Delete(s, key).root)
  {
    var r := Search(s.root, 0, key);
    OldRootNotRemoved(s.root, key);
    RootIsLive(s.root);
    DeleteIsCanonical(s.root, 0, key);
    NotLive(DeleteTree(s.root, 0, key), s.root, key);
  }

  /** A promotion removes the deleted leaf and nothing else: the whole old path stays. */
  lemma PromotionKeepsPath(s: State, key: U256)
    requires Valid(s) && key in PairsOf(s)
    requires Promoted(Search(s.root, 0, key).siblings) != Zero
    ensures var s', leaf := Delete(s, key), Leaf(key, PairsOf(s)[key]);
      && leaf !in s'.stored && Live(s.root) - {leaf} <= s'.stored
      && (Exact(s) ==> s'.stored == Live(s.root) - {leaf} + Live(s'.root))
  {
    var r := Search(s.root, 0, key);
    DeleteSets(s.root, key);
    assert r.foundValue == PairsOf(s)[key] && s.root == Fold(key, r.siblings, Leaf(key, r.foundValue), 0) by {
      SearchIsLookup(s.root, 0, key);
    }
    PromotedPathIsDead(s.root, key);
    assert Leaf(key, r.foundValue) !in Live(DeleteTree(s.root, 0, key));
    DeleteIsCanonical(s.root, 0, key);
  }

  /** The hashes recomputed from the bare leaf are no nodes of the old tree. */
  lemma PromotedPathIsDead(t: Hash, key: U256)
    requires Canonical(t, 0) && key in ContentsOf(t)
    requires Promoted(Search(t, 0, key).siblings) != Zero
    ensures var r := Search(t, 0, key);
      PathNodes(key, KeptSiblings(r.siblings), Leaf(key, r.foundValue), 0) !! Live(t)
  {
    var r := Search(t, 0, key);
    var kept, last, leaf := KeptSiblings(r.siblings), Promoted(r.siblings), Leaf(key, r.foundValue);
    SearchSiblingsLack(t, 0, key);
    KeptAndPromoted(r.siblings);
    assert last == r.siblings[|r.siblings| - 1];
    KeptLackPromoted(t, 0, key);
    PathLacks(key, kept, leaf, 0, last.key);
    PathIsInternal(key, kept, leaf, 0);
    PathHas(key, kept, r.foundValue, 0);
    PathHoldsLast(key, kept, last, leaf, 0, last.key);
    SiblingNodesLack(t, 0, key);
    SearchIsLookup(t, 0, key);
    LiveFold(key, r.siblings, leaf, 0);
  }

  lemma OldRootNotRemoved(t: Hash, key: U256)
    requires Canonical(t, 0) && key in ContentsOf(t)
    requires Promoted(Search(t, 0, key).siblings) != Zero
    ensures var r := Search(t, 0, key);
      t !in LeafPath(key, KeptSiblings(r.siblings), r.foundValue)
  {
    var r := Search(t, 0, key);
    var kept, last := KeptSiblings(r.siblings), Promoted(r.siblings);
    assert t == Fold(key, r.siblings, Leaf(key, r.foundValue), 0) by { SearchIsLookup(t, 0, key); }
    KeptAndPromoted(r.siblings);
    OldRootStays(key, kept, last, r.foundValue);
  }

  lemma KeptAndPromoted(siblings: seq<Hash>)
    requires Promoted(siblings) != Zero
    ensures siblings == KeptSiblings(siblings) + [Promoted(siblings)]
  {
  }

  /** A node that holds a key is no part of a tree that does not. */
  lemma NotLive(t: Hash, h: Hash, key: U256)
    requires Canonical(t, 0) && key !in ContentsOf(t) && key in ContentsOf(h)
    ensures h !in Live(t)
  {
    if h in Live(t) { var k := LiveHolds(t, 0, h); }
  }

  lemma NoGarbage(s: State, key: U256)
    requires Valid(s) && key in PairsOf(s)
    requires Promoted(Search(s.root, 0, key).siblings) == Zero
    ensures Replaced(s, Delete(s, key)) && (Exact(s) ==> Exact(Delete(s, key)))
  {
    var r := Search(s.root, 0, key);
    DeleteSets(s.root, key);
    var path, rest := LeafPath(key, r.siblings, r.foundValue), LiveAll(r.siblings);
    assert KeptSiblings(r.siblings) == r.siblings;
    assert path !! rest;
  }

  lemma {:induction false} LiveNotZero(t: Hash)
    ensures Zero !in Live(t)
  {
    if t.Node? { LiveNotZero(t.left); LiveNotZero(t.right); }
  }

  // ----- calls

  datatype Op =
    | InsertOp(key: U256, value: U256)
    | UpdateOp(key: U256, value: U256)
    | DeleteOp(key: U256)

  /** Whether a call succeeds, judged by the key-value map alone. */
  predicate Succeeds(m: Contents, op: Op) {
    match op
    case InsertOp(k, v) => k !in m && InField(k) && InField(v)
    case UpdateOp(k, v) => k in m && InField(v)
    case DeleteOp(k) => k in m
  }

  /** A call on the contract's state; a failed call leaves it alone. */
  function Apply(s: State, op: Op): State {
    if !Succeeds(PairsOf(s), op) then s
    else match op
      case InsertOp(k, v) => Insert(s, k, v)
      case UpdateOp(k, v) => Update(s, k, v)
      case DeleteOp(k) => Delete(s, k)
  }
}
