/** Searching, inserting, deleting and updating as functions on whole trees, and the
    sibling lists by which the contract does the same from the bottom up. */
module SparsePath {
  import opened Bits
  import opened SparseTree

  datatype FindResult = FindResult(
    found: bool,
    siblings: seq<Hash>,
    foundValue: U256,
    notFoundKey: U256,
    notFoundValue: U256,
    isOld0: bool)

  /** The node whose child on side b is `child` and whose other child is `sibling`. */
  function Join(b: bool, child: Hash, sibling: Hash): Hash {
    if b then Node(sibling, child) else Node(child, sibling)
  }

  function Child(t: Hash, b: bool): Hash
    requires t.Node?
  {
    if b then t.right else t.left
  }

  /** The root reached from `start` by hashing with the siblings (topmost first)
      along the bits of key, `start` being at depth d + |siblings|. */
  function Fold(key: U256, siblings: seq<Hash>, start: Hash, d: nat): Hash
    decreases |siblings|
  {
    if siblings == [] then start
    else Join(Bit(key, d), Fold(key, siblings[1..], start, d + 1), siblings[0])
  }

  /** What a search for key finds in the tree itself. */
  function Search(t: Hash, d: nat, key: U256): FindResult {
    match t
    case Zero => FindResult(false, [], 0, key, 0, true)
    case Leaf(k, v) =>
      if k == key then FindResult(true, [], v, 0, 0, false)
      else FindResult(false, [], 0, k, v, false)
    case Node(l, r) =>
      var b := Bit(key, d);
      var below := Search(if b then r else l, d + 1, key);
      below.(siblings := [if b then l else r] + below.siblings)
  }

  /** Where a search ended: at the leaf of key, at another leaf, or nowhere. */
  function Terminal(r: FindResult, key: U256): Hash {
    if r.found then Leaf(key, r.foundValue)
    else if r.isOld0 then Zero
    else Leaf(r.notFoundKey, r.notFoundValue)
  }

  /** Every key of m starts with the same d bits as key. */
  ghost predicate OnPath(m: Contents, key: U256, d: nat) {
    forall k, i :: k in m && 0 <= i < d ==> Bit(k, i) == Bit(key, i)
  }

  lemma ChildOnPath(t: Hash, d: nat, key: U256)
    requires Canonical(t, d) && t.Node? && OnPath(ContentsOf(t), key, d)
    ensures OnPath(ContentsOf(Child(t, Bit(key, d))), key, d + 1)
  {
  }

  // ----- search

  /** What the fields beside the siblings say of key and the stored pairs: a present key with
      its value and all else blank, or an absent one with value 0 and either itself, where
      nothing is stored, or another stored pair. */
  ghost predicate Answers(r: FindResult, m: Contents, key: U256) {
    if key in m then r == FindResult(true, r.siblings, m[key], 0, 0, false)
    else if r.isOld0 then r == FindResult(false, r.siblings, 0, key, 0, true)
    else
      && r.notFoundKey in m
      && r == FindResult(false, r.siblings, 0, r.notFoundKey, m[r.notFoundKey], false)
  }

  /** A search decides membership, and its result folds back to the tree. */
  lemma {:induction false} SearchIsLookup(t: Hash, d: nat, key: U256)
    requires Canonical(t, d)
    ensures var r := Search(t, d, key);
      && Answers(r, ContentsOf(t), key)
      && Fold(key, r.siblings, Terminal(r, key), d) == t
      && d + |r.siblings| <= (if d <= KEY_BITS then KEY_BITS else d)
  {
    if t.Node? {
      SearchIsLookup(Child(t, Bit(key, d)), d + 1, key);
      var r := Search(t, d, key);
      assert r.siblings[1..] == Search(Child(t, Bit(key, d)), d + 1, key).siblings;
    }
  }

  /** Nothing else answers for the key and folds to the tree: all six fields are determined. */
  lemma AnswerIsSearch(t: Hash, key: U256, r: FindResult)
    requires Canonical(t, 0)
    requires Answers(r, ContentsOf(t), key) && Fold(key, r.siblings, Terminal(r, key), 0) == t
    ensures r == Search(t, 0, key)
  {
    ProofIsSearch(t, 0, key, r.siblings, Terminal(r, key));
    SearchIsLookup(t, 0, key);
  }

  /** The deepest sibling of a leaf is never an empty branch. */
  lemma {:induction false} LeafHasSibling(t: Hash, d: nat, key: U256)
    requires Canonical(t, d)
    ensures var r := Search(t, d, key);
      !Terminal(r, key).Zero? && r.siblings != [] ==> r.siblings[|r.siblings| - 1] != Zero
  {
    if t.Node? {
      var below := Search(Child(t, Bit(key, d)), d + 1, key);
      LeafHasSibling(Child(t, Bit(key, d)), d + 1, key);
      SearchIsLookup(Child(t, Bit(key, d)), d + 1, key);
    }
  }

  // ----- insertion

  /** The first position from i on at which two keys differ. */
  function SplitDepth(a: U256, b: U256, i: nat): (s: nat)
    ensures i <= s && (i <= KEY_BITS ==> s <= KEY_BITS)
    ensures forall j :: i <= j < s ==> Bit(a, j) == Bit(b, j)
    ensures s < KEY_BITS ==> Bit(a, s) != Bit(b, s)
    decreases KEY_BITS - i
  {
    if i < KEY_BITS && Bit(a, i) == Bit(b, i) then SplitDepth(a, b, i + 1) else i
  }

  function Zeros(n: nat): (z: seq<Hash>)
    ensures |z| == n && forall i :: 0 <= i < n ==> z[i] == Zero
  {
    seq(n, _ => Zero)
  }

  /** The siblings of the new leaf after a search that did not find its key. */
  function NewSiblings(r: FindResult, key: U256, d: nat): seq<Hash> {
    if r.isOld0 then r.siblings
    else
      var n := d + |r.siblings|;
      r.siblings + Zeros(SplitDepth(key, r.notFoundKey, n) - n)
        + [Leaf(r.notFoundKey, r.notFoundValue)]
  }

  function InsertTree(t: Hash, d: nat, key: U256, value: U256): Hash {
    match t
    case Zero => Leaf(key, value)
    case Leaf(k, v) => Fork(t, d, key, value)
    case Node(l, r) =>
      var b := Bit(key, d);
      Join(b, InsertTree(if b then r else l, d + 1, key, value), if b then l else r)
  }

  /** The smallest tree at depth d holding an old leaf and a new one. */
  function Fork(leaf: Hash, d: nat, key: U256, value: U256): Hash
    requires leaf.Leaf?
    decreases KEY_BITS - d
  {
    if d < KEY_BITS && Bit(key, d) == Bit(leaf.key, d)
    then Join(Bit(key, d), Fork(leaf, d + 1, key, value), Zero)
    else Join(Bit(key, d), Leaf(key, value), leaf)
  }

  lemma {:induction false} ForkIsCanonical(leaf: Hash, d: nat, key: U256, value: U256)
    requires leaf.Leaf? && Canonical(leaf, d) && InField(key) && InField(value)
    requires leaf.key != key && OnPath(ContentsOf(leaf), key, d)
    ensures Canonical(Fork(leaf, d, key, value), d)
    ensures ContentsOf(Fork(leaf, d, key, value)) == ContentsOf(leaf)[key := value]
    ensures Fork(leaf, d, key, value).Node?
    decreases KEY_BITS - d
  {
    DistinctKeysDiffer(leaf.key, key);
    assert leaf.key in ContentsOf(leaf);
    if Bit(key, d) == Bit(leaf.key, d) {
      ForkIsCanonical(leaf, d + 1, key, value);
    }
  }

  lemma {:induction false} ForkFolds(leaf: Hash, d: nat, key: U256, value: U256)
    requires leaf.Leaf?
    ensures Fork(leaf, d, key, value)
         == Fold(key, Zeros(SplitDepth(key, leaf.key, d) - d) + [leaf], Leaf(key, value), d)
    decreases KEY_BITS - d
  {
    var zs := Zeros(SplitDepth(key, leaf.key, d) - d) + [leaf];
    if d < KEY_BITS && Bit(key, d) == Bit(leaf.key, d) {
      ForkFolds(leaf, d + 1, key, value);
      assert zs[1..] == Zeros(SplitDepth(key, leaf.key, d + 1) - (d + 1)) + [leaf];
    } else {
      assert zs == [leaf];
      assert Fold(key, [], Leaf(key, value), d + 1) == Leaf(key, value);
    }
  }

  lemma InsertAtNode(t: Hash, d: nat, key: U256, value: U256, c: Hash)
    requires Canonical(t, d) && t.Node?
    requires Canonical(c, d + 1) && !c.Zero? && (Child(t, Bit(key, d)).Node? ==> c.Node?)
    requires ContentsOf(c) == ContentsOf(Child(t, Bit(key, d)))[key := value]
    ensures var n := Join(Bit(key, d), c, Child(t, !Bit(key, d)));
      Canonical(n, d) && ContentsOf(n) == ContentsOf(t)[key := value]
  {
    var s := Child(t, !Bit(key, d));
    assert AllBits(ContentsOf(c), d, Bit(key, d));
    assert key !in ContentsOf(s);
    UpdateUnion(ContentsOf(Child(t, Bit(key, d))), ContentsOf(s), key, value);
  }

  lemma UpdateUnion(a: Contents, b: Contents, key: U256, value: U256)
    requires key !in b
    ensures a[key := value] + b == (a + b)[key := value]
    ensures b + a[key := value] == (b + a)[key := value]
  {
  }

  /** Inserting an absent key keeps the tree canonical and adds exactly that pair. */
  lemma {:induction false} InsertIsCanonical(t: Hash, d: nat, key: U256, value: U256)
    requires Canonical(t, d) && InField(key) && InField(value)
    requires key !in ContentsOf(t) && OnPath(ContentsOf(t), key, d)
    ensures Canonical(InsertTree(t, d, key, value), d)
    ensures ContentsOf(InsertTree(t, d, key, value)) == ContentsOf(t)[key := value]
    ensures InsertTree(t, d, key, value) != Zero && (t.Node? ==> InsertTree(t, d, key, value).Node?)
  {
    match t
    case Zero =>
    case Leaf(k, v) => ForkIsCanonical(t, d, key, value);
    case Node(l, r) =>
      ChildOnPath(t, d, key);
      var c := Child(t, Bit(key, d));
      InsertIsCanonical(c, d + 1, key, value);
      InsertAtNode(t, d, key, value, InsertTree(c, d + 1, key, value));
  }

  lemma NewSiblingsBelow(r: FindResult, below: FindResult, s: Hash, key: U256, d: nat)
    requires r == below.(siblings := [s] + below.siblings)
    ensures NewSiblings(r, key, d) == [s] + NewSiblings(below, key, d + 1)
  {
  }

  lemma {:induction false} InsertFolds(t: Hash, d: nat, key: U256, value: U256)
    requires Canonical(t, d) && key !in ContentsOf(t)
    ensures InsertTree(t, d, key, value)
         == Fold(key, NewSiblings(Search(t, d, key), key, d), Leaf(key, value), d)
  {
    match t
    case Zero =>
    case Leaf(k, v) =>
      ForkFolds(t, d, key, value);
      assert NewSiblings(Search(t, d, key), key, d)
          == Zeros(SplitDepth(key, k, d) - d) + [t];
    case Node(l, r) =>
      var c := Child(t, Bit(key, d));
      var below := Search(c, d + 1, key);
      InsertFolds(c, d + 1, key, value);
      NewSiblingsBelow(Search(t, d, key), below, Child(t, !Bit(key, d)), key, d);
      FoldCons(key, Child(t, !Bit(key, d)), NewSiblings(below, key, d + 1), Leaf(key, value), d);
  }

  lemma FoldCons(key: U256, s: Hash, siblings: seq<Hash>, start: Hash, d: nat)
    ensures Fold(key, [s] + siblings, start, d)
         == Join(Bit(key, d), Fold(key, siblings, start, d + 1), s)
  {
    assert ([s] + siblings)[1..] == siblings;
  }

  // ----- deletion

  /** Deleting a leaf lifts a leaf left alone in its subtree. */
  function DeleteTree(t: Hash, d: nat, key: U256): Hash {
    match t
    case Zero => Zero
    case Leaf(k, v) => if k == key then Zero else t
    case Node(l, r) =>
      var b := Bit(key, d);
      Lift(b, DeleteTree(if b then r else l, d + 1, key), if b then l else r)
  }

  function Lift(b: bool, child: Hash, sibling: Hash): Hash {
    if child.Zero? && sibling.Leaf? then sibling
    else if child.Leaf? && sibling.Zero? then child
    else Join(b, child, sibling)
  }

  predicate AllZero(siblings: seq<Hash>) {
    forall i :: 0 <= i < |siblings| ==> siblings[i] == Zero
  }

  /** `Fold`, except that hashing begins only at the deepest nonzero sibling. */
  function Collapse(key: U256, siblings: seq<Hash>, start: Hash, d: nat): Hash
    decreases |siblings|
  {
    if AllZero(siblings) then start
    else Join(Bit(key, d), Collapse(key, siblings[1..], start, d + 1), siblings[0])
  }

  lemma DeleteAtNode(t: Hash, d: nat, key: U256, c: Hash)
    requires Canonical(t, d) && t.Node? && Canonical(c, d + 1)
    requires ContentsOf(c) == ContentsOf(Child(t, Bit(key, d))) - {key}
    requires c.Zero? && !Child(t, Bit(key, d)).Zero? ==> Child(t, Bit(key, d)).Leaf?
    ensures var n := Lift(Bit(key, d), c, Child(t, !Bit(key, d)));
      Canonical(n, d) && !n.Zero? && ContentsOf(n) == ContentsOf(t) - {key}
  {
    var s := Child(t, !Bit(key, d));
    var m := ContentsOf(Child(t, Bit(key, d)));
    assert key !in ContentsOf(s);
    assert AllBits(ContentsOf(c), d, Bit(key, d));
    LiftContents(Bit(key, d), c, s, d);
    RemoveUnion(m, ContentsOf(s), key);
  }

  lemma RemoveUnion(a: Contents, b: Contents, key: U256)
    requires key !in b
    ensures (a - {key}) + b == (a + b) - {key}
    ensures b + (a - {key}) == (b + a) - {key}
  {
  }

  lemma LiftContents(b: bool, c: Hash, s: Hash, d: nat)
    requires AllBits(ContentsOf(c), d, b) && AllBits(ContentsOf(s), d, !b)
    ensures ContentsOf(Lift(b, c, s)) == ContentsOf(c) + ContentsOf(s)
  {
    var x, y := ContentsOf(c), ContentsOf(s);
    if c.Zero? && s.Leaf? {
      assert x + y == y;
    } else if c.Leaf? && s.Zero? {
      assert x + y == x;
    } else if b {
      SidesCommute(x, y, d, b);
    }
  }

  lemma SidesCommute(x: Contents, y: Contents, d: nat, b: bool)
    requires AllBits(x, d, b) && AllBits(y, d, !b)
    ensures x + y == y + x
  {
  }

  /** Deleting keeps the tree canonical and removes exactly one key. */
  lemma {:induction false} DeleteIsCanonical(t: Hash, d: nat, key: U256)
    requires Canonical(t, d)
    ensures Canonical(DeleteTree(t, d, key), d)
    ensures ContentsOf(DeleteTree(t, d, key)) == ContentsOf(t) - {key}
    ensures DeleteTree(t, d, key).Zero? && !t.Zero? ==> t.Leaf?
  {
    if t.Node? {
      var c := Child(t, Bit(key, d));
      DeleteIsCanonical(c, d + 1, key);
      DeleteAtNode(t, d, key, DeleteTree(c, d + 1, key));
    }
  }

  /** The siblings that stay when the leaf they lead to is deleted. */
  function KeptSiblings(siblings: seq<Hash>): seq<Hash> {
    if siblings != [] && siblings[|siblings| - 1].Leaf? then siblings[..|siblings| - 1] else siblings
  }

  /** What takes the deleted leaf's place: its sibling if that is a leaf, else nothing. */
  function Promoted(siblings: seq<Hash>): Hash {
    if siblings != [] && siblings[|siblings| - 1].Leaf? then siblings[|siblings| - 1] else Zero
  }

  lemma CollapseCons(key: U256, s: Hash, siblings: seq<Hash>, start: Hash, d: nat)
    ensures AllZero([s] + siblings) <==> s == Zero && AllZero(siblings)
    ensures Collapse(key, [s] + siblings, start, d)
         == if s == Zero && AllZero(siblings) then start
            else Join(Bit(key, d), Collapse(key, siblings, start, d + 1), s)
  {
    assert ([s] + siblings)[1..] == siblings;
    assert ([s] + siblings)[0] == s;
    assert forall i :: 0 <= i < |siblings| ==> siblings[i] == ([s] + siblings)[i + 1];
  }

  /** Deleting top down and collapsing bottom up give the same tree. */
  lemma {:induction false} DeleteCollapses(t: Hash, d: nat, key: U256)
    requires Canonical(t, d) && key in ContentsOf(t)
    ensures var ss := Search(t, d, key).siblings;
      DeleteTree(t, d, key) == Collapse(key, KeptSiblings(ss), Promoted(ss), d)
  {
    if t.Node? {
      var c, s := Child(t, Bit(key, d)), Child(t, !Bit(key, d));
      assert key in ContentsOf(c);
      DeleteCollapses(c, d + 1, key);
      var below := Search(c, d + 1, key).siblings;
      assert below == [] ==> c == Leaf(key, Search(c, d + 1, key).foundValue) by {
        SearchIsLookup(c, d + 1, key);
      }
      assert below != [] ==> below[|below| - 1] != Zero by {
        SearchIsLookup(c, d + 1, key);
        LeafHasSibling(c, d + 1, key);
      }
      CollapseLevel(key, s, below, DeleteTree(c, d + 1, key), d);
    }
  }

  /** Lifting past one more sibling is collapsing with one more sibling. */
  lemma CollapseLevel(key: U256, s: Hash, below: seq<Hash>, c: Hash, d: nat)
    requires c == Collapse(key, KeptSiblings(below), Promoted(below), d + 1)
    requires below == [] ==> c == Zero && s != Zero
    requires below != [] ==> below[|below| - 1] != Zero
    ensures Lift(Bit(key, d), c, s)
         == Collapse(key, KeptSiblings([s] + below), Promoted([s] + below), d)
  {
    if below == [] {
      assert [s] + below == [s];
      assert KeptSiblings([s]) == if s.Leaf? then [] else [s];
      CollapseCons(key, s, [], Zero, d);
      assert [s] + [] == [s];
    } else {
      KeptSiblingsCons(s, below);
      LiftCollapse(key, s, KeptSiblings(below), Promoted(below), d);
    }
  }

  lemma KeptSiblingsCons(s: Hash, below: seq<Hash>)
    requires below != []
    ensures KeptSiblings([s] + below) == [s] + KeptSiblings(below)
    ensures Promoted([s] + below) == Promoted(below)
    ensures below[|below| - 1] != Zero && Promoted(below).Zero? ==> !AllZero(KeptSiblings(below))
  {
  }

  lemma LiftCollapse(key: U256, s: Hash, kept: seq<Hash>, start: Hash, d: nat)
    requires !start.Node? && (start.Zero? ==> !AllZero(kept))
    ensures Lift(Bit(key, d), Collapse(key, kept, start, d + 1), s)
         == Collapse(key, [s] + kept, start, d)
  {
    CollapseCons(key, s, kept, start, d);
  }

  // ----- update

  function UpdateTree(t: Hash, d: nat, key: U256, value: U256): Hash {
    match t
    case Zero => Zero
    case Leaf(k, v) => if k == key then Leaf(key, value) else t
    case Node(l, r) =>
      var b := Bit(key, d);
      Join(b, UpdateTree(if b then r else l, d + 1, key, value), if b then l else r)
  }

  lemma {:induction false} UpdateIsCanonical(t: Hash, d: nat, key: U256, value: U256)
    requires Canonical(t, d) && key in ContentsOf(t) && InField(value)
    ensures Canonical(UpdateTree(t, d, key, value), d)
    ensures ContentsOf(UpdateTree(t, d, key, value)) == ContentsOf(t)[key := value]
    ensures !UpdateTree(t, d, key, value).Zero?
    ensures t.Node? ==> UpdateTree(t, d, key, value).Node?
  {
    if t.Node? {
      var c := Child(t, Bit(key, d));
      assert key in ContentsOf(c);
      UpdateIsCanonical(c, d + 1, key, value);
      InsertAtNode(t, d, key, value, UpdateTree(c, d + 1, key, value));
    }
  }

  lemma {:induction false} UpdateFolds(t: Hash, d: nat, key: U256, value: U256)
    requires Canonical(t, d) && key in ContentsOf(t)
    ensures UpdateTree(t, d, key, value)
         == Fold(key, Search(t, d, key).siblings, Leaf(key, value), d)
  {
    if t.Node? {
      var c := Child(t, Bit(key, d));
      assert key in ContentsOf(c);
      UpdateFolds(c, d + 1, key, value);
      FoldCons(key, Child(t, !Bit(key, d)), Search(c, d + 1, key).siblings, Leaf(key, value), d);
    }
  }

  // ----- proofs

  /** A sibling list that folds to the tree from a leaf or from nothing is the one
      a search finds: the tree has one proof for each key. */
  lemma {:induction false} ProofIsSearch(t: Hash, d: nat, key: U256, siblings: seq<Hash>, start: Hash)
    requires Canonical(t, d) && !start.Node?
    requires Fold(key, siblings, start, d) == t
    ensures Search(t, d, key).siblings == siblings
    ensures Terminal(Search(t, d, key), key) == start
    decreases |siblings|
  {
    if siblings != [] {
      ProofIsSearch(Child(t, Bit(key, d)), d + 1, key, siblings[1..], start);
      assert siblings == [siblings[0]] + siblings[1..];
    }
  }

  /** Soundness of non-membership proofs. */
  lemma NonMembershipProofSound(t: Hash, key: U256, siblings: seq<Hash>, start: Hash)
    requires Canonical(t, 0)
    requires start.Zero? || (start.Leaf? && start.key != key)
    requires Fold(key, siblings, start, 0) == t
    ensures key !in ContentsOf(t)
  {
    ProofIsSearch(t, 0, key, siblings, start);
    SearchIsLookup(t, 0, key);
  }

  /** Soundness of membership proofs. */
  lemma MembershipProofSound(t: Hash, key: U256, value: U256, siblings: seq<Hash>)
    requires Canonical(t, 0)
    requires Fold(key, siblings, Leaf(key, value), 0) == t
    ensures key in ContentsOf(t) && ContentsOf(t)[key] == value
  {
    ProofIsSearch(t, 0, key, siblings, Leaf(key, value));
    SearchIsLookup(t, 0, key);
  }
}
