/** The ASP non-membership contract: a sparse Merkle tree kept node by node in storage. */
module AspNonMembership {
  import opened Common
  import opened Bits
  import opened SparseTree
  import opened SparsePath
  import opened NodeStore
  import S = SparseState

  /** Poseidon2 of a leaf, which panics on inputs outside the field. */
  function HashLeaf(key: U256, value: U256): Outcome<Hash, Error> {
    if InField(key) && InField(value) then Ok(Leaf(key, value)) else Trap
  }

  /** What the contract's search yields on a valid state, and its bounds. */
  lemma SearchFacts(nodes: Storage, key: U256, keyBits: seq<bool>, root: Hash)
    requires |keyBits| == KEY_BITS && forall i :: 0 <= i < KEY_BITS ==> keyBits[i] == Bit(key, i)
    requires WellStored(nodes) && Canonical(root, 0) && Live(root) <= nodes.Keys
    ensures var r := Search(root, 0, key);
      && FindKeyInternal(nodes, key, keyBits, root, 0) == Ok(r)
      && (r.found <==> key in ContentsOf(root))
      && (r.found ==> r.foundValue == ContentsOf(root)[key] && InField(key) && InField(r.foundValue))
      && (!r.found && r.isOld0 ==> r.notFoundKey == key && r.notFoundValue == 0)
      && (!r.found && !r.isOld0 ==>
            r.notFoundKey != key && InField(r.notFoundKey) && InField(r.notFoundValue))
      && |r.siblings| <= KEY_BITS
  {
    FindIsSearch(nodes, key, keyBits, root, 0);
    SearchIsLookup(root, 0, key);
    ContentsInField(root, 0);
  }

  // ----- the loop of InsertLeaf

  /** The old path's hash and nodes from level i down; below its end, the terminal alone. */
  function OldHash(r: FindResult, key: U256, i: nat): Hash {
    var j := Min(i, |r.siblings|);
    Fold(key, r.siblings[j..], Terminal(r, key), j)
  }

  function OldNodes(r: FindResult, key: U256, i: nat): set<Hash> {
    var j := Min(i, |r.siblings|);
    PathNodes(key, r.siblings[j..], Terminal(r, key), j)
  }

  function NewNodes(siblings: seq<Hash>, key: U256, value: U256, i: nat): set<Hash>
    requires i <= |siblings|
  {
    PathNodes(key, siblings[i..], Leaf(key, value), i) + {Leaf(key, value)}
  }

  lemma OldStep(r: FindResult, key: U256, i: nat)
    ensures i >= |r.siblings| ==>
      OldHash(r, key, i) == OldHash(r, key, i + 1) && OldNodes(r, key, i) == OldNodes(r, key, i + 1)
    ensures i < |r.siblings| ==>
      && OldHash(r, key, i) == Join(Bit(key, i), OldHash(r, key, i + 1), r.siblings[i])
      && OldNodes(r, key, i) == OldNodes(r, key, i + 1) + {OldHash(r, key, i)}
  {
    if i < |r.siblings| {
      PathStep(key, r.siblings, Terminal(r, key), i);
    }
  }

  lemma NewStep(siblings: seq<Hash>, key: U256, value: U256, i: nat)
    requires i < |siblings|
    ensures var rt := Fold(key, siblings[i..], Leaf(key, value), i);
      && rt == Join(Bit(key, i), Fold(key, siblings[i + 1..], Leaf(key, value), i + 1), siblings[i])
      && NewNodes(siblings, key, value, i) == NewNodes(siblings, key, value, i + 1) + {rt}
  {
    PathStep(key, siblings, Leaf(key, value), i);
  }

  lemma OldOnPath(r: FindResult, key: U256, i: nat)
    requires i < |r.siblings|
    ensures OldHash(r, key, i) in PathNodes(key, r.siblings, Terminal(r, key), 0)
  {
    OldStep(r, key, i);
    PathSuffix(key, r.siblings, Terminal(r, key), 0, i);
  }

  lemma NewOnPath(siblings: seq<Hash>, key: U256, value: U256, i: nat)
    requires i <= |siblings|
    ensures NewNodes(siblings, key, value, i) <= S.LeafPath(key, siblings, value)
  {
    PathSuffix(key, siblings, Leaf(key, value), 0, i);
  }

  /** The old node removed at level i is none of the new ones already written. */
  lemma OldNotNew(t: Hash, key: U256, value: U256, i: nat)
    requires Canonical(t, 0) && key !in ContentsOf(t)
    requires i < |Search(t, 0, key).siblings|
    requires i < |NewSiblings(Search(t, 0, key), key, 0)|
    ensures var r := Search(t, 0, key);
      OldHash(r, key, i) !in NewNodes(NewSiblings(r, key, 0), key, value, i + 1)
  {
    var r := Search(t, 0, key);
    S.InsertSets(t, key, value);
    OldOnPath(r, key, i);
    NewOnPath(NewSiblings(r, key, 0), key, value, i + 1);
  }

  /** No old node, when it is removed, is one of the new ones already written. */
  ghost predicate Apart(r: FindResult, siblings: seq<Hash>, key: U256, value: U256) {
    forall i :: 0 <= i < |r.siblings| && i < |siblings| ==>
      OldHash(r, key, i) !in NewNodes(siblings, key, value, i + 1)
  }

  lemma OldApartFromNew(t: Hash, key: U256, value: U256)
    requires Canonical(t, 0) && key !in ContentsOf(t)
    ensures Apart(Search(t, 0, key), NewSiblings(Search(t, 0, key), key, 0), key, value)
  {
    var r := Search(t, 0, key);
    var ss := NewSiblings(r, key, 0);
    forall i | 0 <= i < |r.siblings| && i < |ss|
      ensures OldHash(r, key, i) !in NewNodes(ss, key, value, i + 1)
    {
      OldNotNew(t, key, value, i);
    }
  }

  lemma SwapLevel(before: set<Hash>, removed: set<Hash>, added: set<Hash>, o: Hash, n: Hash)
    ensures before - removed + added + {n} == before - removed + (added + {n})
    ensures o !in added ==>
      before - removed + added - {o} == before - (removed + {o}) + added
    ensures o !in added ==>
      before - removed + added - {o} + {n} == before - (removed + {o}) + (added + {n})
  {
  }

  lemma InsertDone(s: S.State, s': S.State, key: U256, value: U256)
    requires S.Valid(s) && key !in S.PairsOf(s) && InField(key) && InField(value)
    requires var r := Search(s.root, 0, key);
      var ss := NewSiblings(r, key, 0);
      && s'.root == Fold(key, ss, Leaf(key, value), 0)
      && s'.stored == s.stored - OldNodes(r, key, 0) + NewNodes(ss, key, value, 0)
    ensures s' == S.Apply(s, S.InsertOp(key, value)) && S.Valid(s')
    ensures S.PairsOf(s') == S.PairsOf(s)[key := value]
  {
    var r := Search(s.root, 0, key);
    var ss := NewSiblings(r, key, 0);
    assert r.siblings[0..] == r.siblings && ss[0..] == ss;
    S.InsertKeepsValid(s, key, value);
    InsertFolds(s.root, 0, key, value);
  }

  /** The new siblings are the old ones, then empty branches, then the old leaf. */
  ghost predicate Extends(siblings: seq<Hash>, r: FindResult) {
    && |r.siblings| <= |siblings|
    && (forall i :: 0 <= i < |r.siblings| ==> siblings[i] == r.siblings[i])
    && (r.isOld0 ==> |siblings| == |r.siblings|)
    && (!r.isOld0 ==> |siblings| > |r.siblings|)
    && (forall i :: |r.siblings| <= i < |siblings| - 1 ==> siblings[i] == Zero)
  }

  /** What the loop of InsertLeaf relies on holds for every canonical tree. */
  lemma InsertReady(t: Hash, key: U256, value: U256)
    requires Canonical(t, 0) && key !in ContentsOf(t)
    ensures var r := Search(t, 0, key);
      var ss := NewSiblings(r, key, 0);
      && |ss| <= KEY_BITS && Extends(ss, r) && Apart(r, ss, key, value)
      && (!r.isOld0 && r.siblings != [] ==> r.siblings[|r.siblings| - 1] != Zero)
  {
    SearchIsLookup(t, 0, key);
    LeafHasSibling(t, 0, key);
    S.NewSiblingsBound(t, key);
    OldApartFromNew(t, key, value);
  }

  // ----- the loop of UpdateLeaf

  /** A new node of level i is none of the old nodes removed below it: it is larger. */
  lemma UpdateStep(siblings: seq<Hash>, key: U256, new': U256, old': U256, i: nat, before: set<Hash>)
    requires i < |siblings|
    ensures var n := Fold(key, siblings[i..], Leaf(key, new'), i);
      var o := Fold(key, siblings[i..], Leaf(key, old'), i);
      && n == Join(Bit(key, i), Fold(key, siblings[i + 1..], Leaf(key, new'), i + 1), siblings[i])
      && o == Join(Bit(key, i), Fold(key, siblings[i + 1..], Leaf(key, old'), i + 1), siblings[i])
      && before + NewNodes(siblings, key, new', i + 1) - NewNodes(siblings, key, old', i + 1) + {n} - {o}
         == before + NewNodes(siblings, key, new', i) - NewNodes(siblings, key, old', i)
  {
    NewStep(siblings, key, new', i);
    NewStep(siblings, key, old', i);
    var n := Fold(key, siblings[i..], Leaf(key, new'), i);
    FoldSize(key, siblings[i + 1..], Leaf(key, new'), Leaf(key, old'), i + 1);
    if n in PathNodes(key, siblings[i + 1..], Leaf(key, old'), i + 1) {
      S.PathSize(key, siblings[i + 1..], Leaf(key, old'), i + 1, n);
    }
  }

  /** Folding from one leaf or another gives trees of one size. */
  lemma {:induction false} FoldSize(key: U256, siblings: seq<Hash>, a: Hash, b: Hash, d: nat)
    requires a.Leaf? && b.Leaf?
    ensures Size(Fold(key, siblings, a, d)) == Size(Fold(key, siblings, b, d))
    decreases |siblings|
  {
    if siblings != [] { FoldSize(key, siblings[1..], a, b, d + 1); }
  }

  lemma UpdateDone(s: S.State, s': S.State, key: U256, value: U256)
    requires S.Valid(s) && key in S.PairsOf(s) && InField(value)
    requires var r := Search(s.root, 0, key);
      && s'.root == Fold(key, r.siblings, Leaf(key, value), 0)
      && s'.stored == s.stored + NewNodes(r.siblings, key, value, 0)
                               - NewNodes(r.siblings, key, r.foundValue, 0)
    ensures s' == S.Apply(s, S.UpdateOp(key, value))
    ensures S.PairsOf(s') == S.PairsOf(s)[key := value]
    ensures S.Valid(s') <==> value != S.PairsOf(s)[key]
  {
    var r := Search(s.root, 0, key);
    assert r.siblings[0..] == r.siblings;
    S.UpdateKeepsValid(s, key, value);
    UpdateFolds(s.root, 0, key, value);
  }

  // ----- the loop of DeleteLeaf

  function CollapsedNodes(siblings: seq<Hash>, key: U256, start: Hash, i: nat): set<Hash>
    requires i <= |siblings|
  {
    S.CollapseNodes(key, siblings[i..], start, i)
  }

  lemma CollapseStep(siblings: seq<Hash>, key: U256, start: Hash, i: nat)
    requires i < |siblings|
    ensures var c := Collapse(key, siblings[i..], start, i);
      var below := Collapse(key, siblings[i + 1..], start, i + 1);
      && (AllZero(siblings[i..]) <==> siblings[i] == Zero && AllZero(siblings[i + 1..]))
      && (AllZero(siblings[i..]) ==>
            c == below && CollapsedNodes(siblings, key, start, i) == CollapsedNodes(siblings, key, start, i + 1))
      && (!AllZero(siblings[i..]) ==>
            && c == Join(Bit(key, i), below, siblings[i])
            && CollapsedNodes(siblings, key, start, i) == CollapsedNodes(siblings, key, start, i + 1) + {c})
  {
    assert siblings[i..][1..] == siblings[i + 1..];
    assert siblings[i..] == [siblings[i]] + siblings[i + 1..];
    CollapseCons(key, siblings[i], siblings[i + 1..], start, i);
  }

  lemma {:induction false} CollapseSuffix(siblings: seq<Hash>, key: U256, start: Hash, i: nat)
    requires i <= |siblings|
    ensures CollapsedNodes(siblings, key, start, i) <= CollapsedNodes(siblings, key, start, 0)
    decreases i
  {
    if i > 0 {
      CollapseStep(siblings, key, start, i - 1);
      CollapseSuffix(siblings, key, start, i - 1);
    }
  }

  /** The old path hash removed at level i is none of the new nodes already written. */
  lemma RemovedNotCollapsed(t: Hash, key: U256, i: nat)
    requires Canonical(t, 0) && key in ContentsOf(t)
    requires i < |KeptSiblings(Search(t, 0, key).siblings)|
    ensures var r := Search(t, 0, key);
      var kept := KeptSiblings(r.siblings);
      Fold(key, kept[i..], Leaf(key, r.foundValue), i)
        !in CollapsedNodes(kept, key, Promoted(r.siblings), i + 1)
  {
    var r := Search(t, 0, key);
    var kept := KeptSiblings(r.siblings);
    var o := Fold(key, kept[i..], Leaf(key, r.foundValue), i);
    SearchSiblingsLack(t, 0, key);
    PathHas(key, kept[i..], r.foundValue, i);
    assert key in ContentsOf(o);
    if o in CollapsedNodes(kept, key, Promoted(r.siblings), i + 1) {
      CollapseSuffix(kept, key, Promoted(r.siblings), i + 1);
      assert kept[0..] == kept;
      S.DeleteSets(t, key);
    }
  }

  /** No old path hash, when it is removed, is one of the new nodes already written. */
  ghost predicate CollapseApart(siblings: seq<Hash>, key: U256, leaf: Hash, start: Hash) {
    forall i :: 0 <= i < |siblings| ==>
      Fold(key, siblings[i..], leaf, i) !in CollapsedNodes(siblings, key, start, i + 1)
  }

  lemma RemovedApartFromCollapsed(t: Hash, key: U256)
    requires Canonical(t, 0) && key in ContentsOf(t)
    ensures var r := Search(t, 0, key);
      CollapseApart(KeptSiblings(r.siblings), key, Leaf(key, r.foundValue), Promoted(r.siblings))
  {
    var r := Search(t, 0, key);
    var kept := KeptSiblings(r.siblings);
    forall i | 0 <= i < |kept|
      ensures Fold(key, kept[i..], Leaf(key, r.foundValue), i)
        !in CollapsedNodes(kept, key, Promoted(r.siblings), i + 1)
    {
      RemovedNotCollapsed(t, key, i);
    }
  }

  /** The deepest sibling of a stored leaf is a stored leaf or internal node. */
  lemma LastSiblingStored(s: S.State, key: U256)
    requires S.Valid(s) && key in S.PairsOf(s)
    ensures var r := Search(s.root, 0, key);
      r.siblings != [] ==>
        var last := r.siblings[|r.siblings| - 1];
        last != Zero && last in s.stored && last != Leaf(key, r.foundValue)
  {
    var r := Search(s.root, 0, key);
    if r.siblings == [] { return; }
    var last := r.siblings[|r.siblings| - 1];
    assert s.root == Fold(key, r.siblings, Leaf(key, r.foundValue), 0) by {
      SearchIsLookup(s.root, 0, key);
    }
    assert last != Zero by {
      SearchIsLookup(s.root, 0, key);
      LeafHasSibling(s.root, 0, key);
    }
    assert LiveAll(r.siblings) <= s.stored by {
      LiveFold(key, r.siblings, Leaf(key, r.foundValue), 0);
    }
    assert last in LiveAll(r.siblings) by { SiblingIsLive(r.siblings, |r.siblings| - 1); }
    assert key !in ContentsOf(last) by { SearchSiblingsLack(s.root, 0, key); }
  }

  lemma {:induction false} SiblingIsLive(siblings: seq<Hash>, i: nat)
    requires i < |siblings| && siblings[i] != Zero
    ensures siblings[i] in LiveAll(siblings)
  {
    if i == 0 { S.RootIsLive(siblings[0]); } else { SiblingIsLive(siblings[1..], i - 1); }
  }

  /** What DeleteLeaf relies on holds in every valid state. */
  lemma DeleteReady(s: S.State, key: U256)
    requires S.Valid(s) && key in S.PairsOf(s)
    ensures var r := Search(s.root, 0, key);
      var leaf := Leaf(key, r.foundValue);
      && (r.siblings != [] ==> r.siblings[|r.siblings| - 1] in s.stored - {leaf})
      && |KeptSiblings(r.siblings)| <= |r.siblings|
      && CollapseApart(KeptSiblings(r.siblings), key, leaf, Promoted(r.siblings))
  {
    LastSiblingStored(s, key);
    RemovedApartFromCollapsed(s.root, key);
  }

  lemma DeleteDone(s: S.State, s': S.State, key: U256)
    requires S.Valid(s) && key in S.PairsOf(s)
    requires var r := Search(s.root, 0, key);
      var kept, start := KeptSiblings(r.siblings), Promoted(r.siblings);
      && s'.root == Collapse(key, kept, start, 0)
      && s'.stored == s.stored - NewNodes(kept, key, r.foundValue, 0) + CollapsedNodes(kept, key, start, 0)
    ensures s' == S.Apply(s, S.DeleteOp(key)) && S.Valid(s')
    ensures S.PairsOf(s') == S.PairsOf(s) - {key}
  {
    var r := Search(s.root, 0, key);
    var kept := KeptSiblings(r.siblings);
    assert kept[0..] == kept;
    S.DeleteKeepsValid(s, key);
    DeleteCollapses(s.root, 0, key);
  }

  /** The siblings of a search fold to the root from where the search ended, and from
      nothing else that is not an internal node. */
  lemma ProofOutcome(t: Hash, key: U256, start: Hash)
    requires Canonical(t, 0) && !start.Node?
    ensures var r := Search(t, 0, key);
      Fold(key, r.siblings, start, 0) == t <==> start == Terminal(r, key)
  {
    var r := Search(t, 0, key);
    SearchIsLookup(t, 0, key);
    if Fold(key, r.siblings, start, 0) == t {
      ProofIsSearch(t, 0, key, r.siblings, start);
    }
  }

  class Contract {
    var root: Hash
    var nodes: Storage

    ghost function State(): S.State
      reads this
    {
      S.State(root, nodes.Keys)
    }

    ghost predicate Valid()
      reads this
    {
      WellStored(nodes) && S.Valid(State())
    }

    /** The key-value pairs the tree stands for. */
    ghost function Pairs(): Contents
      reads this
    {
      S.PairsOf(State())
    }

    constructor ()
      ensures Valid() && State() == S.EMPTY && Pairs() == map[]
    {
      root := Zero;
      nodes := map[];
    }

    /** Storage writes of the node entries. */
    method SetNode(h: Hash, data: NodeData)
      requires h != Zero && data == RecordOf(h) && WellStored(nodes)
      modifies this`nodes
      ensures WellStored(nodes) && nodes.Keys == old(nodes.Keys) + {h}
    {
      nodes := nodes[h := data];
    }

    method RemoveNode(h: Hash)
      requires WellStored(nodes)
      modifies this`nodes
      ensures WellStored(nodes) && nodes.Keys == old(nodes.Keys) - {h}
    {
      nodes := nodes - {h};
    }

    method GetRoot() returns (r: Hash)
      ensures r == root
    {
      r := root;
    }

    method FindKey(key: U256) returns (res: Outcome<FindResult, Error>)
      requires Valid()
      ensures res == Ok(Search(root, 0, key))
      ensures Answers(res.value, Pairs(), key)
      ensures Fold(key, res.value.siblings, Terminal(res.value, key), 0) == root
    {
      var keyBits := SplitBits(key);
      res := FindKeyInternal(nodes, key, keyBits, root, 0);
      FindIsSearch(nodes, key, keyBits, root, 0);
      SearchIsLookup(root, 0, key);
    }

    method InsertLeaf(key: U256, value: U256) returns (res: Outcome<(), Error>)
      requires Valid()
      modifies this
      ensures Valid()
      ensures res ==
        if key in old(Pairs()) then Err(KeyAlreadyExists)
        else if InField(key) && InField(value) then Ok(()) else Trap
      ensures State() == S.Apply(old(State()), S.InsertOp(key, value))
      ensures Pairs() == if res.Ok? then old(Pairs())[key := value] else old(Pairs())
    {
      ghost var s := State();
      var keyBits := SplitBits(key);
      SearchFacts(nodes, key, keyBits, root);
      var r :- FindKeyInternal(nodes, key, keyBits, root, 0);
      if r.found {
        return Err(KeyAlreadyExists);
      }
      InsertReady(s.root, key, value);
      var siblings, rtOld, addedOne, mixed := ExtendSiblings(r, key, keyBits);
      var rt :- HashLeaf(key, value);
      SetNode(rt, LeafRecord(key, value));
      rt := RebuildPath(rt, value, r, key, keyBits, siblings, rtOld, addedOne, mixed);
      root := rt;
      InsertDone(s, State(), key, value);
      res := Ok(());
    }

    /** The siblings of the new leaf: on a collision the common prefix of the two keys
        becomes empty branches, and the old leaf the last sibling. */
    method ExtendSiblings(r: FindResult, key: U256, keyBits: seq<bool>)
      returns (siblings: seq<Hash>, rtOld: Hash, addedOne: bool, mixed: bool)
      requires |keyBits| == KEY_BITS && forall i :: 0 <= i < KEY_BITS ==> keyBits[i] == Bit(key, i)
      requires !r.found && |r.siblings| <= KEY_BITS
      requires !r.isOld0 ==> InField(r.notFoundKey) && InField(r.notFoundValue)
      ensures siblings == NewSiblings(r, key, 0)
      ensures rtOld == Terminal(r, key)
      ensures addedOne == !r.isOld0
      ensures mixed == (r.isOld0 && r.siblings != [])
    {
      siblings := r.siblings;
      mixed := false;
      rtOld := Zero;
      addedOne := false;
      if !r.isOld0 {
        var oldKeyBits := SplitBits(r.notFoundKey);
        var i := |siblings|;
        while i < |oldKeyBits| && i < |keyBits| && oldKeyBits[i] == keyBits[i]
          invariant |r.siblings| <= i <= KEY_BITS
          invariant siblings == r.siblings + Zeros(i - |r.siblings|)
          invariant SplitDepth(key, r.notFoundKey, i) == SplitDepth(key, r.notFoundKey, |r.siblings|)
        {
          siblings := siblings + [Zero];
          i := i + 1;
        }
        rtOld := HashLeaf(r.notFoundKey, r.notFoundValue).value;
        siblings := siblings + [rtOld];
        addedOne := true;
        mixed := false;
      } else if siblings != [] {
        mixed := true;
        rtOld := Zero;
      }
    }

    /** The bottom-up loop: writes the new path and removes the old one, level by level. */
    method RebuildPath(leaf: Hash, value: U256, r: FindResult, key: U256, keyBits: seq<bool>,
                       siblings: seq<Hash>, rtOld0: Hash, addedOne: bool, mixed0: bool)
      returns (rt: Hash)
      requires |keyBits| == KEY_BITS && forall i :: 0 <= i < KEY_BITS ==> keyBits[i] == Bit(key, i)
      requires leaf == Leaf(key, value) && Extends(siblings, r) && |siblings| <= KEY_BITS
      requires !r.isOld0 && r.siblings != [] ==> r.siblings[|r.siblings| - 1] != Zero
      requires Apart(r, siblings, key, value)
      requires rtOld0 == Terminal(r, key) && addedOne == !r.isOld0
      requires mixed0 == (r.isOld0 && r.siblings != [])
      requires WellStored(nodes) && leaf in nodes
      modifies this`nodes
      ensures WellStored(nodes)
      ensures rt == Fold(key, siblings, leaf, 0)
      ensures nodes.Keys == old(nodes.Keys) - OldNodes(r, key, 0) + NewNodes(siblings, key, value, 0)
    {
      rt := leaf;
      var rtOld, mixed := rtOld0, mixed0;
      ghost var before := nodes.Keys;
      for i := |siblings| downto 0
        invariant WellStored(nodes)
        invariant rt == Fold(key, siblings[i..], leaf, i)
        invariant rtOld == OldHash(r, key, i)
        invariant mixed == if addedOne then i < |r.siblings| else r.siblings != []
        invariant nodes.Keys == before - OldNodes(r, key, i) + NewNodes(siblings, key, value, i)
      {
        OldStep(r, key, i);
        NewStep(siblings, key, value, i);
        SwapLevel(before, OldNodes(r, key, i + 1), NewNodes(siblings, key, value, i + 1),
          OldHash(r, key, i), Fold(key, siblings[i..], leaf, i));
        var sibling := siblings[i];
        var isLastAddedLeaf := addedOne && i == |siblings| - 1;
        if !isLastAddedLeaf && i < |siblings| - 1 && sibling != Zero {
          mixed := true;
        }
        assert mixed && !isLastAddedLeaf <==> i < |r.siblings|;
        var oldSibling := if i < |r.siblings| then r.siblings[i] else Zero;
        rt, rtOld := ReplaceLevel(keyBits[i], sibling, oldSibling, mixed && !isLastAddedLeaf, rt, rtOld);
      }
    }

    /** One level of the loop: removes the old path's node, if it had one, and writes the new. */
    method ReplaceLevel(bit: bool, sibling: Hash, oldSibling: Hash, removeOld: bool, rt: Hash, rtOld: Hash)
      returns (rt': Hash, rtOld': Hash)
      requires WellStored(nodes)
      modifies this`nodes
      ensures rt' == Join(bit, rt, sibling)
      ensures rtOld' == if removeOld then Join(bit, rtOld, oldSibling) else rtOld
      ensures WellStored(nodes)
      ensures nodes.Keys == (if removeOld then old(nodes.Keys) - {rtOld'} else old(nodes.Keys)) + {rt'}
    {
      rtOld' := rtOld;
      if removeOld {
        rtOld' := if bit then Node(oldSibling, rtOld) else Node(rtOld, oldSibling);
        RemoveNode(rtOld');
      }
      var left, right := if bit then sibling else rt, if bit then rt else sibling;
      rt' := Node(left, right);
      SetNode(rt', NodeRecord(left, right));
    }

    method UpdateLeaf(key: U256, newValue: U256) returns (res: Outcome<(), Error>)
      requires Valid()
      modifies this
      ensures res ==
        if key !in old(Pairs()) then Err(KeyNotFound)
        else if InField(newValue) then Ok(()) else Trap
      ensures WellStored(nodes) && State() == S.Apply(old(State()), S.UpdateOp(key, newValue))
      ensures Pairs() == if res.Ok? then old(Pairs())[key := newValue] else old(Pairs())
      ensures Valid() <==> !(res.Ok? && newValue == old(Pairs())[key])
    {
      ghost var s := State();
      var keyBits := SplitBits(key);
      SearchFacts(nodes, key, keyBits, root);
      var r :- FindKeyInternal(nodes, key, keyBits, root, 0);
      if !r.found {
        return Err(KeyNotFound);
      }
      var oldLeafHash :- HashLeaf(key, r.foundValue);
      var newLeafHash :- HashLeaf(key, newValue);
      SetNode(newLeafHash, LeafRecord(key, newValue));
      RemoveNode(oldLeafHash);
      var currentHash := ReplacePath(newLeafHash, oldLeafHash, key, keyBits, r.siblings, s.stored);
      root := currentHash;
      UpdateDone(s, State(), key, newValue);
      res := Ok(());
    }

    /** The bottom-up loop: writes each new node, then removes the old one. */
    method ReplacePath(newLeaf: Hash, oldLeaf: Hash, key: U256, keyBits: seq<bool>,
                       siblings: seq<Hash>, ghost before: set<Hash>)
      returns (currentHash: Hash)
      requires |keyBits| == KEY_BITS && forall i :: 0 <= i < KEY_BITS ==> keyBits[i] == Bit(key, i)
      requires newLeaf.Leaf? && oldLeaf.Leaf? && newLeaf.key == oldLeaf.key == key
      requires |siblings| <= KEY_BITS
      requires WellStored(nodes) && nodes.Keys == before + {newLeaf} - {oldLeaf}
      modifies this`nodes
      ensures WellStored(nodes)
      ensures currentHash == Fold(key, siblings, newLeaf, 0)
      ensures nodes.Keys == before + NewNodes(siblings, key, newLeaf.value, 0)
                                   - NewNodes(siblings, key, oldLeaf.value, 0)
    {
      currentHash := newLeaf;
      var oldCurrentHash := oldLeaf;
      for level := |siblings| downto 0
        invariant WellStored(nodes)
        invariant currentHash == Fold(key, siblings[level..], newLeaf, level)
        invariant oldCurrentHash == Fold(key, siblings[level..], oldLeaf, level)
        invariant nodes.Keys == before + NewNodes(siblings, key, newLeaf.value, level)
                                       - NewNodes(siblings, key, oldLeaf.value, level)
      {
        var sibling := siblings[level];
        UpdateStep(siblings, key, newLeaf.value, oldLeaf.value, level, before);
        var left, right := if keyBits[level] then sibling else currentHash,
                           if keyBits[level] then currentHash else sibling;
        var oldLeft, oldRight := if keyBits[level] then sibling else oldCurrentHash,
                                 if keyBits[level] then oldCurrentHash else sibling;
        currentHash := Node(left, right);
        oldCurrentHash := Node(oldLeft, oldRight);
        SetNode(currentHash, NodeRecord(left, right));
        RemoveNode(oldCurrentHash);
      }
      assert siblings[0..] == siblings;
    }

    method DeleteLeaf(key: U256) returns (res: Outcome<(), Error>)
      requires Valid()
      modifies this
      ensures Valid()
      ensures res == if key in old(Pairs()) then Ok(()) else Err(KeyNotFound)
      ensures State() == S.Apply(old(State()), S.DeleteOp(key))
      ensures Pairs() == old(Pairs()) - {key}
    {
      var keyBits := SplitBits(key);
      SearchFacts(nodes, key, keyBits, root);
      var r :- FindKeyInternal(nodes, key, keyBits, root, 0);
      if !r.found {
        return Err(KeyNotFound);
      }
      res := DeleteFound(key, keyBits, r);
    }

    /** The deletion of a key that has been found. */
    method DeleteFound(key: U256, keyBits: seq<bool>, r: FindResult) returns (res: Outcome<(), Error>)
      requires Valid() && key in Pairs() && r == Search(root, 0, key)
      requires |keyBits| == KEY_BITS && forall i :: 0 <= i < KEY_BITS ==> keyBits[i] == Bit(key, i)
      modifies this
      ensures Valid() && res == Ok(())
      ensures State() == S.Apply(old(State()), S.DeleteOp(key)) && Pairs() == old(Pairs()) - {key}
    {
      ghost var s := State();
      SearchFacts(nodes, key, keyBits, root);
      var rtOld :- HashLeaf(key, r.foundValue);
      RemoveNode(rtOld);
      DeleteReady(s, key);
      var promoted :- PromotedSibling(r.siblings);
      var (start, siblingsToUse) := promoted;
      var rtNew := CollapsePath(rtOld, start, key, r.foundValue, keyBits, siblingsToUse);
      root := rtNew;
      DeleteDone(s, State(), key);
      res := Ok(());
    }

    /** The leaf that takes the deleted one's place, if its deepest sibling is a leaf, and
        the siblings that are left. */
    method PromotedSibling(siblings: seq<Hash>) returns (res: Outcome<(Hash, seq<Hash>), Error>)
      requires WellStored(nodes)
      ensures res == if siblings != [] && siblings[|siblings| - 1] !in nodes
                     then Err(KeyNotFound) else Ok((Promoted(siblings), KeptSiblings(siblings)))
    {
      if |siblings| == 0 {
        return Ok((Zero, siblings));
      }
      var lastSibling := siblings[|siblings| - 1];
      if lastSibling !in nodes {
        return Err(KeyNotFound);
      }
      match nodes[lastSibling]
      case LeafRecord(_, _) => res := Ok((lastSibling, siblings[..|siblings| - 1]));
      case NodeRecord(_, _) => res := Ok((Zero, siblings));
      case OtherRecord => res := Err(KeyNotFound);
    }

    /** The bottom-up loop: removes the old path hashes and writes the collapsed path. */
    method CollapsePath(leaf: Hash, start: Hash, key: U256, value: U256, keyBits: seq<bool>,
                        siblings: seq<Hash>)
      returns (rtNew: Hash)
      requires |keyBits| == KEY_BITS && forall i :: 0 <= i < KEY_BITS ==> keyBits[i] == Bit(key, i)
      requires leaf == Leaf(key, value) && |siblings| <= KEY_BITS
      requires CollapseApart(siblings, key, leaf, start)
      requires WellStored(nodes) && leaf !in nodes
      modifies this`nodes
      ensures WellStored(nodes)
      ensures rtNew == Collapse(key, siblings, start, 0)
      ensures nodes.Keys == old(nodes.Keys) - NewNodes(siblings, key, value, 0)
                                            + CollapsedNodes(siblings, key, start, 0)
    {
      var rtOld := leaf;
      rtNew := start;
      var mixed := false;
      ghost var before := nodes.Keys;
      for level := |siblings| downto 0
        invariant WellStored(nodes)
        invariant rtOld == Fold(key, siblings[level..], leaf, level)
        invariant rtNew == Collapse(key, siblings[level..], start, level)
        invariant mixed == !AllZero(siblings[level..])
        invariant nodes.Keys == before - NewNodes(siblings, key, value, level)
                                       + CollapsedNodes(siblings, key, start, level)
      {
        var sibling := siblings[level];
        var bit := keyBits[level];
        NewStep(siblings, key, value, level);
        CollapseStep(siblings, key, start, level);
        SwapLevel(before, NewNodes(siblings, key, value, level + 1),
          CollapsedNodes(siblings, key, start, level + 1),
          Fold(key, siblings[level..], leaf, level), Collapse(key, siblings[level..], start, level));
        rtOld := if bit then Node(sibling, rtOld) else Node(rtOld, sibling);
        RemoveNode(rtOld);
        if sibling != Zero {
          mixed := true;
        }
        if mixed {
          var left, right := if bit then sibling else rtNew, if bit then rtNew else sibling;
          rtNew := Node(left, right);
          SetNode(rtNew, NodeRecord(left, right));
        }
      }
    }

    method VerifyNonMembership(key: U256, siblings: seq<Hash>, notFoundKey: U256, notFoundValue: U256)
      returns (res: Outcome<bool, Error>)
      requires Valid()
      ensures res == Ok(false) <==> key in Pairs()
      ensures res == Ok(true) <==>
        var r := Search(root, 0, key);
        && key !in Pairs()
        && siblings == r.siblings && notFoundKey == r.notFoundKey && notFoundValue == r.notFoundValue
        && (r.isOld0 || r.notFoundValue != 0)
      ensures res.Ok? || res == Err(InvalidProof)
    {
      var keyBits := SplitBits(key);
      SearchFacts(nodes, key, keyBits, root);
      var r :- FindKeyInternal(nodes, key, keyBits, root, 0);
      if r.found {
        return Ok(false);
      }
      if |r.siblings| != |siblings| {
        return Err(InvalidProof);
      }
      var same := SameHashes(siblings, r.siblings);
      if !same {
        return Err(InvalidProof);
      }
      if r.notFoundKey != notFoundKey || r.notFoundValue != notFoundValue {
        return Err(InvalidProof);
      }
      var start := Zero;
      if notFoundKey != key && notFoundValue != 0 {
        start :- HashLeaf(notFoundKey, notFoundValue);
      }
      var computedRoot := FoldProof(key, keyBits, siblings, start);
      ProofOutcome(root, key, start);
      if computedRoot != root {
        return Err(InvalidProof);
      }
      res := Ok(true);
    }

    static method SameHashes(a: seq<Hash>, b: seq<Hash>) returns (same: bool)
      requires |a| == |b|
      ensures same <==> a == b
    {
      for i := 0 to |a|
        invariant a[..i] == b[..i]
      {
        if a[i] != b[i] {
          return false;
        }
      }
      assert a == a[..|a|] && b == b[..|b|];
      same := true;
    }

    /** Hashes a proof up to its root, from the leaf level to the top. */
    static method FoldProof(key: U256, keyBits: seq<bool>, siblings: seq<Hash>, start: Hash) returns (rt: Hash)
      requires |keyBits| == KEY_BITS && forall i :: 0 <= i < KEY_BITS ==> keyBits[i] == Bit(key, i)
      requires |siblings| <= KEY_BITS
      ensures rt == Fold(key, siblings, start, 0)
    {
      rt := start;
      for level := |siblings| downto 0
        invariant rt == Fold(key, siblings[level..], start, level)
      {
        PathStep(key, siblings, start, level);
        var sibling := siblings[level];
        rt := if keyBits[level] then Node(sibling, rt) else Node(rt, sibling);
      }
      assert siblings[0..] == siblings;
    }
  }
}
