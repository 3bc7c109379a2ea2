/** The sparse tree over whole runs of calls. */
module SparseRuns {
  import opened Common
  import opened Bits
  import opened SparseTree
  import opened SparsePath
  import opened NodeStore
  import opened SparseState

  function Run(s: State, ops: seq<Op>): State
    decreases |ops|
  {
    if ops == [] then s else Run(Apply(s, ops[0]), ops[1..])
  }

  /** The same calls on a plain key-value map. */
  function ApplyMap(m: Contents, op: Op): Contents {
    if !Succeeds(m, op) then m
    else match op
      case InsertOp(k, v) => m[k := v]
      case UpdateOp(k, v) => m[k := v]
      case DeleteOp(k) => m - {k}
  }

  function RunMap(m: Contents, ops: seq<Op>): Contents
    decreases |ops|
  {
    if ops == [] then m else RunMap(ApplyMap(m, ops[0]), ops[1..])
  }

  /** An update that would store the value already there. */
  predicate SameValueUpdate(m: Contents, op: Op) {
    op.UpdateOp? && op.key in m && m[op.key] == op.value
  }

  /** Every successful update of the run changes a value. */
  predicate ValueChanging(m: Contents, ops: seq<Op>)
    decreases |ops|
  {
    ops == [] || (!SameValueUpdate(m, ops[0]) && ValueChanging(ApplyMap(m, ops[0]), ops[1..]))
  }

  /** One call refines the map, and stays valid unless it is a successful update to
      the value already stored; one that fails changes nothing. */
  lemma ApplyRefinesMap(s: State, op: Op)
    requires Valid(s)
    ensures PairsOf(Apply(s, op)) == ApplyMap(PairsOf(s), op)
    ensures !Succeeds(PairsOf(s), op) ==> Apply(s, op) == s
    ensures Valid(Apply(s, op)) <==> !(Succeeds(PairsOf(s), op) && SameValueUpdate(PairsOf(s), op))
  {
    if Succeeds(PairsOf(s), op) {
      match op
      case InsertOp(k, v) => InsertKeepsValid(s, k, v);
      case UpdateOp(k, v) => UpdateKeepsValid(s, k, v);
      case DeleteOp(k) => DeleteKeepsValid(s, k);
    }
  }

  /** Over every run the contract holds what the map holds, all its nodes stay
      stored, and its root is the one built from that map alone. */
  lemma {:induction false} RunRefinesMap(s: State, ops: seq<Op>)
    requires Valid(s) && ValueChanging(PairsOf(s), ops)
    ensures var s' := Run(s, ops);
      && Valid(s') && PairsOf(s') == RunMap(PairsOf(s), ops)
      && s'.root == Build(RunMap(PairsOf(s), ops), 0)
    decreases |ops|
  {
    if ops == [] {
      CanonicalIsBuild(s.root, 0);
    } else {
      ApplyRefinesMap(s, ops[0]);
      RunRefinesMap(Apply(s, ops[0]), ops[1..]);
    }
  }

  lemma EmptyIsValid()
    ensures Valid(EMPTY) && Exact(EMPTY) && PairsOf(EMPTY) == map[]
  {
  }

  /** Two histories with the same final map have the same root. */
  lemma HistoryIndependence(ops1: seq<Op>, ops2: seq<Op>)
    requires ValueChanging(map[], ops1) && ValueChanging(map[], ops2)
    ensures RunMap(map[], ops1) == RunMap(map[], ops2)
       <==> Run(EMPTY, ops1).root == Run(EMPTY, ops2).root
  {
    EmptyIsValid();
    RunRefinesMap(EMPTY, ops1);
    RunRefinesMap(EMPTY, ops2);
  }

  /** Every search in every reachable state succeeds, and answers as the map does. */
  lemma SearchNeverFails(ops: seq<Op>, nodes: Storage, key: U256)
    requires ValueChanging(map[], ops)
    requires WellStored(nodes) && nodes.Keys == Run(EMPTY, ops).stored
    ensures var res := FindKeyInternal(nodes, key, BitsOf(key, KEY_BITS), Run(EMPTY, ops).root, 0);
      var m := RunMap(map[], ops);
      && res.Ok? && Answers(res.value, m, key)
      && |res.value.siblings| <= KEY_BITS
  {
    EmptyIsValid();
    RunRefinesMap(EMPTY, ops);
    FindIsSearch(nodes, key, BitsOf(key, KEY_BITS), Run(EMPTY, ops).root, 0);
    SearchIsLookup(Run(EMPTY, ops).root, 0, key);
  }

  predicate NoDeletes(ops: seq<Op>) {
    forall i :: 0 <= i < |ops| ==> !ops[i].DeleteOp?
  }

  /** Without deletions the storage never holds a node the tree does not need. */
  lemma {:induction false} RunStaysExact(s: State, ops: seq<Op>)
    requires Valid(s) && Exact(s) && ValueChanging(PairsOf(s), ops) && NoDeletes(ops)
    ensures Exact(Run(s, ops))
    decreases |ops|
  {
    if ops != [] {
      ApplyRefinesMap(s, ops[0]);
      assert Exact(Apply(s, ops[0])) by {
        if Succeeds(PairsOf(s), ops[0]) {
          var k, v := ops[0].key, ops[0].value;
          if ops[0].InsertOp? { InsertKeepsValid(s, k, v); } else { UpdateKeepsValid(s, k, v); }
        }
      }
      RunStaysExact(Apply(s, ops[0]), ops[1..]);
    }
  }

  lemma RunTwo(s: State, first: Op, second: Op)
    ensures Run(s, [first, second]) == Apply(Apply(s, first), second)
  {
    assert [first, second][1..] == [second];
    var s1 := Apply(s, first);
    assert Run(s1, [second]) == Run(Apply(s1, second), []) by { assert [second][1..] == []; }
  }

  /** Equal contents, equal roots. */
  lemma ContentsDetermineRoot(a: State, b: State)
    requires Valid(a) && Valid(b) && PairsOf(a) == PairsOf(b)
    ensures a.root == b.root
  {
    CanonicalIsBuild(a.root, 0);
    CanonicalIsBuild(b.root, 0);
  }

  /** Deleting a key right after inserting it restores the root. */
  lemma DeleteUndoesInsert(s: State, key: U256, value: U256)
    requires Valid(s) && Succeeds(PairsOf(s), InsertOp(key, value))
    ensures Run(s, [InsertOp(key, value), DeleteOp(key)]).root == s.root
  {
    InsertThenDelete(s, key, value);
    ContentsDetermineRoot(s, Apply(Apply(s, InsertOp(key, value)), DeleteOp(key)));
    RunTwo(s, InsertOp(key, value), DeleteOp(key));
  }

  lemma InsertThenDelete(s: State, key: U256, value: U256)
    requires Valid(s) && Succeeds(PairsOf(s), InsertOp(key, value))
    ensures var s2 := Apply(Apply(s, InsertOp(key, value)), DeleteOp(key));
      Valid(s2) && PairsOf(s2) == PairsOf(s)
  {
    ApplyRefinesMap(s, InsertOp(key, value));
    ApplyRefinesMap(Apply(s, InsertOp(key, value)), DeleteOp(key));
    AddThenRemove(PairsOf(s), key, value);
  }

  lemma AddThenRemove(m: Contents, key: U256, value: U256)
    requires key !in m
    ensures m[key := value] - {key} == m
  {
  }

  /** A search that ends in an empty branch has an internal node beside it. */
  lemma {:induction false} EmptyHasNodeSibling(t: Hash, d: nat, key: U256)
    requires Canonical(t, d) && key !in ContentsOf(t)
    ensures var r := Search(t, d, key);
      r.isOld0 && r.siblings != [] ==> r.siblings[|r.siblings| - 1].Node?
  {
    if t.Node? {
      EmptyHasNodeSibling(Child(t, Bit(key, d)), d + 1, key);
      SearchIsLookup(Child(t, Bit(key, d)), d + 1, key);
    }
  }

  /** The new leaf has a leaf beside it exactly if its insertion met another leaf. */
  lemma PromotedIff(t: Hash, key: U256, value: U256)
    requires Canonical(t, 0) && key !in ContentsOf(t) && InField(key) && InField(value)
    ensures Promoted(Search(InsertTree(t, 0, key, value), 0, key).siblings) == Zero <==> Search(t, 0, key).isOld0
  {
    var r := Search(t, 0, key);
    assert Search(InsertTree(t, 0, key, value), 0, key).siblings == NewSiblings(r, key, 0) by {
      InsertIsCanonical(t, 0, key, value);
      InsertFolds(t, 0, key, value);
      ProofIsSearch(InsertTree(t, 0, key, value), 0, key, NewSiblings(r, key, 0), Leaf(key, value));
    }
    EmptyHasNodeSibling(t, 0, key);
  }

  /** Inserting a key and deleting it restores the storage as well exactly if the insertion
      met no other leaf. Otherwise the nodes of the forked path stay behind. */
  lemma StorageRestoredIff(s: State, key: U256, value: U256)
    requires Valid(s) && Exact(s) && Succeeds(PairsOf(s), InsertOp(key, value))
    ensures Run(s, [InsertOp(key, value), DeleteOp(key)]) == s <==> Search(s.root, 0, key).isOld0
  {
    var s1 := Insert(s, key, value);
    var s2 := Delete(s1, key);
    InsertKeepsValid(s, key, value);
    assert Exact(s2) <==> Search(s.root, 0, key).isOld0 by {
      PromotedIff(s.root, key, value);
      DeleteKeepsValid(s1, key);
    }
    assert Run(s, [InsertOp(key, value), DeleteOp(key)]) == s2 && s2.root == s.root by {
      DeleteUndoesInsert(s, key, value);
      RunTwo(s, InsertOp(key, value), DeleteOp(key));
    }
  }

  /** Reachable garbage: a second key, inserted and deleted beside any first one. */
  lemma GarbageIsReachable(a: U256, x: U256, b: U256, y: U256)
    requires a != b && InField(a) && InField(x) && InField(b) && InField(y)
    ensures var s := Run(Run(EMPTY, [InsertOp(a, x)]), [InsertOp(b, y), DeleteOp(b)]);
      Valid(s) && s.root == Leaf(a, x) && !Exact(s)
  {
    var s1 := Run(EMPTY, [InsertOp(a, x)]);
    OneKey(a, x);
    StorageRestoredIff(s1, b, y);
    DeleteUndoesInsert(s1, b, y);
    RunRefinesMap(s1, [InsertOp(b, y), DeleteOp(b)]);
  }

  lemma OneKey(a: U256, x: U256)
    requires InField(a) && InField(x)
    ensures var s := Run(EMPTY, [InsertOp(a, x)]);
      Valid(s) && Exact(s) && s.root == Leaf(a, x) && PairsOf(s) == map[a := x]
  {
    EmptyIsValid();
    assert [InsertOp(a, x)][1..] == [];
    InsertKeepsValid(EMPTY, a, x);
  }

  /** A reachable leaf of value 0 that the search for any other key runs into: the proof of
      that key's absence is then the one `VerifyNonMembership` rejects. */
  lemma ZeroLeafIsReachable(a: U256, b: U256)
    requires a != b && InField(a)
    ensures var s := Run(EMPTY, [InsertOp(a, 0)]);
      && Valid(s) && b !in PairsOf(s)
      && Search(s.root, 0, b) == FindResult(false, [], 0, a, 0, false)
  {
    OneKey(a, 0);
  }

  /** Updating a key to another value and back restores the root. */
  lemma UpdateUndoesUpdate(s: State, key: U256, value: U256)
    requires Valid(s) && key in PairsOf(s) && InField(value) && value != PairsOf(s)[key]
    ensures Run(s, [UpdateOp(key, value), UpdateOp(key, PairsOf(s)[key])]).root == s.root
  {
    var back := PairsOf(s)[key];
    var s1 := Apply(s, UpdateOp(key, value));
    var s2 := Apply(s1, UpdateOp(key, back));
    ContentsInField(s.root, 0);
    ApplyRefinesMap(s, UpdateOp(key, value));
    ApplyRefinesMap(s1, UpdateOp(key, back));
    assert PairsOf(s)[key := value][key := back] == PairsOf(s);
    ContentsDetermineRoot(s, s2);
    RunTwo(s, UpdateOp(key, value), UpdateOp(key, back));
  }

  /** After an update to the value already stored, the root is still published but its
      node is gone: every later search, and so every later call, fails. */
  lemma SameValueUpdateFreezes(s: State, key: U256, nodes: Storage, other: U256, otherBits: seq<bool>)
    requires Valid(s) && key in PairsOf(s)
    requires nodes.Keys == Update(s, key, PairsOf(s)[key]).stored && |otherBits| == KEY_BITS
    ensures Update(s, key, PairsOf(s)[key]).root == s.root
    ensures FindKeyInternal(nodes, other, otherBits, s.root, 0) == Err(KeyNotFound)
  {
    ContentsInField(s.root, 0);
    UpdateKeepsValid(s, key, PairsOf(s)[key]);
  }
}
