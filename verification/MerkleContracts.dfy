/** The two on-chain incremental Merkle trees: ASP membership (one leaf a call) and the
    pool's tree (two leaves a call, with a ring of recent roots). */
module MerkleContracts {
  import opened Common
  import opened Bits
  import opened MerkleSpec
  import CoreMerkle

  const MAX_LEVELS: nat := 32
  const ROOT_HISTORY_SIZE: nat := 90

  datatype Error = AlreadyInitialized | WrongLevels | MerkleTreeFull | NextIndexNotEven | NotInitialized

  /** The event an insertion publishes. */
  datatype LeafAdded<T> = LeafAdded(leaf: T, index: nat, root: T)

  function LeavesOf<T>(log: seq<LeafAdded<T>>): (leaves: seq<T>)
    ensures |leaves| == |log| && forall i :: 0 <= i < |log| ==> leaves[i] == log[i].leaf
  {
    seq(|log|, i requires 0 <= i < |log| => log[i].leaf)
  }

  /** A contract's log: events in index order, each with the root right after it. */
  ghost predicate IsLog<T>(h: Compression<T>, zero: T, levels: nat, log: seq<LeafAdded<T>>) {
    && |log| <= Pow2(levels)
    && forall i :: 0 <= i < |log| ==>
         log[i].index == i && log[i].root == TreeRoot(h, zero, LeavesOf(log)[..i + 1], levels)
  }

  lemma LogGrows<T>(h: Compression<T>, zero: T, levels: nat, log: seq<LeafAdded<T>>, leaf: T)
    requires IsLog(h, zero, levels, log) && |log| < Pow2(levels)
    ensures IsLog(h, zero, levels,
      log + [LeafAdded(leaf, |log|, TreeRoot(h, zero, LeavesOf(log) + [leaf], levels))])
  {
    var log' := log + [LeafAdded(leaf, |log|, TreeRoot(h, zero, LeavesOf(log) + [leaf], levels))];
    forall i | 0 <= i < |log'|
      ensures log'[i].index == i && log'[i].root == TreeRoot(h, zero, LeavesOf(log')[..i + 1], levels)
    {
      if i < |log| {
        assert LeavesOf(log')[..i + 1] == LeavesOf(log)[..i + 1];
      } else {
        assert LeavesOf(log')[..i + 1] == LeavesOf(log) + [leaf];
      }
    }
  }

  /** The tree's leaves lie in the field; the compression panics on any other value. */
  ghost predicate AllIn<T>(inField: T -> bool, leaves: seq<T>) {
    forall i :: 0 <= i < |leaves| ==> inField(leaves[i])
  }

  /** Truncation to 32 bits. */
  function U32(x: nat): nat { x % 0x1_0000_0000 }

  // ----- ASP membership

  class AspMembership<T> {
    const compress: Compression<T>
    const inField: T -> bool
    const levels: nat
    var nextIndex: nat
    var filledSubtrees: map<nat, T>
    const zeroes: seq<T>
    var root: T
    ghost var leaves: seq<T>
    ghost var log: seq<LeafAdded<T>>

    ghost predicate Valid()
      reads this
    {
      && 0 < levels <= MAX_LEVELS
      && ZeroChain(compress, zeroes) && |zeroes| > levels
      && nextIndex == |leaves| <= Pow2(levels)
      && root == TreeRoot(compress, zeroes[0], leaves, levels)
      && Usable(compress, zeroes[0], leaves, filledSubtrees, 0, levels)
      && leaves == LeavesOf(log) && IsLog(compress, zeroes[0], levels, log) && AllIn(inField, leaves)
    }

    constructor (compress: Compression<T>, inField: T -> bool, levels: nat, zeros: seq<T>)
      requires 0 < levels <= MAX_LEVELS
      requires ZeroChain(compress, zeros) && |zeros| > MAX_LEVELS
      ensures Valid() && leaves == []
      ensures this.compress == compress && this.inField == inField && this.levels == levels && zeroes == zeros
    {
      this.compress := compress;
      this.inField := inField;
      this.levels := levels;
      zeroes := zeros;
      nextIndex := 0;
      filledSubtrees := map l | 0 <= l <= levels :: zeros[l];
      root := zeros[levels];
      leaves := [];
      log := [];
      new;
      EmptyNode(compress, zeros[0], [], levels, 0);
      EmptyIsUsable(compress, zeros[0], filledSubtrees, 0, levels);
    }

    /** Deployment rejects level counts outside 1..32. */
    static method Deploy(compress: Compression<T>, inField: T -> bool, levels: nat, zeros: seq<T>)
      returns (res: Result<AspMembership<T>, Error>)
      requires ZeroChain(compress, zeros) && |zeros| > MAX_LEVELS
      ensures res.Failure? <==> !(1 <= levels <= 32)
      ensures res.Failure? ==> res.error == WrongLevels
      ensures res.Success? ==> fresh(res.value) && res.value.Valid() && res.value.leaves == []
    {
      if levels == 0 || levels > MAX_LEVELS {
        return Failure(WrongLevels);
      }
      var contract := new AspMembership(compress, inField, levels, zeros);
      res := Success(contract);
    }

    method GetRoot() returns (r: T)
      requires Valid()
      ensures r == TreeRoot(compress, zeroes[0], leaves, levels)
    {
      r := root;
    }

    /** Appends a leaf; the published index and root are those of the new tree. */
    method InsertLeaf(leaf: T) returns (res: Outcome<LeafAdded<T>, Error>)
      requires Valid()
      modifies this
      ensures Valid()
      ensures res.Err? <==> |old(leaves)| == Pow2(levels)
      ensures res.Err? ==> res.error == MerkleTreeFull
      ensures res.Trap? <==> |old(leaves)| < Pow2(levels) && !inField(leaf)
      ensures !res.Ok? ==> unchanged(this)
      ensures log == if res.Ok? then old(log) + [res.value] else old(log)
      ensures res.Ok? ==> leaves == old(leaves) + [leaf]
      ensures res.Ok? ==>
        res.value == LeafAdded(leaf, |old(leaves)|, TreeRoot(compress, zeroes[0], leaves, levels))
    {
      if nextIndex >= Pow2(levels) {
        return Err(MerkleTreeFull);
      }
      if !inField(leaf) {
        return Trap;  // in the first compression; its other inputs are hashes and accepted leaves
      }
      root := ClimbFromLeaf(leaf);
      LogGrows(compress, zeroes[0], levels, log, leaf);
      var added := LeafAdded(leaf, nextIndex, root);
      log, leaves := log + [added], leaves + [leaf];
      nextIndex := nextIndex + 1;
      res := Ok(added);
    }

    /** Hashes the new leaf up to the root, remembering every hash that is a left child. */
    method ClimbFromLeaf(leaf: T) returns (currentHash: T)
      requires ZeroChain(compress, zeroes) && |zeroes| > levels
      requires nextIndex == |leaves| < Pow2(levels)
      requires Usable(compress, zeroes[0], leaves, filledSubtrees, 0, levels)
      modifies this`filledSubtrees
      ensures currentHash == TreeRoot(compress, zeroes[0], leaves + [leaf], levels)
      ensures Usable(compress, zeroes[0], leaves + [leaf], filledSubtrees, 0, levels)
    {
      var actualIndex := nextIndex;
      var currentIndex := actualIndex;
      currentHash := leaf;
      ghost var h, zero, new' := compress, zeroes[0], leaves + [leaf];
      for l := 0 to levels
        invariant currentIndex == Ancestor(actualIndex, l)
        invariant currentHash == NodeAt(h, zero, new', l, currentIndex)
        invariant Usable(h, zero, new', filledSubtrees, 0, l)
        invariant Usable(h, zero, leaves, filledSubtrees, l, levels)
      {
        AppendOne(actualIndex, l);
        InsertLevel(h, zero, leaves, [leaf], l);
        ghost var before := filledSubtrees;
        if currentIndex % 2 == 1 {
          var left := filledSubtrees[l];
          currentHash := compress(left, currentHash);
        } else {
          filledSubtrees := filledSubtrees[l := currentHash];
          currentHash := compress(currentHash, zeroes[l]);
        }
        LevelDone(h, zero, leaves, [leaf], 0, l, levels, before, filledSubtrees);
        currentIndex := currentIndex / 2;
      }
      AncestorIsTop(actualIndex, levels);
    }
  }

  // ----- the pool's tree

  /** The root after the first k insertions of pairs. */
  function RootAfter<T>(h: Compression<T>, zero: T, leaves: seq<T>, levels: nat, k: nat): T
    requires 2 * k <= |leaves|
  {
    TreeRoot(h, zero, leaves[..2 * k], levels)
  }

  /** r is one of the latest min(90, n + 1) roots, n being the number of insertions. */
  ghost predicate Recent<T>(h: Compression<T>, zero: T, leaves: seq<T>, levels: nat, r: T) {
    exists k :: RecentAt(|leaves| / 2, k) && RootAfter(h, zero, leaves, levels, k) == r
  }

  /** Slot k mod 90 of the ring holds the root after k insertions, for the latest k. */
  ghost predicate History<T>(h: Compression<T>, zero: T, leaves: seq<T>, levels: nat, roots: map<nat, T>) {
    var n := |leaves| / 2;
    && (forall k :: RecentAt(n, k) ==>
          k % ROOT_HISTORY_SIZE in roots &&
          roots[k % ROOT_HISTORY_SIZE] == RootAfter(h, zero, leaves, levels, k))
    && (forall i :: i in roots ==> i < ROOT_HISTORY_SIZE && i <= n)
  }

  predicate RecentAt(n: nat, k: int) { 0 <= k <= n < k + 90 }

  class MerkleTreeWithHistory<T(==)> {
    const compress: Compression<T>
    const inField: T -> bool
    const zeroWord: T  // the number 0, which is no root
    var levels: Option<nat>
    var currentRootIndex: Option<nat>
    var nextIndex: Option<nat>
    var filledSubtree: map<nat, T>
    var zeroes: map<nat, T>
    var roots: map<nat, T>
    ghost var leaves: seq<T>
    ghost var zero: T  // the zero leaf

    ghost predicate Initialized()
      reads this
    {
      currentRootIndex.Some?
    }

    ghost predicate Valid()
      reads this
    {
      if Initialized() then ValidTree() && ValidHistory()
      else levels.None? && nextIndex.None? && filledSubtree == map[] && zeroes == map[] && roots == map[]
    }

    ghost predicate ValidTree()
      reads this
    {
      && levels.Some? && 0 < levels.value <= MAX_LEVELS
      && nextIndex == Some(|leaves|) && |leaves| <= Pow2(levels.value) && |leaves| % 2 == 0
      && ZeroTable(compress, zero, zeroes, levels.value + 1)
      && Usable(compress, zero, leaves, filledSubtree, 1, levels.value)
      && AllIn(inField, leaves)
    }

    ghost predicate ValidHistory()
      reads this
      requires levels.Some?
    {
      && currentRootIndex == Some(|leaves| / 2 % ROOT_HISTORY_SIZE)
      && History(compress, zero, leaves, levels.value, roots)
    }

    constructor (compress: Compression<T>, inField: T -> bool, zeroWord: T)
      ensures Valid() && !Initialized()
      ensures this.compress == compress && this.inField == inField && this.zeroWord == zeroWord
    {
      this.compress := compress;
      this.inField := inField;
      this.zeroWord := zeroWord;
      levels, currentRootIndex, nextIndex := None, None, None;
      filledSubtree, zeroes, roots := map[], map[], map[];
      leaves, zero := [], zeroWord;
    }

    method Init(levels: nat, zeros: seq<T>) returns (res: Outcome<(), Error>)
      requires Valid() && ZeroChain(compress, zeros) && |zeros| > MAX_LEVELS
      modifies this
      ensures Valid()
      ensures res ==
        if !(1 <= levels <= 32) then Err(WrongLevels)
        else if old(Initialized()) then Err(AlreadyInitialized) else Ok(())
      ensures res.Ok? ==> Initialized() && leaves == [] && zero == zeros[0] && this.levels == Some(levels)
      ensures res.Err? ==> unchanged(this)
    {
      if levels == 0 || levels > MAX_LEVELS {
        return Err(WrongLevels);
      }
      if currentRootIndex.Some? {
        return Err(AlreadyInitialized);
      }
      StoreEmptyTree(levels, zeros);
      res := Ok(());
    }

    method StoreEmptyTree(levels: nat, zeros: seq<T>)
      requires 0 < levels <= MAX_LEVELS && ZeroChain(compress, zeros) && |zeros| > levels && roots == map[]
      modifies this
      ensures ValidTree() && ValidHistory()
      ensures leaves == [] && zero == zeros[0] && this.levels == Some(levels)
    {
      this.levels := Some(levels);
      leaves, zero := [], zeros[0];
      WriteZeroes(levels, zeros);
      roots := roots[0 := zeros[levels]];
      currentRootIndex := Some(0);
      nextIndex := Some(0);
      assert Usable(compress, zero, [], filledSubtree, 1, levels) by {
        EmptyIsUsable(compress, zero, filledSubtree, 1, levels);
      }
      assert History(compress, zero, [], levels, roots) by {
        InitialHistory(compress, zero, levels);
        assert roots == map[0 := ZeroAt(compress, zero, levels)];
      }
    }

    /** Every level starts with its empty hash. */
    method WriteZeroes(levels: nat, zeros: seq<T>)
      requires ZeroChain(compress, zeros) && |zeros| > levels && zero == zeros[0]
      modifies this`filledSubtree, this`zeroes
      ensures Covers(filledSubtree, levels + 1) && ZeroTable(compress, zero, zeroes, levels + 1)
    {
      for i := 0 to levels + 1
        invariant Covers(filledSubtree, i) && ZeroTable(compress, zero, zeroes, i)
      {
        filledSubtree := filledSubtree[i := zeros[i]];
        zeroes := zeroes[i := zeros[i]];
      }
    }

    /** Appends a pair of leaves; a call that fails or traps changes nothing. */
    method InsertTwoLeaves(leaf1: T, leaf2: T) returns (res: Outcome<(nat, nat), Error>)
      requires Valid()
      modifies this
      ensures Valid()
      ensures Initialized() == old(Initialized()) && zero == old(zero) && levels == old(levels)
      ensures !old(Initialized()) ==> res == Err(NotInitialized)
      ensures old(Initialized()) ==>
        res == (if |old(leaves)| + 2 > Pow2(old(levels).value) then Err(MerkleTreeFull)
                else if !inField(leaf1) || !inField(leaf2) then Trap
                else Ok((|old(leaves)|, |old(leaves)| + 1)))
      ensures !res.Ok? ==> unchanged(this)
      ensures leaves == if res.Ok? then old(leaves) + [leaf1, leaf2] else old(leaves)
    {
      if levels.None? || nextIndex.None? || currentRootIndex.None? {
        return Err(NotInitialized);
      }
      var lvls, next := levels.value, nextIndex.value;
      var maxLeaves := Pow2(lvls);
      if next % 2 != 0 {
        return Err(NextIndexNotEven);
      }
      if next + 2 > maxLeaves {
        return Err(MerkleTreeFull);
      }
      if !inField(leaf1) || !inField(leaf2) {
        return Trap;  // in the first compression; all later inputs are hashes
      }
      AppendPair(leaf1, leaf2, next, lvls);
      IndicesFit(next, lvls);
      res := Ok((U32(next), U32(next + 1)));
    }

    /** Stores the pair's path, the new root in the next slot of the ring, and the count. */
    method AppendPair(leaf1: T, leaf2: T, next: nat, lvls: nat)
      requires Valid() && Initialized() && levels == Some(lvls) && nextIndex == Some(next)
      requires next + 2 <= Pow2(lvls) && inField(leaf1) && inField(leaf2)
      modifies this
      ensures Valid() && Initialized()
      ensures leaves == old(leaves) + [leaf1, leaf2] && zero == old(zero) && levels == old(levels)
    {
      var currentHash := compress(leaf1, leaf2);
      ghost var more, new' := [leaf1, leaf2], leaves + [leaf1, leaf2];
      PairHash(compress, zero, leaves, leaf1, leaf2);
      currentHash := ClimbPath(currentHash, next, lvls, more);
      HistoryStep(compress, zero, leaves, more, lvls, roots);
      var rootIndex := (currentRootIndex.value + 1) % ROOT_HISTORY_SIZE;
      roots := roots[rootIndex := currentHash];
      currentRootIndex := Some(rootIndex);
      nextIndex := Some(next + 2);
      leaves := new';
    }

    /** Hashes the new pair up to the root, remembering every hash that is a left child. */
    method ClimbPath(pairHash: T, next: nat, lvls: nat, ghost more: seq<T>) returns (currentHash: T)
      requires next == |leaves| && next % 2 == 0 && |more| == 2 && 0 < lvls && next + 2 <= Pow2(lvls)
      requires ZeroTable(compress, zero, zeroes, lvls + 1) && Usable(compress, zero, leaves, filledSubtree, 1, lvls)
      requires pairHash == NodeAt(compress, zero, leaves + more, 1, next / 2)
      modifies this`filledSubtree
      ensures currentHash == TreeRoot(compress, zero, leaves + more, lvls)
      ensures Usable(compress, zero, leaves + more, filledSubtree, 1, lvls)
    {
      currentHash := pairHash;
      var currentIndex := next / 2;
      ghost var h, new' := compress, leaves + more;
      for l := 1 to lvls
        invariant currentIndex == Ancestor(next, l)
        invariant currentHash == NodeAt(h, zero, new', l, currentIndex)
        invariant Usable(h, zero, new', filledSubtree, 1, l)
        invariant Usable(h, zero, leaves, filledSubtree, l, lvls)
      {
        AppendTwo(next, l);
        InsertLevel(h, zero, leaves, more, l);
        ghost var before := filledSubtree;
        if currentIndex % 2 == 1 {
          var left := filledSubtree[l];
          currentHash := compress(left, currentHash);
        } else {
          filledSubtree := filledSubtree[l := currentHash];
          currentHash := compress(currentHash, zeroes[l]);
        }
        LevelDone(h, zero, leaves, more, 1, l, lvls, before, filledSubtree);
        currentIndex := currentIndex / 2;
      }
      AncestorIsTop(next, lvls);
    }

    /** True exactly for the latest 90 roots, the initial one included, and never for 0. */
    method IsKnownRoot(r: T) returns (res: Outcome<bool, Error>)
      requires Valid()
      ensures r == zeroWord ==> res == Ok(false)
      ensures r != zeroWord && !Initialized() ==> res == Err(NotInitialized)
      ensures r != zeroWord && Initialized() ==>
        res == Ok(Recent(compress, zero, leaves, levels.value, r))
    {
      if r == zeroWord {
        return Ok(false);
      }
      if currentRootIndex.None? {
        return Err(NotInitialized);
      }
      var at := SlotOf(r);
      if at.Some? {
        var k := SlotIsRecent(|leaves| / 2, at.value);
        assert RootAfter(compress, zero, leaves, levels.value, k) == r;
      } else {
        MissedEverywhere(compress, zero, leaves, levels.value, roots, currentRootIndex.value, r);
      }
      res := Ok(at.Some?);
    }

    /** The loop over the ring, from the current slot once around. */
    method SlotOf(r: T) returns (at: Option<nat>)
      requires currentRootIndex.Some? && currentRootIndex.value < ROOT_HISTORY_SIZE
      ensures at.Some? ==> at.value in roots && roots[at.value] == r
      ensures at.None? ==>
        forall t :: 0 <= t < ROOT_HISTORY_SIZE ==> Misses(roots, Slot(currentRootIndex.value, t), r)
    {
      var current := currentRootIndex.value;
      var i := current;
      ghost var seen := 0;
      while true
        invariant 0 <= seen < ROOT_HISTORY_SIZE && i == Slot(current, seen)
        invariant forall t :: 0 <= t < seen ==> Misses(roots, Slot(current, t), r)
        decreases ROOT_HISTORY_SIZE - seen
      {
        if i in roots && roots[i] == r {
          return Some(i);
        }
        assert Misses(roots, Slot(current, seen), r);
        NextSlot(current, seen);
        i := (i + 1) % ROOT_HISTORY_SIZE;
        seen := seen + 1;
        if i == current {
          break;
        }
      }
      at := None;
    }

    method GetLastRoot() returns (res: Outcome<T, Error>)
      requires Valid()
      ensures !Initialized() ==> res == Err(NotInitialized)
      ensures Initialized() ==> res == Ok(TreeRoot(compress, zero, leaves, levels.value))
    {
      if currentRootIndex.None? {
        return Err(NotInitialized);
      }
      var n := |leaves| / 2;
      assert RecentAt(n, n) && leaves[..2 * n] == leaves;
      res := if currentRootIndex.value in roots then Ok(roots[currentRootIndex.value]) else Err(NotInitialized);
    }
  }

  ghost predicate Covers<T>(filled: map<nat, T>, n: nat) {
    forall l :: 0 <= l < n ==> l in filled
  }

  ghost predicate ZeroTable<T>(h: Compression<T>, zero: T, zeroes: map<nat, T>, n: nat) {
    forall l :: 0 <= l < n ==> l in zeroes && zeroes[l] == ZeroAt(h, zero, l)
  }

  lemma EmptyIsUsable<T>(h: Compression<T>, zero: T, filled: map<nat, T>, lo: nat, hi: nat)
    requires Covers(filled, hi)
    ensures Usable(h, zero, [], filled, lo, hi)
  {
    forall l | lo <= l < hi ensures Ancestor(0, l) == 0 { AncestorOfZero(l); }
  }

  lemma {:induction false} AncestorOfZero(l: nat)
    ensures Ancestor(0, l) == 0
  {
    if l > 0 { AncestorOfZero(l - 1); }
  }

  lemma AppendOne(n: nat, l: nat)
    ensures 1 <= Pow2(l) && Ancestor(n + 1 - 1, l) == Ancestor(n, l)
  {
  }

  lemma {:induction false} AppendTwo(n: nat, l: nat)
    requires n % 2 == 0 && l >= 1
    ensures 2 <= Pow2(l) && Ancestor(n + 2 - 1, l) == Ancestor(n, l)
  {
    if l > 1 { AppendTwo(n, l - 1); }
  }

  lemma PairHash<T>(h: Compression<T>, zero: T, leaves: seq<T>, a: T, b: T)
    requires |leaves| % 2 == 0
    ensures NodeAt(h, zero, leaves + [a, b], 1, |leaves| / 2) == h(a, b)
  {
    assert (leaves + [a, b])[|leaves|] == a && (leaves + [a, b])[|leaves| + 1] == b;
  }

  lemma IndicesFit(next: nat, levels: nat)
    requires levels <= MAX_LEVELS && next + 2 <= Pow2(levels)
    ensures U32(next) == next && U32(next + 1) == next + 1
  {
    PowerFits(levels);
  }

  /** Leaf counts of trees of up to 32 levels fit 32 bits with room for the count itself. */
  lemma PowerFits(levels: nat)
    requires levels <= MAX_LEVELS
    ensures Pow2(levels) <= 0x1_0000_0000
  {
    PowMono(levels, MAX_LEVELS);
    Pow2Of32();
  }

  lemma {:induction false} PowMono(a: nat, b: nat)
    requires a <= b
    ensures Pow2(a) <= Pow2(b)
    decreases b - a
  {
    if a < b { PowMono(a, b - 1); }
  }

  lemma Pow2Of32()
    ensures Pow2(32) == 0x1_0000_0000
  {
    assert Pow2(8) == 0x100;
    assert Pow2(16) == 0x1_0000;
    assert Pow2(24) == 0x100_0000;
  }

  // ----- the ring of roots

  function Slot(current: nat, t: nat): nat { (current + t) % ROOT_HISTORY_SIZE }

  predicate Misses<T(==)>(roots: map<nat, T>, i: nat, r: T) {
    i in roots ==> roots[i] != r
  }

  /** Every slot that has been written holds one of the latest roots. */
  lemma SlotIsRecent(n: nat, i: nat) returns (k: nat)
    requires i < ROOT_HISTORY_SIZE && i <= n
    ensures RecentAt(n, k) && k % ROOT_HISTORY_SIZE == i
  {
    k := n - (n - i) % ROOT_HISTORY_SIZE;
  }

  lemma NextSlot(current: nat, seen: nat)
    requires current < ROOT_HISTORY_SIZE && seen < ROOT_HISTORY_SIZE
    ensures (Slot(current, seen) + 1) % ROOT_HISTORY_SIZE == Slot(current, seen + 1)
    ensures Slot(current, seen + 1) == current <==> seen + 1 == ROOT_HISTORY_SIZE
  {
  }

  /** A value that no slot of the ring holds is not a recent root. */
  lemma MissedEverywhere<T>(h: Compression<T>, zero: T, leaves: seq<T>, levels: nat, roots: map<nat, T>,
                            current: nat, r: T)
    requires History(h, zero, leaves, levels, roots) && current < ROOT_HISTORY_SIZE
    requires forall t :: 0 <= t < ROOT_HISTORY_SIZE ==> Misses(roots, Slot(current, t), r)
    ensures !Recent(h, zero, leaves, levels, r)
  {
    forall k | RecentAt(|leaves| / 2, k)
      ensures RootAfter(h, zero, leaves, levels, k) != r
    {
      var t := SlotOffset(current, k % ROOT_HISTORY_SIZE);
      assert Misses(roots, Slot(current, t), r);
    }
  }

  /** Every slot is reached from the current one in fewer than 90 steps. */
  lemma SlotOffset(current: nat, i: nat) returns (t: nat)
    requires current < ROOT_HISTORY_SIZE && i < ROOT_HISTORY_SIZE
    ensures t < ROOT_HISTORY_SIZE && Slot(current, t) == i
  {
    t := if i >= current then i - current else i + ROOT_HISTORY_SIZE - current;
  }

  lemma InitialHistory<T>(h: Compression<T>, zero: T, levels: nat)
    ensures History(h, zero, [], levels, map[0 := ZeroAt(h, zero, levels)])
  {
    EmptyNode(h, zero, [], levels, 0);
    var empty: seq<T> := [];
    assert empty[..0] == empty;
  }

  lemma SlotKept(n: nat, k: nat)
    requires RecentAt(n + 1, k) && k != n + 1
    ensures RecentAt(n, k) && k % ROOT_HISTORY_SIZE != (n + 1) % ROOT_HISTORY_SIZE
  {
  }

  /** Writing the newest root overwrites only the one that is no longer recent. */
  lemma HistoryStep<T>(h: Compression<T>, zero: T, leaves: seq<T>, more: seq<T>, levels: nat, roots: map<nat, T>)
    requires |leaves| % 2 == 0 && |more| == 2
    requires History(h, zero, leaves, levels, roots)
    ensures var n := |leaves| / 2;
      (n % ROOT_HISTORY_SIZE + 1) % ROOT_HISTORY_SIZE == (n + 1) % ROOT_HISTORY_SIZE
      && History(h, zero, leaves + more, levels,
           roots[(n + 1) % ROOT_HISTORY_SIZE := TreeRoot(h, zero, leaves + more, levels)])
  {
    var n, new' := |leaves| / 2, leaves + more;
    var roots' := roots[(n + 1) % ROOT_HISTORY_SIZE := TreeRoot(h, zero, new', levels)];
    forall k | RecentAt(n + 1, k)
      ensures k % ROOT_HISTORY_SIZE in roots'
      ensures roots'[k % ROOT_HISTORY_SIZE] == RootAfter(h, zero, new', levels, k)
    {
      if k == n + 1 {
        assert new'[..2 * k] == new';
      } else {
        SlotKept(n, k);
        RootKept(h, zero, leaves, more, levels, k);
      }
    }
  }

  lemma RootKept<T>(h: Compression<T>, zero: T, leaves: seq<T>, more: seq<T>, levels: nat, k: nat)
    requires 2 * k <= |leaves|
    ensures RootAfter(h, zero, leaves + more, levels, k) == RootAfter(h, zero, leaves, levels, k)
  {
    assert (leaves + more)[..2 * k] == leaves[..2 * k];
  }

  // ----- the trees against each other and against the whole-tree root

  /** Both contracts' roots are `MerkleRoot` of their leaves padded with the zero leaf. */
  lemma IncrementalEqualsNaive<T>(asp: AspMembership<T>, pool: MerkleTreeWithHistory<T>)
    requires asp.Valid() && pool.Valid() && pool.Initialized()
    ensures asp.root == TreeRoot(asp.compress, asp.zeroes[0],
      CoreMerkle.PadTo(asp.zeroes[0], asp.leaves, asp.levels), asp.levels)
    ensures |pool.leaves| <= Pow2(pool.levels.value)
    ensures pool.currentRootIndex.value in pool.roots
    ensures pool.roots[pool.currentRootIndex.value] == TreeRoot(pool.compress, pool.zero,
      CoreMerkle.PadTo(pool.zero, pool.leaves, pool.levels.value), pool.levels.value)
  {
    CoreMerkle.PaddedRoot(asp.compress, asp.zeroes[0], asp.leaves, asp.levels);
    CoreMerkle.PaddedRoot(pool.compress, pool.zero, pool.leaves, pool.levels.value);
    var n := |pool.leaves| / 2;
    assert RecentAt(n, n) && pool.leaves[..2 * n] == pool.leaves;
  }

  /** Inserting in pairs and one by one gives the same root, and the same stored hash at
      every level above the leaves where either tree will read it. */
  lemma PairInsertionRefinesSingle<T>(asp: AspMembership<T>, pool: MerkleTreeWithHistory<T>)
    requires asp.Valid() && pool.Valid() && pool.Initialized()
    requires asp.compress == pool.compress && asp.zeroes[0] == pool.zero
    requires pool.levels == Some(asp.levels) && asp.leaves == pool.leaves
    ensures pool.currentRootIndex.value in pool.roots
    ensures pool.roots[pool.currentRootIndex.value] == asp.root
    ensures forall l :: 1 <= l < asp.levels && Ancestor(|asp.leaves|, l) % 2 == 1 ==>
      l in pool.filledSubtree && l in asp.filledSubtrees && pool.filledSubtree[l] == asp.filledSubtrees[l]
  {
    var n := |pool.leaves| / 2;
    assert RecentAt(n, n) && pool.leaves[..2 * n] == pool.leaves;
  }

  /** A path of full length that opens a known root at index i opens it to the leaf that
      was at i when the root was current, or exhibits a collision. */
  lemma KnownRootBinds<T>(h: Compression<T>, zero: T, leaves: seq<T>, levels: nat, k: nat,
                          value: T, path: seq<T>, i: nat)
    requires 2 * k <= |leaves| && |path| == levels && i < Pow2(levels)
    requires FoldPath(h, value, path, i) == RootAfter(h, zero, leaves, levels, k)
    ensures value == Padded(zero, leaves[..2 * k], i)
         || IsCollision(h, Collision(h, zero, leaves[..2 * k], value, path, 0, i))
  {
    AncestorIsTop(i, levels);
    OpeningBinds(h, zero, leaves[..2 * k], value, path, 0, i);
  }

  /** With an injective compression every recent root binds its leaves. */
  lemma KnownRootsBind<T(!new)>(tree: MerkleTreeWithHistory<T>, r: T, value: T, path: seq<T>, i: nat)
    requires tree.Valid() && tree.Initialized() && Injective(tree.compress)
    requires Recent(tree.compress, tree.zero, tree.leaves, tree.levels.value, r)
    requires |path| == tree.levels.value && i < Pow2(tree.levels.value)
    requires FoldPath(tree.compress, value, path, i) == r
    ensures forall k ::
      (RecentAt(|tree.leaves| / 2, k)
        && RootAfter(tree.compress, tree.zero, tree.leaves, tree.levels.value, k) == r)
      ==> value == Padded(tree.zero, tree.leaves[..2 * k], i)
  {
    forall k | RecentAt(|tree.leaves| / 2, k)
      && RootAfter(tree.compress, tree.zero, tree.leaves, tree.levels.value, k) == r
      ensures value == Padded(tree.zero, tree.leaves[..2 * k], i)
    {
      KnownRootBinds(tree.compress, tree.zero, tree.leaves, tree.levels.value, k, value, path, i);
    }
  }
}
