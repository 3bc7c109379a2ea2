/** The client's Merkle tree, which keeps every hash of every level. */
module ClientTree {
  import opened Common
  import opened Bits
  import opened MerkleSpec
  import opened CoreMerkle

  const MAX_DEPTH: nat := 32

  datatype Proof<T> = Proof(path: seq<T>, pathIndices: nat, root: T, levels: nat)

  class MerkleTree<T> {
    const compress: Compression<T>
    const zero: T
    const depth: nat
    var levelsData: seq<seq<T>>
    var nextIndex: nat
    ghost var leaves: seq<T>

    ghost predicate Valid()
      reads this
    {
      && 0 < depth <= MAX_DEPTH
      && nextIndex == |leaves| <= Pow2(depth)
      && IsTree(compress, zero, depth, levelsData, leaves, 0, leaves)
    }

    constructor (compress: Compression<T>, depth: nat, zero: T)
      requires 0 < depth <= MAX_DEPTH
      ensures Valid() && leaves == []
      ensures this.compress == compress && this.depth == depth && this.zero == zero
    {
      this.compress := compress;
      this.depth := depth;
      this.zero := zero;
      nextIndex := 0;
      leaves := [];
      levelsData := [];
      new;
      var hash := zero;
      levelsData := [seq(Pow2(depth), _ => zero)];
      for l := 0 to depth
        invariant |levelsData| == l + 1 && hash == ZeroAt(compress, zero, l)
        invariant forall m :: 0 <= m <= l ==>
          |levelsData[m]| == Pow2(depth - m) && IsLevel(compress, zero, [], m, levelsData[m])
        invariant leaves == [] && nextIndex == 0
      {
        hash := compress(hash, hash);
        var level := seq(Pow2(depth - l - 1), _ => hash);
        EmptyLevel(compress, zero, l + 1, level);
        levelsData := levelsData + [level];
      }
    }

    /** The error cases of building a tree; wordBits is the width of the platform's indices. */
    static method BuildTree(compress: Compression<T>, depth: nat, zero: T, wordBits: nat)
      returns (res: Result<MerkleTree<T>, string>)
      ensures res.Failure? <==> !(1 <= depth <= 32) || depth >= wordBits
      ensures res.Success? ==>
        && fresh(res.value) && res.value.Valid() && res.value.leaves == []
        && res.value.compress == compress && res.value.depth == depth && res.value.zero == zero
    {
      if depth == 0 || depth > MAX_DEPTH {
        return Failure("Depth must be between 1 and 32");
      }
      if depth >= wordBits {
        return Failure("Depth too large for this platform, would overflow");
      }
      var tree := new MerkleTree(compress, depth, zero);
      res := Success(tree);
    }

    method Root() returns (r: T)
      requires Valid()
      ensures r == TreeRoot(compress, zero, leaves, depth)
    {
      assert IsLevel(compress, zero, leaves, depth, levelsData[depth]);
      r := levelsData[depth][0];
    }

    method Insert(leaf: T) returns (res: Result<nat, string>)
      requires Valid()
      modifies this
      ensures Valid()
      ensures res.Failure? <==> |old(leaves)| == Pow2(depth)
      ensures res.Success? ==> res.value == |old(leaves)|
      ensures leaves == if res.Success? then old(leaves) + [leaf] else old(leaves)
    {
      var index := nextIndex;
      if index >= Pow2(depth) {
        return Failure("Merkle tree is full");
      }
      TreeUpdate(compress, zero, depth, levelsData, leaves, leaf, 0);
      levelsData := levelsData[0 := levelsData[0][index := leaf]];
      RehashPath(index, leaf);
      nextIndex := nextIndex + 1;
      leaves := leaves + [leaf];
      res := Success(index);
    }

    /** Rehashes the path from a leaf just written up to the root. */
    method RehashPath(index: nat, leaf: T)
      requires index == |leaves| < Pow2(depth)
      requires IsTree(compress, zero, depth, levelsData, leaves + [leaf], 1, leaves)
      modifies this`levelsData
      ensures IsTree(compress, zero, depth, levelsData, leaves + [leaf], depth + 1, leaves)
    {
      ghost var h, new' := compress, leaves + [leaf];
      var currentIndex, currentHash := index, leaf;
      for level := 0 to depth
        invariant currentIndex == Ancestor(index, level) < Pow2(depth - level)
        invariant currentHash == NodeAt(h, zero, new', level, currentIndex)
        invariant IsTree(h, zero, depth, levelsData, new', level + 1, leaves)
      {
        SiblingHash(h, zero, depth, levelsData, new', level + 1, leaves, level, currentIndex);
        var sibling := levelsData[level][SiblingIndex(currentIndex)];
        currentHash := if currentIndex % 2 == 0 then compress(currentHash, sibling)
                       else compress(sibling, currentHash);
        currentIndex := currentIndex / 2;
        AncestorInRange(index, depth, level + 1);
        TreeUpdate(h, zero, depth, levelsData, leaves, leaf, level + 1);
        levelsData := levelsData[level + 1 := levelsData[level + 1][currentIndex := currentHash]];
      }
    }

    /** The proof of any position, inserted or not. */
    method GetProof(index: nat) returns (res: Result<Proof<T>, string>)
      requires Valid()
      ensures res.Failure? <==> index >= Pow2(depth)
      ensures res.Success? ==>
        res.value == Proof(Path(compress, zero, leaves, 0, index, depth), index,
                           TreeRoot(compress, zero, leaves, depth), depth)
    {
      if index >= Pow2(depth) {
        return Failure("Index out of bounds");
      }
      var path, packed := ReadPath(index);
      var root := Root();
      res := Success(Proof(path, packed, root, depth));
    }

    /** The siblings from a position up to the root, and the packed sides. */
    method ReadPath(index: nat) returns (path: seq<T>, packed: nat)
      requires IsTree(compress, zero, depth, levelsData, leaves, depth + 1, leaves) && index < Pow2(depth)
      ensures path == Path(compress, zero, leaves, 0, index, depth) && packed == index
    {
      path, packed := [], 0;
      var currentIndex := index;
      for level := 0 to depth
        invariant currentIndex == Ancestor(index, level) < Pow2(depth - level)
        invariant path == Path(compress, zero, leaves, 0, index, depth)[..level]
        invariant packed == LowBits(index, level)
      {
        SiblingStored(compress, zero, depth, levelsData, leaves, level, currentIndex);
        PathNext(compress, zero, leaves, index, depth, level);
        path := path + [levelsData[level][SiblingIndex(currentIndex)]];
        PackBit(index, level);
        if currentIndex % 2 != 0 {
          packed := Or(packed, Pow2(level));
        }
        currentIndex := currentIndex / 2;
      }
      assert path == Path(compress, zero, leaves, 0, index, depth);
      AllBitsPacked(index, depth);
    }
  }

  /** Levels below n hold the hashes of the new leaves, the others those of the old. */
  ghost predicate IsTree<T>(h: Compression<T>, zero: T, depth: nat, data: seq<seq<T>>,
                            new': seq<T>, n: nat, old': seq<T>) {
    && |data| == depth + 1
    && forall l :: 0 <= l <= depth ==>
         |data[l]| == Pow2(depth - l) && IsLevel(h, zero, if l < n then new' else old', l, data[l])
  }

  lemma EmptyLevel<T>(h: Compression<T>, zero: T, l: nat, level: seq<T>)
    requires forall i :: 0 <= i < |level| ==> level[i] == ZeroAt(h, zero, l)
    ensures IsLevel(h, zero, [], l, level)
  {
    forall i | 0 <= i < |level| ensures level[i] == NodeAt(h, zero, [], l, i) {
      EmptyNode(h, zero, [], l, i);
    }
  }

  /** Every position below the root has a stored sibling. */
  lemma SiblingHash<T>(h: Compression<T>, zero: T, depth: nat, data: seq<seq<T>>, new': seq<T>, n: nat,
                       old': seq<T>, level: nat, i: nat)
    requires IsTree(h, zero, depth, data, new', n, old') && level < n && level < depth
    requires i < Pow2(depth - level)
    ensures SiblingIndex(i) < |data[level]| && i / 2 < |data[level + 1]| == Pow2(depth - level - 1)
    ensures data[level][SiblingIndex(i)] == NodeAt(h, zero, new', level, SiblingIndex(i))
    ensures NodeAt(h, zero, new', level + 1, i / 2) ==
      (if i % 2 == 0 then h(NodeAt(h, zero, new', level, i), data[level][SiblingIndex(i)])
       else h(data[level][SiblingIndex(i)], NodeAt(h, zero, new', level, i)))
  {
    SiblingInRange(i, Pow2(depth - level - 1));
    assert IsLevel(h, zero, new', level, data[level]);
  }

  lemma SiblingStored<T>(h: Compression<T>, zero: T, depth: nat, data: seq<seq<T>>, leaves: seq<T>, level: nat, i: nat)
    requires IsTree(h, zero, depth, data, leaves, depth + 1, leaves) && level < depth && i < Pow2(depth - level)
    ensures SiblingIndex(i) < |data[level]| && i / 2 < Pow2(depth - level - 1)
    ensures data[level][SiblingIndex(i)] == NodeAt(h, zero, leaves, level, SiblingIndex(i))
  {
    SiblingHash(h, zero, depth, data, leaves, depth + 1, leaves, level, i);
  }

  lemma {:induction false} AncestorInRange(i: nat, depth: nat, l: nat)
    requires i < Pow2(depth) && l <= depth
    ensures Ancestor(i, l) < Pow2(depth - l)
  {
    if l > 0 { AncestorInRange(i, depth, l - 1); }
  }

  /** Rewriting the ancestor's hash moves level l from the old leaves to the new. */
  lemma TreeUpdate<T>(h: Compression<T>, zero: T, depth: nat, data: seq<seq<T>>, leaves: seq<T>, leaf: T, l: nat)
    requires l <= depth && IsTree(h, zero, depth, data, leaves + [leaf], l, leaves)
    requires Ancestor(|leaves|, l) < Pow2(depth - l)
    ensures var i := Ancestor(|leaves|, l);
      i < |data[l]| &&
      IsTree(h, zero, depth, data[l := data[l][i := NodeAt(h, zero, leaves + [leaf], l, i)]],
             leaves + [leaf], l + 1, leaves)
  {
    assert IsLevel(h, zero, leaves, l, data[l]);
    LevelUpdate(h, zero, leaves, leaf, l, data[l]);
  }

  /** Appending a leaf changes one hash of a level: that of the leaf's ancestor. */
  lemma LevelUpdate<T>(h: Compression<T>, zero: T, leaves: seq<T>, leaf: T, l: nat, level: seq<T>)
    requires IsLevel(h, zero, leaves, l, level)
    requires Ancestor(|leaves|, l) < |level|
    ensures var i := Ancestor(|leaves|, l);
      IsLevel(h, zero, leaves + [leaf], l, level[i := NodeAt(h, zero, leaves + [leaf], l, i)])
  {
    var i := Ancestor(|leaves|, l);
    forall j | 0 <= j < |level| && j != i
      ensures level[j] == NodeAt(h, zero, leaves + [leaf], l, j)
    {
      AncestorRange(|leaves|, l);
      if j < i { MulMono(j + 1, i, Pow2(l)); } else { MulMono(i + 1, j, Pow2(l)); }
      NodeDepends(h, zero, leaves, leaves + [leaf], l, j);
    }
  }
}
