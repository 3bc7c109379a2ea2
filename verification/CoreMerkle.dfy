/** The whole-tree Merkle root and proof of the circuits crate. */
module CoreMerkle {
  import opened Bits
  import opened MerkleSpec

  /** The integer logarithm of a positive number. */
  function Log2(n: nat): nat
    requires n > 0
  {
    if n < 2 then 0 else 1 + Log2(n / 2)
  }

  predicate PowerOfTwo(n: nat) { n > 0 && Pow2(Log2(n)) == n }

  lemma {:induction false} Log2Pow2(k: nat)
    ensures Log2(Pow2(k)) == k && PowerOfTwo(Pow2(k))
  {
    if k > 0 { Log2Pow2(k - 1); }
  }

  /** Bitwise or. */
  function Or(a: nat, b: nat): nat
    decreases a + b
  {
    if a == 0 && b == 0 then 0
    else (if a % 2 == 1 || b % 2 == 1 then 1 else 0) + 2 * Or(a / 2, b / 2)
  }

  lemma {:induction false} OrZero(a: nat)
    ensures Or(a, 0) == a
  {
    if a > 0 { OrZero(a / 2); }
  }

  lemma {:induction false} OrZeroLeft(b: nat)
    ensures Or(0, b) == b
  {
    if b > 0 { OrZeroLeft(b / 2); }
  }

  /** Or-ing in a bit above all set ones adds it. */
  lemma {:induction false} OrAbove(a: nat, bit: nat, i: nat)
    requires a < Pow2(i) && bit <= 1
    ensures Or(a, bit * Pow2(i)) == a + bit * Pow2(i)
  {
    if bit == 0 {
      OrZero(a);
    } else if i == 0 {
      OrZeroLeft(1);
    } else {
      assert Pow2(i) / 2 == Pow2(i - 1) && Pow2(i) % 2 == 0;
      OrAbove(a / 2, 1, i - 1);
    }
  }

  ghost predicate IsLevel<T>(h: Compression<T>, zero: T, leaves: seq<T>, lvl: nat, level: seq<T>) {
    forall i :: 0 <= i < |level| ==> level[i] == NodeAt(h, zero, leaves, lvl, i)
  }

  /** One level of hashing: chunks of two, in order. */
  method HashPairs<T>(h: Compression<T>, level: seq<T>, ghost zero: T, ghost leaves: seq<T>, ghost lvl: nat)
    returns (next: seq<T>)
    requires IsLevel(h, zero, leaves, lvl, level)
    ensures |next| == |level| / 2
    ensures IsLevel(h, zero, leaves, lvl + 1, next)
  {
    next := [];
    for i := 0 to |level| / 2
      invariant |next| == i
      invariant IsLevel(h, zero, leaves, lvl + 1, next)
    {
      next := next + [h(level[2 * i], level[2 * i + 1])];
    }
  }

  method MerkleRoot<T>(h: Compression<T>, leaves: seq<T>, ghost zero: T) returns (root: T)
    requires PowerOfTwo(|leaves|)
    ensures root == TreeRoot(h, zero, leaves, Log2(|leaves|))
  {
    var level := leaves;
    ghost var n, lvl := Log2(|leaves|), 0;
    while |level| > 1
      invariant lvl <= n && |level| == Pow2(n - lvl)
      invariant IsLevel(h, zero, leaves, lvl, level)
    {
      var next := HashPairs(h, level, zero, leaves, lvl);
      lvl := lvl + 1;
      level := next;
    }
    root := level[0];
  }

  lemma SiblingInRange(i: nat, half: nat)
    requires i < 2 * half
    ensures SiblingIndex(i) < 2 * half && i / 2 < half
  {
  }

  ghost predicate BitsOfIndex(bits: seq<nat>, index: nat) {
    forall j :: 0 <= j < |bits| ==> bits[j] == Ancestor(index, j) % 2
  }

  method MerkleProof<T>(h: Compression<T>, leaves: seq<T>, index: nat, ghost zero: T)
    returns (path: seq<T>, pathIndices: nat, levels: nat)
    requires PowerOfTwo(|leaves|)
    requires |leaves| == 1 || index < |leaves|
    ensures levels == Log2(|leaves|)
    ensures path == Path(h, zero, leaves, 0, index, levels)
    ensures pathIndices == if index < |leaves| then index else 0
  {
    var level := leaves;
    levels := Log2(|leaves|);
    path := [];
    var bits: seq<nat> := [];
    var i := index;
    for l := 0 to levels
      invariant |level| == Pow2(levels - l) && IsLevel(h, zero, leaves, l, level)
      invariant i == Ancestor(index, l) && (index < |leaves| ==> i < |level|)
      invariant path == Path(h, zero, leaves, 0, index, levels)[..l]
      invariant |bits| == l && BitsOfIndex(bits, index)
    {
      SiblingInRange(i, Pow2(levels - l - 1));
      var sibIndex := if i % 2 == 0 then i + 1 else i - 1;
      PathNext(h, zero, leaves, index, levels, l);
      path := path + [level[sibIndex]];
      bits := bits + [i % 2];
      level := HashPairs(h, level, zero, leaves, l);
      i := i / 2;
    }
    assert path == Path(h, zero, leaves, 0, index, levels);
    pathIndices := PackBits(bits, index);
    if index < |leaves| {
      AllBitsPacked(index, levels);
    }
  }

  lemma PackStep(packed: nat, p: nat, a: nat)
    requires packed < p
    ensures packed + p * a == packed + (a % 2) * p + (2 * p) * (a / 2)
    ensures packed + (a % 2) * p < 2 * p
  {
    assert a == 2 * (a / 2) + a % 2;
    calc {
      p * a;
      p * (2 * (a / 2) + a % 2);
      p * (2 * (a / 2)) + p * (a % 2);
      (2 * p) * (a / 2) + (a % 2) * p;
    }
  }

  /** The number made of the first i bits of index. */
  function LowBits(index: nat, i: nat): nat {
    if i == 0 then 0
    else LowBits(index, i - 1) + (if Ancestor(index, i - 1) % 2 == 1 then Pow2(i - 1) else 0)
  }

  /** The low bits and the rest make up the index. */
  lemma {:induction false} LowBitsSplit(index: nat, i: nat)
    ensures LowBits(index, i) < Pow2(i)
    ensures LowBits(index, i) + Pow2(i) * Ancestor(index, i) == index
  {
    if i > 0 {
      LowBitsSplit(index, i - 1);
      PackStep(LowBits(index, i - 1), Pow2(i - 1), Ancestor(index, i - 1));
    }
  }

  /** Or-ing the next bit into its place. */
  lemma PackBit(index: nat, i: nat)
    ensures Or(LowBits(index, i), (Ancestor(index, i) % 2) * Pow2(i)) == LowBits(index, i + 1)
    ensures Ancestor(index, i) % 2 == 1 ==> Or(LowBits(index, i), Pow2(i)) == LowBits(index, i + 1)
  {
    LowBitsSplit(index, i);
    OrAbove(LowBits(index, i), Ancestor(index, i) % 2, i);
  }

  lemma AllBitsPacked(index: nat, levels: nat)
    requires index < Pow2(levels)
    ensures LowBits(index, levels) == index
  {
    LowBitsSplit(index, levels);
    AncestorIsTop(index, levels);
  }

  /** Or-ing each bit into its place gives the low bits of the number. */
  method PackBits(bits: seq<nat>, ghost index: nat) returns (packed: nat)
    requires BitsOfIndex(bits, index)
    ensures packed == LowBits(index, |bits|)
  {
    packed := 0;
    for i := 0 to |bits|
      invariant packed == LowBits(index, i)
    {
      PackBit(index, i);
      packed := Or(packed, bits[i] * Pow2(i));
    }
  }

  /** The verifier: hash up the path, taking each level's side from the packed bits. */
  method FoldProof<T>(h: Compression<T>, leaf: T, path: seq<T>, indices: nat) returns (root: T)
    ensures root == FoldPath(h, leaf, path, indices)
  {
    root := leaf;
    var shifted := indices;
    for level := 0 to |path|
      invariant shifted == Ancestor(indices, level)
      invariant FoldPath(h, root, path[level..], shifted) == FoldPath(h, leaf, path, indices)
    {
      assert path[level..][1..] == path[level + 1..];
      root := if shifted % 2 == 1 then h(path[level], root) else h(root, path[level]);
      shifted := shifted / 2;
    }
  }

  /** Every proof verifies: the path of any leaf folds from it to the root. */
  lemma ProofVerifies<T>(h: Compression<T>, zero: T, leaves: seq<T>, index: nat)
    requires PowerOfTwo(|leaves|) && index < |leaves|
    ensures FoldPath(h, leaves[index], Path(h, zero, leaves, 0, index, Log2(|leaves|)), index)
         == TreeRoot(h, zero, leaves, Log2(|leaves|))
  {
    PathFolds(h, zero, leaves, 0, index, Log2(|leaves|));
    AncestorIsTop(index, Log2(|leaves|));
  }

  /** And nothing else does: a path of full length that folds to the root from another
      value exhibits a collision. */
  lemma ProofBinds<T>(h: Compression<T>, zero: T, leaves: seq<T>, index: nat, value: T, path: seq<T>)
    requires PowerOfTwo(|leaves|) && index < |leaves| && |path| == Log2(|leaves|)
    requires FoldPath(h, value, path, index) == TreeRoot(h, zero, leaves, Log2(|leaves|))
    ensures value == leaves[index] || IsCollision(h, Collision(h, zero, leaves, value, path, 0, index))
  {
    AncestorIsTop(index, Log2(|leaves|));
    OpeningBinds(h, zero, leaves, value, path, 0, index);
  }

  /** The leaf list padded with zero leaves to a full tree. */
  function PadTo<T>(zero: T, leaves: seq<T>, levels: nat): (full: seq<T>)
    requires |leaves| <= Pow2(levels)
    ensures |full| == Pow2(levels)
  {
    leaves + seq(Pow2(levels) - |leaves|, _ => zero)
  }

  /** Padding explicitly or by default gives one tree, and `MerkleRoot` computes it. */
  lemma PaddedRoot<T>(h: Compression<T>, zero: T, leaves: seq<T>, levels: nat)
    requires |leaves| <= Pow2(levels)
    ensures var full := PadTo(zero, leaves, levels);
      PowerOfTwo(|full|) && Log2(|full|) == levels
      && TreeRoot(h, zero, full, levels) == TreeRoot(h, zero, leaves, levels)
  {
    Log2Pow2(levels);
    NodeDepends(h, zero, PadTo(zero, leaves, levels), leaves, levels, 0);
  }
}
