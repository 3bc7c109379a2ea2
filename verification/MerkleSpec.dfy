/** Fixed-depth binary Merkle trees over a leaf list padded with a zero leaf, for any
    two-argument compression function. */
module MerkleSpec {
  import opened Bits

  type Compression<!T> = (T, T) -> T

  function Padded<T>(zero: T, leaves: seq<T>, i: nat): T {
    if i < |leaves| then leaves[i] else zero
  }

  /** The hash at position idx of level lvl; level 0 holds the leaves. */
  function NodeAt<T>(h: Compression<T>, zero: T, leaves: seq<T>, lvl: nat, idx: nat): T {
    if lvl == 0 then Padded(zero, leaves, idx)
    else h(NodeAt(h, zero, leaves, lvl - 1, 2 * idx), NodeAt(h, zero, leaves, lvl - 1, 2 * idx + 1))
  }

  /** The root of the tree with 2^levels leaves. */
  function TreeRoot<T>(h: Compression<T>, zero: T, leaves: seq<T>, levels: nat): T {
    NodeAt(h, zero, leaves, levels, 0)
  }

  /** The first n of the leaves, and those after them, as far as there are any. */
  function LeftOf<T>(leaves: seq<T>, n: nat): seq<T> { if n < |leaves| then leaves[..n] else leaves }

  function RightOf<T>(leaves: seq<T>, n: nat): seq<T> { if n < |leaves| then leaves[n..] else [] }

  /** The hash of an empty subtree. */
  function ZeroAt<T>(h: Compression<T>, zero: T, lvl: nat): T {
    if lvl == 0 then zero else h(ZeroAt(h, zero, lvl - 1), ZeroAt(h, zero, lvl - 1))
  }

  /** The table of empty-subtree hashes the contracts start from. */
  ghost predicate ZeroChain<T>(h: Compression<T>, zeros: seq<T>) {
    |zeros| > 0 && forall i :: 0 <= i < |zeros| ==> zeros[i] == ZeroAt(h, zeros[0], i)
  }

  /** The position of leaf i's ancestor at level lvl. */
  function Ancestor(i: nat, lvl: nat): nat {
    if lvl == 0 then i else Ancestor(i, lvl - 1) / 2
  }

  function SiblingIndex(i: nat): nat {
    if i % 2 == 0 then i + 1 else i - 1
  }

  // ----- positions

  lemma {:induction false} AncestorRange(i: nat, lvl: nat)
    ensures Ancestor(i, lvl) * Pow2(lvl) <= i < (Ancestor(i, lvl) + 1) * Pow2(lvl)
  {
    if lvl > 0 {
      AncestorRange(i, lvl - 1);
      HalfRange(Ancestor(i, lvl - 1), Pow2(lvl - 1), i);
    }
  }

  lemma HalfRange(a: nat, p: nat, i: nat)
    requires a * p <= i < (a + 1) * p
    ensures (a / 2) * (2 * p) <= i < (a / 2 + 1) * (2 * p)
  {
    var q := a / 2;
    DoubleMul(q, p);
    DoubleMul(q + 1, p);
    MulMono(2 * q, a, p);
    MulMono(a + 1, 2 * (q + 1), p);
  }

  lemma DoubleMul(q: nat, p: nat)
    ensures q * (2 * p) == (2 * q) * p
  {
  }

  lemma MulMono(a: nat, b: nat, p: nat)
    requires a <= b
    ensures a * p <= b * p
  {
  }

  lemma AncestorIsTop(i: nat, levels: nat)
    requires i < Pow2(levels)
    ensures Ancestor(i, levels) == 0
  {
    AncestorRange(i, levels);
    var a := Ancestor(i, levels);
    if a >= 1 { MulMono(1, a, Pow2(levels)); }
  }

  lemma {:induction false} AncestorHalf(i: nat, lvl: nat)
    ensures Ancestor(i, lvl + 1) == Ancestor(i / 2, lvl)
  {
    if lvl > 0 { AncestorHalf(i, lvl - 1); }
  }

  /** The next leaf has the same ancestor, or the one after it if the level's subtree
      is then full. */
  lemma {:induction false} AncestorNext(n: nat, lvl: nat)
    ensures Ancestor(n + 1, lvl) == Ancestor(n, lvl) || Ancestor(n + 1, lvl) == Ancestor(n, lvl) + 1
  {
    if lvl > 0 { AncestorNext(n, lvl - 1); }
  }

  // ----- what a node depends on

  /** A node is determined by the leaves below it. */
  lemma {:induction false} NodeDepends<T>(h: Compression<T>, zero: T, a: seq<T>, b: seq<T>, lvl: nat, idx: nat)
    requires forall i :: idx * Pow2(lvl) <= i < (idx + 1) * Pow2(lvl) ==> Padded(zero, a, i) == Padded(zero, b, i)
    ensures NodeAt(h, zero, a, lvl, idx) == NodeAt(h, zero, b, lvl, idx)
  {
    if lvl == 0 {
      assert Padded(zero, a, idx) == Padded(zero, b, idx);
    } else {
      var p := Pow2(lvl - 1);
      DoubleMul(idx, p);
      DoubleMul(idx + 1, p);
      MulMono(2 * idx, 2 * idx + 1, p);
      MulMono(2 * idx + 1, 2 * idx + 2, p);
      NodeDepends(h, zero, a, b, lvl - 1, 2 * idx);
      NodeDepends(h, zero, a, b, lvl - 1, 2 * idx + 1);
    }
  }

  /** A subtree beyond the last leaf is empty. */
  /** Read top down: the root of the zero tree is its leaf or the zero leaf, and that of a larger
      one is the compression of the roots of its left and right halves, in this order. */
  lemma RootOfHalves<T>(h: Compression<T>, zero: T, leaves: seq<T>, levels: nat)
    ensures TreeRoot(h, zero, leaves, 0) == if leaves == [] then zero else leaves[0]
    ensures TreeRoot(h, zero, leaves, levels + 1) ==
      var half := Pow2(levels);
      h(TreeRoot(h, zero, LeftOf(leaves, half), levels), TreeRoot(h, zero, RightOf(leaves, half), levels))
  {
    LeftHalf(h, zero, leaves, levels, 0, levels);
    RightHalf(h, zero, leaves, levels, 0, levels);
  }

  lemma {:induction false} LeftHalf<T>(h: Compression<T>, zero: T, leaves: seq<T>, lvl: nat, idx: nat, n: nat)
    requires lvl <= n && idx < Pow2(n - lvl)
    ensures NodeAt(h, zero, LeftOf(leaves, Pow2(n)), lvl, idx) == NodeAt(h, zero, leaves, lvl, idx)
    decreases lvl
  {
    if lvl > 0 {
      LeftHalf(h, zero, leaves, lvl - 1, 2 * idx, n);
      LeftHalf(h, zero, leaves, lvl - 1, 2 * idx + 1, n);
    }
  }

  lemma {:induction false} RightHalf<T>(h: Compression<T>, zero: T, leaves: seq<T>, lvl: nat, idx: nat, n: nat)
    requires lvl <= n
    ensures NodeAt(h, zero, RightOf(leaves, Pow2(n)), lvl, idx) == NodeAt(h, zero, leaves, lvl, idx + Pow2(n - lvl))
    decreases lvl
  {
    if lvl > 0 {
      RightHalf(h, zero, leaves, lvl - 1, 2 * idx, n);
      RightHalf(h, zero, leaves, lvl - 1, 2 * idx + 1, n);
    }
  }

  lemma {:induction false} EmptyNode<T>(h: Compression<T>, zero: T, leaves: seq<T>, lvl: nat, idx: nat)
    requires |leaves| <= idx * Pow2(lvl)
    ensures NodeAt(h, zero, leaves, lvl, idx) == ZeroAt(h, zero, lvl)
  {
    if lvl > 0 {
      var p := Pow2(lvl - 1);
      DoubleMul(idx, p);
      MulMono(2 * idx, 2 * idx + 1, p);
      EmptyNode(h, zero, leaves, lvl - 1, 2 * idx);
      EmptyNode(h, zero, leaves, lvl - 1, 2 * idx + 1);
    }
  }

  /** Appending leaves does not touch subtrees left of the old end. */
  lemma FullNode<T>(h: Compression<T>, zero: T, leaves: seq<T>, more: seq<T>, lvl: nat, idx: nat)
    requires (idx + 1) * Pow2(lvl) <= |leaves|
    ensures NodeAt(h, zero, leaves + more, lvl, idx) == NodeAt(h, zero, leaves, lvl, idx)
  {
    NodeDepends(h, zero, leaves, leaves + more, lvl, idx);
  }

  // ----- incremental insertion

  /** What an incremental tree remembers of a level is usable: if the next leaf's path
      goes right there, the stored hash is that of the left neighbour. */
  ghost predicate UsableAt<T>(h: Compression<T>, zero: T, leaves: seq<T>, stored: T, l: nat) {
    var i := Ancestor(|leaves|, l);
    i % 2 == 1 ==> stored == NodeAt(h, zero, leaves, l, i - 1)
  }

  ghost predicate Usable<T>(h: Compression<T>, zero: T, leaves: seq<T>, filled: map<nat, T>, lo: nat, hi: nat) {
    forall l :: lo <= l < hi ==> l in filled && UsableAt(h, zero, leaves, filled[l], l)
  }

  /** One level of an insertion. `current` is the hash above the last of the new leaves
      at level l; the old leaf count n is below the same node. */
  lemma InsertLevel<T>(h: Compression<T>, zero: T, leaves: seq<T>, more: seq<T>, l: nat)
    requires 0 < |more| <= Pow2(l) && Ancestor(|leaves| + |more| - 1, l) == Ancestor(|leaves|, l)
    ensures var n, new' := |leaves|, leaves + more;
      var i := Ancestor(n, l);
      && NodeAt(h, zero, new', l + 1, Ancestor(n, l + 1)) ==
           (if i % 2 == 1 then h(NodeAt(h, zero, leaves, l, i - 1), NodeAt(h, zero, new', l, i))
            else h(NodeAt(h, zero, new', l, i), ZeroAt(h, zero, l)))
  {
    var n, new' := |leaves|, leaves + more;
    var i := Ancestor(n, l);
    AncestorRange(n, l);
    AncestorRange(n + |more| - 1, l);
    if i % 2 == 1 {
      FullNode(h, zero, leaves, more, l, i - 1);
    } else {
      EmptyNode(h, zero, new', l, i + 1);
    }
  }

  /** After appending, the stored hash of a level is again usable if it was kept where
      the path went right and replaced by the path's hash where it went left. */
  lemma StaysUsable<T>(h: Compression<T>, zero: T, leaves: seq<T>, more: seq<T>, l: nat, stored: T)
    requires 0 < |more| && Ancestor(|leaves| + |more| - 1, l) == Ancestor(|leaves|, l)
    requires var i := Ancestor(|leaves|, l);
      if i % 2 == 1 then UsableAt(h, zero, leaves, stored, l)
      else stored == NodeAt(h, zero, leaves + more, l, i)
    ensures UsableAt(h, zero, leaves + more, stored, l)
  {
    AncestorNext(|leaves| + |more| - 1, l);
    AncestorRange(|leaves|, l);
    var i := Ancestor(|leaves|, l);
    if i % 2 == 1 {
      FullNode(h, zero, leaves, more, l, i - 1);
    }
  }

  /** The level just processed moves from the usable hashes of the old leaves to those of
      the new ones; no other level changes. */
  lemma LevelDone<T>(h: Compression<T>, zero: T, leaves: seq<T>, more: seq<T>, lo: nat, l: nat, hi: nat,
                     before: map<nat, T>, after: map<nat, T>)
    requires lo <= l < hi && 0 < |more| && Ancestor(|leaves| + |more| - 1, l) == Ancestor(|leaves|, l)
    requires Usable(h, zero, leaves + more, before, lo, l) && Usable(h, zero, leaves, before, l, hi)
    requires var i := Ancestor(|leaves|, l);
      after == if i % 2 == 1 then before else before[l := NodeAt(h, zero, leaves + more, l, i)]
    ensures Usable(h, zero, leaves + more, after, lo, l + 1) && Usable(h, zero, leaves, after, l + 1, hi)
  {
    forall m | lo <= m < l + 1
      ensures m in after && UsableAt(h, zero, leaves + more, after[m], m)
    {
      if m == l {
        assert UsableAt(h, zero, leaves, before[l], l);
        StaysUsable(h, zero, leaves, more, l, after[l]);
      } else {
        assert after[m] == before[m];
      }
    }
    forall m | l + 1 <= m < hi
      ensures m in after && UsableAt(h, zero, leaves, after[m], m)
    {
      assert after[m] == before[m];
    }
  }

  // ----- proofs

  /** The root reached from a value at position idx by hashing with a path of siblings. */
  function FoldPath<T>(h: Compression<T>, value: T, path: seq<T>, idx: nat): T
    decreases |path|
  {
    if path == [] then value
    else FoldPath(h, if idx % 2 == 1 then h(path[0], value) else h(value, path[0]), path[1..], idx / 2)
  }

  /** The siblings of the path from position idx of level lvl, up through n levels. */
  function Path<T>(h: Compression<T>, zero: T, leaves: seq<T>, lvl: nat, idx: nat, n: nat): (path: seq<T>)
    ensures |path| == n
    decreases n
  {
    if n == 0 then []
    else [NodeAt(h, zero, leaves, lvl, SiblingIndex(idx))] + Path(h, zero, leaves, lvl + 1, idx / 2, n - 1)
  }

  /** Each path element is the sibling of an ancestor. */
  lemma {:induction false} PathAt<T>(h: Compression<T>, zero: T, leaves: seq<T>, lvl: nat, idx: nat, n: nat, k: nat)
    requires k < n
    ensures Path(h, zero, leaves, lvl, idx, n)[k]
         == NodeAt(h, zero, leaves, lvl + k, SiblingIndex(Ancestor(idx, k)))
    decreases k
  {
    if k > 0 {
      PathAt(h, zero, leaves, lvl + 1, idx / 2, n - 1, k - 1);
      AncestorHalf(idx, k - 1);
    }
  }

  lemma PathNext<T>(h: Compression<T>, zero: T, leaves: seq<T>, idx: nat, n: nat, k: nat)
    requires k < n
    ensures Path(h, zero, leaves, 0, idx, n)[..k] + [NodeAt(h, zero, leaves, k, SiblingIndex(Ancestor(idx, k)))]
         == Path(h, zero, leaves, 0, idx, n)[..k + 1]
  {
    PathAt(h, zero, leaves, 0, idx, n, k);
  }

  /** Completeness: the true path folds from the node to its ancestor. */
  lemma {:induction false} PathFolds<T>(h: Compression<T>, zero: T, leaves: seq<T>, lvl: nat, idx: nat, n: nat)
    ensures FoldPath(h, NodeAt(h, zero, leaves, lvl, idx), Path(h, zero, leaves, lvl, idx, n), idx)
         == NodeAt(h, zero, leaves, lvl + n, Ancestor(idx, n))
    decreases n
  {
    if n > 0 {
      var path := Path(h, zero, leaves, lvl, idx, n);
      assert path[1..] == Path(h, zero, leaves, lvl + 1, idx / 2, n - 1);
      assert idx == 2 * (idx / 2) + idx % 2;
      PathFolds(h, zero, leaves, lvl + 1, idx / 2, n - 1);
      AncestorHalf(idx, n - 1);
    }
  }

  /** Two different pairs of inputs with one compression. */
  predicate IsCollision<T(==)>(h: Compression<T>, c: ((T, T), (T, T))) {
    c.0 != c.1 && h(c.0.0, c.0.1) == h(c.1.0, c.1.1)
  }

  /** The lowest level at which a path's hash pair and the tree's collide. */
  function Collision<T(==)>(h: Compression<T>, zero: T, leaves: seq<T>, value: T, path: seq<T>,
      lvl: nat, idx: nat): ((T, T), (T, T))
    decreases |path|
  {
    if path == [] then ((value, value), (value, value))
    else
      var claimed := if idx % 2 == 1 then (path[0], value) else (value, path[0]);
      var actual := (NodeAt(h, zero, leaves, lvl, 2 * (idx / 2)), NodeAt(h, zero, leaves, lvl, 2 * (idx / 2) + 1));
      if IsCollision(h, (claimed, actual)) then (claimed, actual)
      else Collision(h, zero, leaves, h(claimed.0, claimed.1), path[1..], lvl + 1, idx / 2)
  }

  /** Soundness: a path that opens a node to anything but its true descendant exhibits a
      collision of the compression function. */
  lemma {:induction false} OpeningBinds<T>(h: Compression<T>, zero: T, leaves: seq<T>, value: T,
      path: seq<T>, lvl: nat, idx: nat)
    requires FoldPath(h, value, path, idx) == NodeAt(h, zero, leaves, lvl + |path|, Ancestor(idx, |path|))
    ensures value == NodeAt(h, zero, leaves, lvl, idx)
         || IsCollision(h, Collision(h, zero, leaves, value, path, lvl, idx))
    decreases |path|
  {
    if path != [] {
      var up := if idx % 2 == 1 then h(path[0], value) else h(value, path[0]);
      AncestorHalf(idx, |path| - 1);
      OpeningBinds(h, zero, leaves, up, path[1..], lvl + 1, idx / 2);
      assert idx == 2 * (idx / 2) + idx % 2;
    }
  }

  ghost predicate Injective<T(!new)>(h: Compression<T>) {
    forall a, b, c, d :: h(a, b) == h(c, d) ==> a == c && b == d
  }

  /** Compressions without collisions exist: pairing of terms is one. */
  datatype Term = Atom(n: nat) | Pair(left: Term, right: Term)

  lemma PairingIsInjective()
    ensures Injective((a: Term, b: Term) => Pair(a, b))
  {
  }
}
