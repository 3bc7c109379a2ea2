/**
 * The trees behind the sparse Merkle tree's hashes.
 *
 * Hashes are free terms: `Zero` is the number 0 of an empty branch, `Leaf` the
 * domain-separated hash of a key and a value, `Node` the compression of two
 * child hashes. Equal hashes are then equal trees, which is what collision
 * resistance means to the contract.
 */
module SparseTree {
  import opened Bits

  /** Poseidon2 panics on inputs outside the BN254 scalar field. */
  const MODULUS: nat := 21888242871839275222246405745257275088548364400416034343698204186575808495617

  predicate InField(x: U256) { x < MODULUS }

  datatype Hash =
    | Zero
    | Leaf(key: U256, value: U256)
    | Node(left: Hash, right: Hash)

  type Contents = map<U256, U256>

  /** The key-value pairs at the leaves of a tree. */
  function ContentsOf(t: Hash): Contents {
    match t
    case Zero => map[]
    case Leaf(k, v) => map[k := v]
    case Node(l, r) => ContentsOf(l) + ContentsOf(r)
  }

  /** An internal node that canonical trees never have: it holds at most one leaf. */
  predicate Degenerate(l: Hash, r: Hash) {
    (l.Zero? && !r.Node?) || (r.Zero? && !l.Node?)
  }

  ghost predicate AllBits(m: Contents, d: nat, b: bool) {
    forall k :: k in m ==> Bit(k, d) == b
  }

  /** All keys of m start with the same d bits. */
  ghost predicate SharePrefix(m: Contents, d: nat) {
    forall j, k, i :: j in m && k in m && 0 <= i < d ==> Bit(j, i) == Bit(k, i)
  }

  /** The subtree at depth d keeps every leaf on the path of its key, is no deeper
      than the key has bits, and branches only where two leaves need it. */
  ghost predicate Canonical(t: Hash, d: nat) {
    match t
    case Zero => true
    case Leaf(k, v) => InField(k) && InField(v)
    case Node(l, r) =>
      && d < KEY_BITS
      && Canonical(l, d + 1) && Canonical(r, d + 1)
      && AllBits(ContentsOf(l), d, false) && AllBits(ContentsOf(r), d, true)
      && !Degenerate(l, r)
  }

  ghost predicate FieldContents(m: Contents) {
    forall k :: k in m ==> InField(k) && InField(m[k])
  }

  /** The pairs of m whose key has bit b at position d. */
  function Side(m: Contents, d: nat, b: bool): (s: Contents)
  {
    map k | k in m && Bit(k, d) == b :: m[k]
  }

  /** The tree of a key-value map, built top down from the map alone. */
  ghost function Build(m: Contents, d: nat): Hash
    decreases KEY_BITS - d
  {
    if m == map[] then Zero
    else if |m| == 1 then (var k :| k in m; Leaf(k, m[k]))
    else if d >= KEY_BITS then Zero
    else Node(Build(Side(m, d, false), d + 1), Build(Side(m, d, true), d + 1))
  }

  // ----- sizes of contents

  lemma AtLeastTwo(m: Contents, j: U256, k: U256)
    requires j in m && k in m && j != k
    ensures |m| >= 2
  {
    assert |{j, k}| == 2;
    assert |m.Keys| >= 2 by { SubsetSize({j, k}, m.Keys); }
  }

  lemma SubsetSize<T>(a: set<T>, b: set<T>)
    requires a <= b
    ensures |a| <= |b|
  {
    if a != {} {
      var x :| x in a;
      SubsetSize(a - {x}, b - {x});
    }
  }

  lemma SingletonKey(m: Contents, j: U256, k: U256)
    requires |m| == 1 && j in m && k in m
    ensures j == k
  {
    if j != k { AtLeastTwo(m, j, k); }
  }

  lemma TwoKeys(m: Contents) returns (j: U256, k: U256)
    requires |m| >= 2
    ensures j in m && k in m && j != k
  {
    j :| j in m;
    assert m.Keys - {j} != {} by {
      SubsetSize(m.Keys, {j} + (m.Keys - {j}));
    }
    k :| k in m.Keys - {j};
  }

  /** Only the empty tree is empty, only a leaf has one pair. */
  lemma {:induction false} ContentsSize(t: Hash, d: nat)
    requires Canonical(t, d)
    ensures t.Zero? <==> ContentsOf(t) == map[]
    ensures t.Leaf? <==> |ContentsOf(t)| == 1
  {
    match t
    case Zero =>
    case Leaf(k, v) => assert k in ContentsOf(t);
    case Node(l, r) => NodeHasTwo(l, r, d);
  }

  lemma {:induction false} NodeHasTwo(l: Hash, r: Hash, d: nat)
    requires Canonical(Node(l, r), d)
    ensures |ContentsOf(Node(l, r))| >= 2
    decreases Node(l, r), 0
  {
    if l.Zero? {
      NodeHasTwo(r.left, r.right, d + 1);
      UnionSize(ContentsOf(l), ContentsOf(r));
    } else if r.Zero? {
      NodeHasTwo(l.left, l.right, d + 1);
      UnionSize(ContentsOf(l), ContentsOf(r));
    } else {
      var j := SomeKey(l, d + 1);
      var k := SomeKey(r, d + 1);
      AtLeastTwo(ContentsOf(Node(l, r)), j, k);
    }
  }

  /** Every nonempty canonical tree holds some key. */
  lemma {:induction false} SomeKey(t: Hash, d: nat) returns (k: U256)
    requires Canonical(t, d) && !t.Zero?
    ensures k in ContentsOf(t)
    decreases t
  {
    match t
    case Leaf(key, v) => k := key;
    case Node(l, r) => if l.Zero? { k := SomeKey(r, d + 1); } else { k := SomeKey(l, d + 1); }
  }

  lemma UnionSize(a: Contents, b: Contents)
    ensures |a| <= |a + b| && |b| <= |a + b|
  {
    assert (a + b).Keys == a.Keys + b.Keys;
    SubsetSize(a.Keys, (a + b).Keys);
    SubsetSize(b.Keys, (a + b).Keys);
  }

  lemma ContentsSides(l: Hash, r: Hash, d: nat)
    requires AllBits(ContentsOf(l), d, false) && AllBits(ContentsOf(r), d, true)
    ensures Side(ContentsOf(Node(l, r)), d, false) == ContentsOf(l)
    ensures Side(ContentsOf(Node(l, r)), d, true) == ContentsOf(r)
  {
  }

  /** A canonical tree is the one built from its own contents. */
  lemma {:induction false} CanonicalIsBuild(t: Hash, d: nat)
    requires Canonical(t, d)
    ensures t == Build(ContentsOf(t), d)
  {
    ContentsSize(t, d);
    match t
    case Zero =>
    case Leaf(k, v) => assert k in ContentsOf(t);
    case Node(l, r) =>
      ContentsSides(l, r, d);
      CanonicalIsBuild(l, d + 1);
      CanonicalIsBuild(r, d + 1);
  }

  /** Two keys with a common prefix of d bits leave room for a node at depth d. */
  lemma RoomForNode(m: Contents, d: nat)
    requires |m| >= 2 && SharePrefix(m, d)
    ensures d < KEY_BITS
  {
    var j, k := TwoKeys(m);
    DistinctKeysDiffer(j, k);
  }

  lemma SplitSides(m: Contents, d: nat)
    requires SharePrefix(m, d)
    ensures SharePrefix(Side(m, d, false), d + 1) && SharePrefix(Side(m, d, true), d + 1)
    ensures m == Side(m, d, false) + Side(m, d, true)
  {
  }

  lemma SingletonMap(m: Contents) returns (k: U256)
    requires |m| == 1
    ensures k in m && m == map[k := m[k]]
  {
    k :| k in m;
    forall j | j in m ensures j == k { SingletonKey(m, j, k); }
  }

  /** Building is possible for every map of field elements, and loses nothing. */
  lemma {:induction false} BuildIsCanonical(m: Contents, d: nat)
    requires FieldContents(m) && SharePrefix(m, d)
    ensures Canonical(Build(m, d), d)
    ensures ContentsOf(Build(m, d)) == m
    decreases KEY_BITS - d
  {
    if m == map[] {
    } else if |m| == 1 {
      var k := SingletonMap(m);
      assert Build(m, d) == Leaf(k, m[k]);
    } else {
      RoomForNode(m, d);
      BuildNode(m, d);
    }
  }

  lemma {:induction false} BuildNode(m: Contents, d: nat)
    requires FieldContents(m) && SharePrefix(m, d)
    requires |m| >= 2 && d < KEY_BITS
    ensures Canonical(Build(m, d), d)
    ensures ContentsOf(Build(m, d)) == m
    decreases KEY_BITS - d, 0
  {
    var s0, s1 := Side(m, d, false), Side(m, d, true);
    SplitSides(m, d);
    BuildIsCanonical(s0, d + 1);
    BuildIsCanonical(s1, d + 1);
    if Degenerate(Build(s0, d + 1), Build(s1, d + 1)) {
      DegenerateIsSmall(Build(s0, d + 1), Build(s1, d + 1));
    }
  }

  lemma DegenerateIsSmall(l: Hash, r: Hash)
    requires Degenerate(l, r)
    ensures |ContentsOf(l) + ContentsOf(r)| <= 1
  {
    var t := if l.Zero? then r else l;
    assert ContentsOf(l) + ContentsOf(r) == ContentsOf(t);
    assert |ContentsOf(t)| <= 1;
  }

  lemma {:induction false} ContentsInField(t: Hash, d: nat)
    requires Canonical(t, d)
    ensures FieldContents(ContentsOf(t))
  {
    if t.Node? {
      ContentsInField(t.left, d + 1);
      ContentsInField(t.right, d + 1);
    }
  }
}
