/** The contract's content-addressed node storage, and which stored nodes a tree needs. */
module NodeStore {
  import opened Common
  import opened Bits
  import opened SparseTree
  import opened SparsePath

  /** A storage entry: [1, key, value], [left, right], or anything else. */
  datatype NodeData =
    | LeafRecord(key: U256, value: U256)
    | NodeRecord(left: Hash, right: Hash)
    | OtherRecord

  type Storage = map<Hash, NodeData>

  datatype Error = KeyNotFound | KeyAlreadyExists | InvalidProof

  function RecordOf(h: Hash): NodeData {
    match h
    case Zero => OtherRecord
    case Leaf(k, v) => LeafRecord(k, v)
    case Node(l, r) => NodeRecord(l, r)
  }

  /** Every entry is stored under its own hash. */
  ghost predicate WellStored(nodes: Storage) {
    && Zero !in nodes
    && forall h :: h in nodes ==> nodes[h] == RecordOf(h)
  }

  /** The search the contract runs, reading nodes from storage by their hash. */
  function FindKeyInternal(nodes: Storage, key: U256, keyBits: seq<bool>, root: Hash,
                           level: nat): Outcome<FindResult, Error>
    requires |keyBits| == KEY_BITS && level <= KEY_BITS
    decreases KEY_BITS - level
  {
    if root == Zero then Ok(FindResult(false, [], 0, key, 0, true))
    else if root !in nodes then Err(KeyNotFound)
    else match nodes[root]
      case LeafRecord(k, v) =>
        if k == key then Ok(FindResult(true, [], v, 0, 0, false))
        else Ok(FindResult(false, [], 0, k, v, false))
      case NodeRecord(l, r) =>
        if level >= KEY_BITS then Trap
        else
          var b := keyBits[level];
          var below :- FindKeyInternal(nodes, key, keyBits, if b then r else l, level + 1);
          Ok(below.(siblings := [if b then l else r] + below.siblings))
      case OtherRecord => Err(KeyNotFound)
  }

  /** The nodes reachable from a root. */
  function Live(t: Hash): set<Hash> {
    match t
    case Zero => {}
    case Leaf(k, v) => {t}
    case Node(l, r) => {t} + Live(l) + Live(r)
  }

  /** On a store that has all nodes of a canonical tree, the contract's search
      never fails and finds what the tree holds. */
  lemma {:induction false} FindIsSearch(nodes: Storage, key: U256, keyBits: seq<bool>, t: Hash, d: nat)
    requires |keyBits| == KEY_BITS && d <= KEY_BITS
    requires forall i :: 0 <= i < KEY_BITS ==> keyBits[i] == Bit(key, i)
    requires WellStored(nodes) && Canonical(t, d) && Live(t) <= nodes.Keys
    ensures FindKeyInternal(nodes, key, keyBits, t, d) == Ok(Search(t, d, key))
    decreases t
  {
    if t.Node? {
      assert t in Live(t);
      FindIsSearch(nodes, key, keyBits, Child(t, keyBits[d]), d + 1);
    }
  }

  // ----- the nodes on a path and beside it

  /** The internal nodes that hashing `start` with the siblings produces. */
  function PathNodes(key: U256, siblings: seq<Hash>, start: Hash, d: nat): set<Hash>
    decreases |siblings|
  {
    if siblings == [] then {}
    else {Fold(key, siblings, start, d)} + PathNodes(key, siblings[1..], start, d + 1)
  }

  function LiveAll(siblings: seq<Hash>): set<Hash> {
    if siblings == [] then {} else Live(siblings[0]) + LiveAll(siblings[1..])
  }

  lemma {:induction false} LiveFold(key: U256, siblings: seq<Hash>, start: Hash, d: nat)
    ensures Live(Fold(key, siblings, start, d))
         == PathNodes(key, siblings, start, d) + Live(start) + LiveAll(siblings)
    decreases |siblings|
  {
    if siblings != [] {
      LiveFold(key, siblings[1..], start, d + 1);
    }
  }

  lemma {:induction false} LiveAllAppend(a: seq<Hash>, b: seq<Hash>)
    ensures LiveAll(a + b) == LiveAll(a) + LiveAll(b)
  {
    if a == [] {
      assert a + b == b;
    } else {
      assert (a + b)[1..] == a[1..] + b;
      LiveAllAppend(a[1..], b);
    }
  }

  lemma {:induction false} LiveZeros(n: nat)
    ensures LiveAll(Zeros(n)) == {}
  {
    if n > 0 {
      assert Zeros(n)[1..] == Zeros(n - 1);
      LiveZeros(n - 1);
    }
  }

  /** A suffix of the siblings, starting deeper, gives the lower part of the path. */
  lemma {:induction false} PathSuffix(key: U256, siblings: seq<Hash>, start: Hash, d: nat, i: nat)
    requires i <= |siblings|
    ensures PathNodes(key, siblings[i..], start, d + i) <= PathNodes(key, siblings, start, d)
    decreases i
  {
    if i > 0 {
      PathSuffix(key, siblings[1..], start, d + 1, i - 1);
      assert siblings[1..][i - 1..] == siblings[i..];
    }
  }

  /** One step of the bottom-up loops: level i joins the path above level i + 1. */
  lemma PathStep(key: U256, siblings: seq<Hash>, start: Hash, i: nat)
    requires i < |siblings|
    ensures Fold(key, siblings[i..], start, i)
         == Join(Bit(key, i), Fold(key, siblings[i + 1..], start, i + 1), siblings[i])
    ensures PathNodes(key, siblings[i..], start, i)
         == {Fold(key, siblings[i..], start, i)} + PathNodes(key, siblings[i + 1..], start, i + 1)
  {
    assert siblings[i..][1..] == siblings[i + 1..];
  }

  // ----- telling nodes apart by what they hold

  ghost predicate Lacks(s: set<Hash>, key: U256) {
    forall h :: h in s ==> key !in ContentsOf(h)
  }

  ghost predicate Has(s: set<Hash>, key: U256, value: U256) {
    forall h :: h in s ==> key in ContentsOf(h) && ContentsOf(h)[key] == value
  }

  ghost predicate SiblingsLack(siblings: seq<Hash>, key: U256) {
    forall i :: 0 <= i < |siblings| ==> key !in ContentsOf(siblings[i])
  }

  lemma {:induction false} SearchSiblingsLack(t: Hash, d: nat, key: U256)
    requires Canonical(t, d)
    ensures SiblingsLack(Search(t, d, key).siblings, key)
  {
    if t.Node? {
      SearchSiblingsLack(Child(t, Bit(key, d)), d + 1, key);
      assert key !in ContentsOf(Child(t, !Bit(key, d)));
    }
  }

  lemma {:induction false} PathHas(key: U256, siblings: seq<Hash>, value: U256, d: nat)
    requires SiblingsLack(siblings, key)
    ensures Has(PathNodes(key, siblings, Leaf(key, value), d) + {Leaf(key, value)}, key, value)
    ensures var t := Fold(key, siblings, Leaf(key, value), d);
      key in ContentsOf(t) && ContentsOf(t)[key] == value
    decreases |siblings|
  {
    if siblings != [] {
      PathHas(key, siblings[1..], value, d + 1);
      assert key !in ContentsOf(siblings[0]);
    }
  }

  lemma {:induction false} PathLacks(key: U256, siblings: seq<Hash>, start: Hash, d: nat, other: U256)
    requires SiblingsLack(siblings, other) && other !in ContentsOf(start)
    ensures Lacks(PathNodes(key, siblings, start, d), other)
    ensures other !in ContentsOf(Fold(key, siblings, start, d))
    decreases |siblings|
  {
    if siblings != [] {
      PathLacks(key, siblings[1..], start, d + 1, other);
      assert other !in ContentsOf(siblings[0]);
    }
  }

  /** Every node on a path holds what its deepest sibling holds. */
  lemma {:induction false} PathHoldsLast(key: U256, siblings: seq<Hash>, last: Hash, start: Hash, d: nat, other: U256)
    requires other in ContentsOf(last)
    ensures forall h :: h in PathNodes(key, siblings + [last], start, d) ==> other in ContentsOf(h)
    ensures other in ContentsOf(Fold(key, siblings + [last], start, d))
    decreases |siblings|
  {
    var all := siblings + [last];
    if siblings == [] {
      assert all == [last] && all[1..] == [];
    } else {
      assert all[1..] == siblings[1..] + [last];
      PathHoldsLast(key, siblings[1..], last, start, d + 1, other);
    }
  }

  lemma {:induction false} PathIsInternal(key: U256, siblings: seq<Hash>, start: Hash, d: nat)
    ensures forall h :: h in PathNodes(key, siblings, start, d) ==> h.Node?
    decreases |siblings|
  {
    if siblings != [] { PathIsInternal(key, siblings[1..], start, d + 1); }
  }

  /** The other siblings of a leaf lack the key of the leaf beside it. */
  lemma {:induction false} KeptLackPromoted(t: Hash, d: nat, key: U256)
    requires Canonical(t, d) && key in ContentsOf(t)
    requires Promoted(Search(t, d, key).siblings) != Zero
    ensures var ss := Search(t, d, key).siblings;
      && Promoted(ss).Leaf? && Promoted(ss).key in ContentsOf(t)
      && SiblingsLack(KeptSiblings(ss), Promoted(ss).key)
  {
    var c, s := Child(t, Bit(key, d)), Child(t, !Bit(key, d));
    var ss, below := Search(t, d, key).siblings, Search(c, d + 1, key).siblings;
    assert ss == [s] + below;
    if below == [] {
      assert ss == [s] && KeptSiblings(ss) == [];
    } else {
      KeptSiblingsCons(s, below);
      KeptLackPromoted(c, d + 1, key);
      var other := Promoted(below).key;
      assert other !in ContentsOf(s) by { OneSideOnly(t, d, Bit(key, d), other); }
      LackCons(s, KeptSiblings(below), other);
    }
  }

  lemma OneSideOnly(t: Hash, d: nat, b: bool, key: U256)
    requires Canonical(t, d) && t.Node? && key in ContentsOf(Child(t, b))
    ensures key !in ContentsOf(Child(t, !b)) && key in ContentsOf(t)
  {
  }

  lemma LackCons(s: Hash, siblings: seq<Hash>, key: U256)
    requires key !in ContentsOf(s) && SiblingsLack(siblings, key)
    ensures SiblingsLack([s] + siblings, key)
  {
  }

  /** Every node of a tree holds a nonempty part of the tree's contents. */
  lemma {:induction false} LiveHolds(t: Hash, d: nat, h: Hash) returns (k: U256)
    requires Canonical(t, d) && h in Live(t)
    ensures k in ContentsOf(h)
    ensures forall j :: j in ContentsOf(h) ==> j in ContentsOf(t)
    decreases t
  {
    if h == t {
      k := SomeKey(t, d);
    } else if h in Live(t.left) {
      k := LiveHolds(t.left, d + 1, h);
    } else {
      k := LiveHolds(t.right, d + 1, h);
    }
  }

  lemma LiveLacks(t: Hash, d: nat, key: U256)
    requires Canonical(t, d) && key !in ContentsOf(t)
    ensures Lacks(Live(t), key)
  {
    forall h | h in Live(t) ensures key !in ContentsOf(h) {
      var k := LiveHolds(t, d, h);
    }
  }

  lemma {:induction false} SiblingNodesLack(t: Hash, d: nat, key: U256)
    requires Canonical(t, d)
    ensures Lacks(LiveAll(Search(t, d, key).siblings), key)
  {
    if t.Node? {
      var c, s := Child(t, Bit(key, d)), Child(t, !Bit(key, d));
      SiblingNodesLack(c, d + 1, key);
      assert Search(t, d, key).siblings[1..] == Search(c, d + 1, key).siblings;
      assert key !in ContentsOf(s);
      LiveLacks(s, d + 1, key);
    }
  }

  function Size(t: Hash): nat {
    if t.Node? then 1 + Size(t.left) + Size(t.right) else 0
  }

  lemma {:induction false} LiveSize(t: Hash, h: Hash)
    requires h in Live(t)
    ensures Size(h) <= Size(t)
  {
    if h != t {
      if h in Live(t.left) { LiveSize(t.left, h); } else { LiveSize(t.right, h); }
    }
  }

  /** The two subtrees of a canonical node share no node. */
  lemma SubtreesDisjoint(t: Hash, d: nat)
    requires Canonical(t, d) && t.Node?
    ensures Live(t.left) !! Live(t.right)
    ensures t !in Live(t.left) && t !in Live(t.right)
  {
    forall h | h in Live(t.left) ensures h !in Live(t.right) && h != t {
      LiveSize(t.left, h);
      var k := LiveHolds(t.left, d + 1, h);
      assert !Bit(k, d);
      if h in Live(t.right) {
        var j := LiveHolds(t.right, d + 1, h);
      }
    }
    forall h | h in Live(t.right) ensures h != t { LiveSize(t.right, h); }
  }

  /** No node on a search path occurs again beside or below the path. */
  lemma {:induction false} PathIsApart(t: Hash, d: nat, key: U256)
    requires Canonical(t, d)
    ensures var r := Search(t, d, key);
      PathNodes(key, r.siblings, Terminal(r, key), d)
        !! Live(Terminal(r, key)) + LiveAll(r.siblings)
  {
    if t.Node? {
      var c := Child(t, Bit(key, d));
      PathIsApart(c, d + 1, key);
      SubtreesDisjoint(t, d);
      SearchIsLookup(t, d, key);
      SearchIsLookup(c, d + 1, key);
      var below := Search(c, d + 1, key);
      ApartStep(key, below.siblings, Terminal(below, key), Child(t, !Bit(key, d)), d);
    }
  }

  lemma ApartStep(key: U256, siblings: seq<Hash>, start: Hash, s: Hash, d: nat)
    requires var c := Fold(key, siblings, start, d + 1);
      var t := Join(Bit(key, d), c, s);
      Live(c) !! Live(s) && t !in Live(c) && t !in Live(s)
    requires PathNodes(key, siblings, start, d + 1) !! Live(start) + LiveAll(siblings)
    ensures PathNodes(key, [s] + siblings, start, d) !! Live(start) + LiveAll([s] + siblings)
  {
    var c := Fold(key, siblings, start, d + 1);
    var path, rest := PathNodes(key, siblings, start, d + 1), Live(start) + LiveAll(siblings);
    LiveFold(key, siblings, start, d + 1);
    FoldCons(key, s, siblings, start, d);
    assert ([s] + siblings)[1..] == siblings;
    ApartSets(Join(Bit(key, d), c, s), path, rest, Live(c), Live(s));
  }

  lemma ApartSets(t: Hash, path: set<Hash>, rest: set<Hash>, child: set<Hash>, sibling: set<Hash>)
    requires child == path + rest && path !! rest && child !! sibling
    requires t !in child && t !in sibling
    ensures {t} + path !! rest + sibling
  {
  }
}
