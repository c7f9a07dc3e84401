/** The Merkle root of an evidence graph (core/evidence_manifest.py).

    SHA-256 is modelled as a collision-free, domain-separated hash: an inner
    node is the free term `Pair`, a leaf is its digest read as a number (the
    order of fixed-length lower-case hexadecimal strings is the order of the
    numbers), and the empty list has a digest of its own. */
module EvidenceManifest {
  import opened Common

  datatype Hash = EmptyTree | Leaf(digest: int) | Pair(left: Hash, right: Hash)

  // ---------------------------------------------------------------- sorting

  ghost predicate IsSorted(s: seq<int>) {
    |s| <= 1 || (s[0] <= s[1] && IsSorted(s[1..]))
  }

  function Insert(x: int, s: seq<int>): (r: seq<int>)
    ensures |r| == |s| + 1 && (r[0] == x || (s != [] && r[0] == s[0] && s[0] < x))
    ensures IsSorted(s) ==> IsSorted(r)
  {
    if s == [] || x <= s[0] then
      assert ([x] + s)[1..] == s;
      [x] + s
    else
      assert ([s[0]] + Insert(x, s[1..]))[1..] == Insert(x, s[1..]);
      [s[0]] + Insert(x, s[1..])
  }

  lemma {:induction false} InsertAdds(x: int, s: seq<int>)
    ensures multiset(Insert(x, s)) == multiset(s) + multiset{x}
  {
    if s != [] {
      assert s == [s[0]] + s[1..];
      if s[0] < x {
        InsertAdds(x, s[1..]);
      }
    }
  }

  function Sort(s: seq<int>): (r: seq<int>)
    ensures |r| == |s| && IsSorted(r)
  {
    if s == [] then [] else Insert(s[0], Sort(s[1..]))
  }

  lemma {:induction false} SortPermutes(s: seq<int>)
    ensures multiset(Sort(s)) == multiset(s)
  {
    if s != [] {
      assert s == [s[0]] + s[1..];
      SortPermutes(s[1..]);
      InsertAdds(s[0], Sort(s[1..]));
    }
  }

  lemma {:induction false} SortedBounds(s: seq<int>, i: nat, j: nat)
    requires IsSorted(s) && i <= j < |s|
    ensures s[i] <= s[j]
  {
    if i > 0 {
      SortedBounds(s[1..], i - 1, j - 1);
    } else if j > 0 {
      SortedBounds(s[1..], 0, j - 1);
    }
  }

  /** A sorted arrangement is determined by its multiset of elements. */
  lemma {:induction false} SortedIsUnique(a: seq<int>, b: seq<int>)
    requires IsSorted(a) && IsSorted(b) && multiset(a) == multiset(b)
    ensures a == b
  {
    if a == [] || b == [] {
      assert |multiset(a)| == |a| && |multiset(b)| == |b|;
    } else {
      LeastIsFirst(a, b);
      LeastIsFirst(b, a);
      DropFirst(a);
      DropFirst(b);
      SortedIsUnique(a[1..], b[1..]);
      assert a == [a[0]] + a[1..] && b == [b[0]] + b[1..];
    }
  }

  lemma LeastIsFirst(a: seq<int>, b: seq<int>)
    requires a != [] && b != [] && IsSorted(a) && multiset(a) == multiset(b)
    ensures a[0] <= b[0]
  {
    assert b[0] in multiset(a);
    var i :| 0 <= i < |a| && a[i] == b[0];
    SortedBounds(a, 0, i);
  }

  lemma DropFirst(a: seq<int>)
    requires a != [] && IsSorted(a)
    ensures multiset(a[1..]) == multiset(a) - multiset{a[0]} && IsSorted(a[1..])
  {
    assert a == [a[0]] + a[1..];
  }

  // ----------------------------------------------------- the level-by-level loop

  /** An odd level repeats its last node. */
  function Padded(level: seq<Hash>): (r: seq<Hash>)
    requires level != []
    ensures |r| % 2 == 0 && |level| <= |r| <= |level| + 1
  {
    if |level| % 2 == 1 then level + [Last(level)] else level
  }

  function PairUp(level: seq<Hash>): (r: seq<Hash>)
    requires |level| % 2 == 0
    ensures |r| == |level| / 2
    ensures forall i :: 0 <= i < |r| ==> r[i] == Pair(level[2 * i], level[2 * i + 1])
  {
    seq(|level| / 2, i requires 0 <= i < |level| / 2 => Pair(level[2 * i], level[2 * i + 1]))
  }

  function Reduce(level: seq<Hash>): Hash
    requires level != []
    decreases |level|
  {
    if |level| == 1 then level[0] else Reduce(PairUp(Padded(level)))
  }

  function AsLeaves(digests: seq<int>): (r: seq<Hash>)
    ensures |r| == |digests|
    ensures forall i :: 0 <= i < |r| ==> r[i] == Leaf(digests[i])
  {
    seq(|digests|, i requires 0 <= i < |digests| => Leaf(digests[i]))
  }

  function Root(leaves: seq<int>): Hash {
    if leaves == [] then EmptyTree else Reduce(AsLeaves(Sort(leaves)))
  }

  /** One pass over an even level, two nodes at a time. */
  method HashPairs(level: seq<Hash>) returns (next: seq<Hash>)
    requires |level| % 2 == 0
    ensures next == PairUp(level)
  {
    next := [];
    var i := 0;
    while i < |level|
      invariant 0 <= i <= |level| && i % 2 == 0 && |next| == i / 2
      invariant forall k :: 0 <= k < |next| ==> next[k] == Pair(level[2 * k], level[2 * k + 1])
    {
      next := next + [Pair(level[i], level[i + 1])];
      i := i + 2;
    }
  }

  /** The iterative computation: sort once, then rebuild the level until one
      node is left. */
  method MerkleRoot(leaves: seq<int>) returns (root: Hash)
    ensures root == Root(leaves)
  {
    if leaves == [] {
      return EmptyTree;
    }
    var level := AsLeaves(Sort(leaves));
    while |level| > 1
      invariant level != [] && Reduce(level) == Reduce(AsLeaves(Sort(leaves)))
      decreases |level|
    {
      ghost var before := level;
      if |level| % 2 == 1 {
        level := level + [Last(level)];
      }
      assert level == Padded(before);
      level := HashPairs(level);
    }
    root := level[0];
  }

  // ------------------------------------------------------------- what it binds

  /** The leaves below a node, from left to right. */
  ghost function Fringe(h: Hash): (r: seq<int>) {
    match h
    case EmptyTree => []
    case Leaf(d) => [d]
    case Pair(l, r) => Fringe(l) + Fringe(r)
  }

  ghost function LevelFringe(level: seq<Hash>): seq<int> {
    if level == [] then [] else LevelFringe(level[..|level| - 1]) + Fringe(Last(level))
  }

  lemma PairUpFront(level: seq<Hash>)
    requires |level| >= 2 && |level| % 2 == 0
    ensures PairUp(level)[..|PairUp(level)| - 1] == PairUp(level[..|level| - 2])
  {
    var next, front := PairUp(level), PairUp(level[..|level| - 2]);
    forall i | 0 <= i < |front| ensures next[i] == front[i] {
      assert next[i] == Pair(level[2 * i], level[2 * i + 1]);
    }
  }

  lemma FringeOfTwo(level: seq<Hash>)
    requires |level| >= 2
    ensures LevelFringe(level)
         == LevelFringe(level[..|level| - 2]) + Fringe(level[|level| - 2]) + Fringe(level[|level| - 1])
  {
    var front := level[..|level| - 1];
    assert LevelFringe(level) == LevelFringe(front) + Fringe(level[|level| - 1]);
    assert front[..|front| - 1] == level[..|level| - 2];
  }

  lemma {:induction false} PairUpKeepsFringe(level: seq<Hash>)
    requires |level| % 2 == 0
    ensures LevelFringe(PairUp(level)) == LevelFringe(level)
  {
    if level != [] {
      var next, n := PairUp(level), |level|;
      PairUpKeepsFringe(level[..n - 2]);
      PairUpFront(level);
      FringeOfTwo(level);
      assert Last(next) == Pair(level[n - 2], level[n - 1]);
      assert LevelFringe(next) == LevelFringe(next[..|next| - 1]) + Fringe(Last(next));
    }
  }

  /** The root repeats the level's fringe from the left and adds no new leaf. */
  lemma {:induction false} ReduceExtendsFringe(level: seq<Hash>)
    requires level != []
    ensures LevelFringe(level) <= Fringe(Reduce(level))
    ensures forall x :: x in Fringe(Reduce(level)) ==> x in LevelFringe(level)
    decreases |level|
  {
    if |level| == 1 {
      assert level[..0] == [];
    } else {
      var p := Padded(level);
      if p != level {
        assert p[..|level|] == level;
        assert level == level[..|level| - 1] + [Last(level)];
      }
      PairUpKeepsFringe(p);
      ReduceExtendsFringe(PairUp(p));
    }
  }

  lemma {:induction false} LeafLevelFringe(digests: seq<int>)
    ensures LevelFringe(AsLeaves(digests)) == digests
  {
    if digests != [] {
      var front := digests[..|digests| - 1];
      LeafLevelFringe(front);
      assert AsLeaves(digests)[..|digests| - 1] == AsLeaves(front);
      assert digests == front + [Last(digests)];
    }
  }

  /** `ys` is `xs` with `n` further copies of the largest element of `xs`. */
  ghost predicate AddsCopiesOfLargest(xs: seq<int>, ys: seq<int>, n: nat) {
    if xs == [] then n == 0 && ys == []
    else multiset(ys) == multiset(xs)[Last(Sort(xs)) := multiset(xs)[Last(Sort(xs))] + n]
  }

  lemma {:induction false} CopiesExtendMultiset(a: seq<int>, b: seq<int>, x: int)
    requires a <= b && forall i :: |a| <= i < |b| ==> b[i] == x
    ensures multiset(b) == multiset(a)[x := multiset(a)[x] + (|b| - |a|)]
    decreases |b|
  {
    if |a| == |b| {
      assert a == b;
    } else {
      var c := b[..|b| - 1];
      CopiesExtendMultiset(a, c, x);
      assert b == c + [x];
    }
  }

  lemma RootFringe(xs: seq<int>)
    ensures xs == [] ==> Fringe(Root(xs)) == []
    ensures Sort(xs) <= Fringe(Root(xs))
    ensures forall x :: x in Fringe(Root(xs)) ==> x in Sort(xs)
  {
    if xs != [] {
      LeafLevelFringe(Sort(xs));
      ReduceExtendsFringe(AsLeaves(Sort(xs)));
    }
  }

  lemma SortedTailRepeats(a: seq<int>, b: seq<int>, f: seq<int>)
    requires a != [] && IsSorted(a) && IsSorted(b) && a <= f && b <= f && |a| <= |b|
    requires forall x :: x in f ==> x in a
    ensures a <= b
    ensures forall i :: |a| <= i < |b| ==> b[i] == Last(a)
  {
    assert a == f[..|a|] && b == f[..|b|];
    assert a == b[..|a|];
    forall i | |a| <= i < |b| ensures b[i] == Last(a) {
      assert f[i] in f;
      var j :| 0 <= j < |a| && a[j] == b[i];
      SortedBounds(a, j, |a| - 1);
      SortedBounds(b, |a| - 1, i);
    }
  }

  /** Binding, for lists of any lengths and any repetitions: if two lists have
      the same root, the longer one is the shorter one with further copies of
      its largest leaf. Nothing else can be added, removed or replaced. */
  lemma RootBinds(xs: seq<int>, ys: seq<int>)
    requires |xs| <= |ys| && Root(xs) == Root(ys)
    ensures AddsCopiesOfLargest(xs, ys, |ys| - |xs|)
  {
    RootFringe(xs);
    RootFringe(ys);
    if xs != [] {
      SortPermutes(xs);
      SortPermutes(ys);
      SortedTailRepeats(Sort(xs), Sort(ys), Fringe(Root(xs)));
      CopiesExtendMultiset(Sort(xs), Sort(ys), Last(Sort(xs)));
    }
  }

  lemma PermutationsShareRoot(xs: seq<int>, ys: seq<int>)
    requires multiset(xs) == multiset(ys)
    ensures Root(xs) == Root(ys)
  {
    SortPermutes(xs);
    SortPermutes(ys);
    SortedIsUnique(Sort(xs), Sort(ys));
    assert |multiset(xs)| == |xs| && |multiset(ys)| == |ys|;
  }

  /** Two duplicate-free leaf lists, of any lengths, have the same root exactly
      when they are permutations of each other. */
  lemma RootBindsDistinctLeaves(xs: seq<int>, ys: seq<int>)
    requires Distinct(xs) && Distinct(ys)
    ensures Root(xs) == Root(ys) <==> multiset(xs) == multiset(ys)
  {
    if multiset(xs) == multiset(ys) {
      PermutationsShareRoot(xs, ys);
    }
    if Root(xs) == Root(ys) {
      if |xs| <= |ys| {
        DistinctRootsAgree(xs, ys);
      } else {
        DistinctRootsAgree(ys, xs);
      }
    }
  }

  lemma DistinctRootsAgree(xs: seq<int>, ys: seq<int>)
    requires Distinct(ys) && |xs| <= |ys| && Root(xs) == Root(ys)
    ensures multiset(xs) == multiset(ys)
  {
    RootBinds(xs, ys);
    if xs != [] {
      var x := Last(Sort(xs));
      assert x in Sort(xs);
      SortPermutes(xs);
      assert x in multiset(xs);
      DistinctCounts(ys, x);
    }
  }

  /** So lists of equal length need not be duplicate-free. */
  lemma RootBindsEqualLength(xs: seq<int>, ys: seq<int>)
    requires |xs| == |ys|
    ensures Root(xs) == Root(ys) <==> multiset(xs) == multiset(ys)
  {
    if multiset(xs) == multiset(ys) {
      PermutationsShareRoot(xs, ys);
    }
    if Root(xs) == Root(ys) {
      RootBinds(xs, ys);
    }
  }

  // ------------------------------------------------------- which lengths can collide

  /** How many levels are above `m` leaves. */
  function Height(m: nat): nat {
    if m <= 1 then 0 else 1 + Height((m + 1) / 2)
  }

  /** Down the left edge of a tree. */
  ghost function LeftDepth(h: Hash): nat {
    if h.Pair? then 1 + LeftDepth(h.left) else 0
  }

  /** The root of a level lies as many levels above its first node as the level's
      length says. */
  lemma {:induction false} ReduceAddsHeight(level: seq<Hash>)
    requires level != []
    ensures LeftDepth(Reduce(level)) == LeftDepth(level[0]) + Height(|level|)
    ensures Reduce(level).EmptyTree? ==> level[0].EmptyTree?
    decreases |level|
  {
    if |level| > 1 {
      ReduceAddsHeight(PairUp(Padded(level)));
    }
  }

  /** So a root tells apart the empty list and lists of different height. */
  lemma RootTellsHeight(xs: seq<int>)
    ensures Root(xs) == EmptyTree <==> xs == []
    ensures LeftDepth(Root(xs)) == Height(|xs|)
  {
    if xs != [] {
      ReduceAddsHeight(AsLeaves(Sort(xs)));
    }
  }

  /** The tree of height `height` over copies of one node. */
  ghost function Uniform(node: Hash, height: nat): Hash
    decreases height
  {
    if height == 0 then node else Uniform(Pair(node, node), height - 1)
  }

  lemma PairsOfCopies(level: seq<Hash>, node: Hash)
    requires level != [] && forall i :: 0 <= i < |level| ==> level[i] == node
    ensures var next := PairUp(Padded(level));
            |next| == (|level| + 1) / 2 && forall i :: 0 <= i < |next| ==> next[i] == Pair(node, node)
  {
    var p := Padded(level);
    forall i | 0 <= i < |p| ensures p[i] == node {
    }
    forall i | 0 <= i < |PairUp(p)| ensures PairUp(p)[i] == Pair(node, node) {
      assert p[2 * i] == node && p[2 * i + 1] == node;
    }
  }

  lemma {:induction false} ReduceOfCopies(level: seq<Hash>, node: Hash)
    requires level != [] && forall i :: 0 <= i < |level| ==> level[i] == node
    ensures Reduce(level) == Uniform(node, Height(|level|))
    decreases |level|
  {
    if |level| > 1 {
      PairsOfCopies(level, node);
      ReduceOfCopies(PairUp(Padded(level)), Pair(node, node));
    }
  }

  function Copies(x: int, m: nat): (r: seq<int>)
    ensures |r| == m && forall i :: 0 <= i < m ==> r[i] == x
  {
    seq(m, _ => x)
  }

  lemma RootOfCopies(x: int, m: nat)
    requires m > 0
    ensures Root(Copies(x, m)) == Uniform(Leaf(x), Height(m))
  {
    var a := Sort(Copies(x, m));
    SortPermutes(Copies(x, m));
    forall i | 0 <= i < m ensures a[i] == x {
      assert a[i] in multiset(a);
    }
    ReduceOfCopies(AsLeaves(a), Leaf(x));
  }

  /** Lists of these lengths can only share a root by being permutations. */
  predicate LengthsBind(m: nat, n: nat) {
    m == n || m == 0 || n == 0 || Height(m) != Height(n)
  }

  /** Exactly which lengths bind: the root decides between any two lists of `m` and
      `n` leaves, repetitions included, if and only if the lengths are equal, one of
      them is zero, or their trees differ in height. */
  lemma LengthsBindExactly(m: nat, n: nat)
    ensures (forall xs, ys | |xs| == m && |ys| == n :: Root(xs) == Root(ys) <==> multiset(xs) == multiset(ys)) <==>
              LengthsBind(m, n)
  {
    if LengthsBind(m, n) {
      forall xs: seq<int>, ys: seq<int> | |xs| == m && |ys| == n
        ensures Root(xs) == Root(ys) <==> multiset(xs) == multiset(ys)
      {
        RootBindsLengths(xs, ys);
      }
    } else {
      RootOfCopies(0, m);
      RootOfCopies(0, n);
      assert |multiset(Copies(0, m))| == m && |multiset(Copies(0, n))| == n;
    }
  }

  lemma RootBindsLengths(xs: seq<int>, ys: seq<int>)
    requires LengthsBind(|xs|, |ys|)
    ensures Root(xs) == Root(ys) <==> multiset(xs) == multiset(ys)
  {
    if |xs| == |ys| {
      RootBindsEqualLength(xs, ys);
    } else {
      RootTellsHeight(xs);
      RootTellsHeight(ys);
      assert |multiset(xs)| == |xs| && |multiset(ys)| == |ys|;
    }
  }

  /** The collision the padding makes: repeating the largest leaf of any list of odd
      length above one leaves the root unchanged. */
  lemma RepeatedLargestLeafCollides(xs: seq<int>)
    requires |xs| % 2 == 1 && |xs| > 1
    ensures Root(xs + [Last(Sort(xs))]) == Root(xs)
  {
    var a := Sort(xs);
    var x := Last(a);
    SortAppendsLargest(xs);
    PaddedLeaves(a);
    ReduceIgnoresPadding(AsLeaves(a));
  }

  lemma PaddedLeaves(a: seq<int>)
    requires |a| % 2 == 1
    ensures AsLeaves(a + [Last(a)]) == Padded(AsLeaves(a))
  {
  }

  lemma ReduceIgnoresPadding(level: seq<Hash>)
    requires |level| > 1
    ensures Reduce(Padded(level)) == Reduce(level)
  {
    assert Padded(Padded(level)) == Padded(level);
  }

  lemma SortAppendsLargest(xs: seq<int>)
    requires xs != []
    ensures Sort(xs + [Last(Sort(xs))]) == Sort(xs) + [Last(Sort(xs))]
  {
    var a, x := Sort(xs), Last(Sort(xs));
    assert multiset(Sort(xs + [x])) == multiset(a + [x]) by {
      SortPermutes(xs);
      SortPermutes(xs + [x]);
    }
    SortedAppend(a, x);
    SortedIsUnique(Sort(xs + [x]), a + [x]);
  }

  lemma {:induction false} SortedAppend(a: seq<int>, x: int)
    requires IsSorted(a) && (a != [] ==> Last(a) <= x)
    ensures IsSorted(a + [x])
  {
    if a != [] {
      SortedAppend(a[1..], x);
      assert (a + [x])[1..] == a[1..] + [x];
    }
  }

  // ---------------------------------------------------------------- graph_root

  /** `sha` is the digest the node states for its data. */
  datatype EvidenceNode = EvidenceNode(kind: string, id: string, sha: int, data: string)

  datatype EvidenceEdge = EvidenceEdge(source: string, relation: string, target: string)

  /** What is hashed into a leaf; the prefixes "node:" and "edge:" keep the two
      kinds apart, and a node contributes its stated digest only. */
  datatype LeafSource = NodeLeaf(sha: int) | EdgeLeaf(edge: EvidenceEdge)

  datatype EvidenceGraph = EvidenceGraph(nodes: seq<EvidenceNode>, edges: seq<EvidenceEdge>)

  function LeafSources(g: EvidenceGraph): seq<LeafSource> {
    seq(|g.nodes|, i requires 0 <= i < |g.nodes| => NodeLeaf(g.nodes[i].sha))
    + seq(|g.edges|, i requires 0 <= i < |g.edges| => EdgeLeaf(g.edges[i]))
  }

  function Digests<T>(sources: seq<T>, hash: T -> int): (r: seq<int>) {
    seq(|sources|, i requires 0 <= i < |sources| => hash(sources[i]))
  }

  function GraphRoot(g: EvidenceGraph, hash: LeafSource -> int): Hash {
    Root(Digests(LeafSources(g), hash))
  }

  ghost predicate CollisionFree<T(!new)>(hash: T -> int) {
    forall a, b :: hash(a) == hash(b) ==> a == b
  }

  lemma {:induction false} DigestCounts<T(!new)>(s: seq<T>, hash: T -> int, x: T)
    requires CollisionFree(hash)
    ensures multiset(Digests(s, hash))[hash(x)] == multiset(s)[x]
  {
    if s != [] {
      var t := s[..|s| - 1];
      DigestCounts(t, hash, x);
      assert s == t + [Last(s)];
      assert Digests(s, hash) == Digests(t, hash) + [hash(Last(s))];
    }
  }

  /** For every collision-free hash, two lists that are duplicate-free or of lengths
      that bind have the same root exactly when they are permutations of each
      other. */
  lemma HashedRootBinds<T(!new)>(a: seq<T>, b: seq<T>, hash: T -> int)
    requires CollisionFree(hash) && (LengthsBind(|a|, |b|) || (Distinct(a) && Distinct(b)))
    ensures Root(Digests(a, hash)) == Root(Digests(b, hash)) <==> multiset(a) == multiset(b)
  {
    if LengthsBind(|a|, |b|) {
      RootBindsLengths(Digests(a, hash), Digests(b, hash));
    } else {
      DigestsStayDistinct(a, hash);
      DigestsStayDistinct(b, hash);
      RootBindsDistinctLeaves(Digests(a, hash), Digests(b, hash));
    }
    if multiset(Digests(a, hash)) == multiset(Digests(b, hash)) {
      forall x: T ensures multiset(a)[x] == multiset(b)[x] {
        DigestCounts(a, hash, x);
        DigestCounts(b, hash, x);
      }
    }
    if multiset(a) == multiset(b) {
      DigestsPermute(a, b, hash);
    }
  }

  lemma DigestsStayDistinct<T(!new)>(s: seq<T>, hash: T -> int)
    requires CollisionFree(hash) && Distinct(s)
    ensures Distinct(Digests(s, hash))
  {
  }

  lemma {:induction false} DigestsPermute<T>(a: seq<T>, b: seq<T>, hash: T -> int)
    requires multiset(a) == multiset(b)
    ensures multiset(Digests(a, hash)) == multiset(Digests(b, hash))
  {
    if a == [] {
      assert |multiset(b)| == |b|;
    } else {
      var i := LastPlace(a, b);
      var front, rest := a[..|a| - 1], b[..i] + b[i + 1..];
      DigestsPermute(front, rest, hash);
      assert Digests(a, hash) == Digests(front, hash) + [hash(Last(a))];
      DigestsSplit(b, i, hash);
    }
  }

  lemma DigestsSplit<T>(s: seq<T>, i: nat, hash: T -> int)
    requires i < |s|
    ensures multiset(Digests(s, hash))
         == multiset(Digests(s[..i] + s[i + 1..], hash)) + multiset{hash(s[i])}
  {
    var d := Digests(s, hash);
    assert d == d[..i] + [d[i]] + d[i + 1..];
    assert Digests(s[..i] + s[i + 1..], hash) == d[..i] + d[i + 1..];
  }

  /** For every collision-free hash, two graphs whose numbers of leaves bind, or
      without repeated leaves, have the same root exactly when they state the same
      node digests and the same edges. */
  lemma GraphRootBinds(g: EvidenceGraph, h: EvidenceGraph, hash: LeafSource -> int)
    requires CollisionFree(hash)
    requires || LengthsBind(|LeafSources(g)|, |LeafSources(h)|)
             || (Distinct(LeafSources(g)) && Distinct(LeafSources(h)))
    ensures GraphRoot(g, hash) == GraphRoot(h, hash)
       <==> multiset(LeafSources(g)) == multiset(LeafSources(h))
  {
    HashedRootBinds(LeafSources(g), LeafSources(h), hash);
  }

  /** The converse limit: the root does not commit to a node's type or id. */
  lemma GraphRootIgnoresNodeNames(g: EvidenceGraph, i: nat, kind: string, id: string, hash: LeafSource -> int)
    requires i < |g.nodes|
    ensures GraphRoot(g.(nodes := g.nodes[i := g.nodes[i].(kind := kind, id := id)]), hash)
         == GraphRoot(g, hash)
  {
    var g' := g.(nodes := g.nodes[i := g.nodes[i].(kind := kind, id := id)]);
    assert LeafSources(g') == LeafSources(g);
  }

  // -------------------------------------------------------------- _verify_nodes

  datatype ManifestError = NodeDigestMismatch | DuplicateNode | DanglingEdge

  function RefOf(n: EvidenceNode): string {
    n.kind + ":" + n.id
  }

  function Refs(nodes: seq<EvidenceNode>): (r: seq<string>)
    ensures |r| == |nodes|
  {
    seq(|nodes|, i requires 0 <= i < |nodes| => RefOf(nodes[i]))
  }

  /** Every node states the digest of its data, references are unique and edges
      join existing references. */
  ghost predicate Consistent(g: EvidenceGraph, digest: string -> int) {
    && (forall i :: 0 <= i < |g.nodes| ==> g.nodes[i].sha == digest(g.nodes[i].data))
    && Distinct(Refs(g.nodes))
    && (forall e :: e in g.edges ==> e.source in Refs(g.nodes) && e.target in Refs(g.nodes))
  }

  method VerifyNodes(g: EvidenceGraph, digest: string -> int) returns (error: Option<ManifestError>)
    ensures error == None <==> Consistent(g, digest)
  {
    var seen: set<string> := {};
    var refs := Refs(g.nodes);
    for k := 0 to |g.nodes|
      invariant forall x :: x in seen <==> x in refs[..k]
      invariant forall i :: 0 <= i < k ==> g.nodes[i].sha == digest(g.nodes[i].data)
      invariant forall i, j :: 0 <= i < j < k ==> refs[i] != refs[j]
    {
      if digest(g.nodes[k].data) != g.nodes[k].sha {
        return Some(NodeDigestMismatch);
      }
      var ref := RefOf(g.nodes[k]);
      assert ref == refs[k];
      if ref in seen {
        return Some(DuplicateNode);
      }
      seen := seen + {ref};
    }
    assert refs[..|refs|] == refs;
    for k := 0 to |g.edges|
      invariant forall i :: 0 <= i < k ==> g.edges[i].source in refs && g.edges[i].target in refs
    {
      if g.edges[k].source !in seen || g.edges[k].target !in seen {
        assert g.edges[k] in g.edges;
        return Some(DanglingEdge);
      }
    }
    return None;
  }

  /** The evidence itself: node data and edges. */
  datatype Item = DataItem(data: string) | EdgeItem(edge: EvidenceEdge)

  function Items(g: EvidenceGraph): seq<Item> {
    seq(|g.nodes|, i requires 0 <= i < |g.nodes| => DataItem(g.nodes[i].data))
    + seq(|g.edges|, i requires 0 <= i < |g.edges| => EdgeItem(g.edges[i]))
  }

  function LeafOf(item: Item, digest: string -> int): LeafSource {
    match item
    case DataItem(data) => NodeLeaf(digest(data))
    case EdgeItem(e) => EdgeLeaf(e)
  }

  lemma ConsistentLeaves(g: EvidenceGraph, digest: string -> int, hash: LeafSource -> int, itemHash: Item -> int)
    requires Consistent(g, digest)
    requires forall item :: itemHash(item) == hash(LeafOf(item, digest))
    ensures Digests(LeafSources(g), hash) == Digests(Items(g), itemHash)
  {
    forall i | 0 <= i < |Items(g)| ensures hash(LeafSources(g)[i]) == itemHash(Items(g)[i]) {
      assert itemHash(Items(g)[i]) == hash(LeafOf(Items(g)[i], digest));
    }
  }

  /** Together with the node check the root commits to the evidence: two graphs
      that both pass it, whose numbers of nodes and edges together bind or without
      repeated data or edges, have the same root exactly when they hold the same data and
      the same edges. */
  lemma VerifiedRootBindsEvidence(g: EvidenceGraph, h: EvidenceGraph, digest: string -> int, hash: LeafSource -> int)
    requires CollisionFree(hash) && CollisionFree(digest)
    requires Consistent(g, digest) && Consistent(h, digest)
    requires LengthsBind(|Items(g)|, |Items(h)|) || (Distinct(Items(g)) && Distinct(Items(h)))
    ensures GraphRoot(g, hash) == GraphRoot(h, hash) <==> multiset(Items(g)) == multiset(Items(h))
  {
    var itemHash := (item: Item) => hash(LeafOf(item, digest));
    assert CollisionFree(itemHash) by {
      forall a, b | itemHash(a) == itemHash(b) ensures a == b {
        assert LeafOf(a, digest) == LeafOf(b, digest);
      }
    }
    ConsistentLeaves(g, digest, hash, itemHash);
    ConsistentLeaves(h, digest, hash, itemHash);
    HashedRootBinds(Items(g), Items(h), itemHash);
  }
}
