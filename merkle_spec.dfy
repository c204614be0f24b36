/**
 * The ideal contents of a fixed-depth, append-only binary Merkle tree.
 *
 * A node is named by its height h above the leaves and its position j on
 * that level; it covers the leaves j * 2^h .. (j + 1) * 2^h - 1. A tree of
 * depth `depth` stores level d (d = 0 is the root) at height depth - d.
 * Both hash functions are left uninterpreted: they are values of type
 * Hasher, and nothing here assumes they are injective.
 */
module MerkleSpec {

  /** The two digest functions: one for a leaf value, one for a pair of child digests. */
  datatype Hasher<!V, !D> = Hasher(leaf: V -> D, combine: (D, D) -> D)

  /** 2^n, as u32::pow(2, n) and usize::pow(2, n) compute it, without their overflow. */
  function Pow2(n: nat): (p: nat)
    ensures p >= 1
    ensures n > 0 ==> p % 2 == 0
  {
    if n == 0 then 1 else 2 * Pow2(n - 1)
  }

  /** i >> s, written as s successive halvings. */
  function Shr(i: nat, s: nat): nat
  {
    if s == 0 then i else Shr(i, s - 1) / 2
  }

  /** The number of trailing 1-bits of i. */
  function TrailingOnes(i: nat): nat
  {
    if i % 2 == 1 then 1 + TrailingOnes(i / 2) else 0
  }

  /**
   * Whether appending at cursor k rewrites the node at height h, position j:
   * the leaf k itself (h = 0), and its ancestors k >> h for every h up to
   * the number of trailing 1-bits of k.
   */
  predicate Recomputed(k: nat, h: nat, j: nat)
  {
    h <= TrailingOnes(k) && j == Shr(k, h)
  }

  /**
   * One iteration of the append loop: while the position i reached at height
   * h is odd, its parent at height h + 1 is rewritten too.
   */
  lemma ClimbStep(k: nat, h: nat, i: nat)
    requires Recomputed(k, h, i) && TrailingOnes(k) == h + TrailingOnes(i) && i % 2 == 1
    ensures Recomputed(k, h + 1, i / 2) && TrailingOnes(k) == h + 1 + TrailingOnes(i / 2)
  {
  }

  lemma ChildSpan(h: nat, j: nat)
    requires h > 0
    ensures (2 * j + 2) * Pow2(h - 1) == (j + 1) * Pow2(h)
    ensures 2 * j * Pow2(h - 1) == j * Pow2(h)
  {
    var p := Pow2(h - 1);
    assert Pow2(h) == 2 * p;
    assert (2 * j + 2) * p == 2 * ((j + 1) * p);
    assert (j + 1) * (2 * p) == 2 * ((j + 1) * p);
    assert 2 * j * p == j * (2 * p);
  }

  /** The ideal digest of the subtree at height h, position j over the leaf values `data`. */
  function MerkleRoot<V, D>(H: Hasher<V, D>, data: seq<V>, h: nat, j: nat): D
    requires (j + 1) * Pow2(h) <= |data|
    decreases h
  {
    if h == 0 then H.leaf(data[j])
    else
      ChildSpan(h, j);
      H.combine(MerkleRoot(H, data, h - 1, 2 * j), MerkleRoot(H, data, h - 1, 2 * j + 1))
  }

  /** The digest of a subtree of height h all of whose leaves hold the placeholder `empty`. */
  function EmptyRoot<V, D>(H: Hasher<V, D>, empty: V, h: nat): D
  {
    if h == 0 then H.leaf(empty) else H.combine(EmptyRoot(H, empty, h - 1), EmptyRoot(H, empty, h - 1))
  }

  /** Whether every leaf under the node at height h, position j is among the first n appended. */
  predicate Complete(n: nat, h: nat, j: nat)
  {
    (j + 1) * Pow2(h) <= n
  }

  /** Whether no leaf under the node at height h, position j is among the first n appended. */
  predicate Untouched(n: nat, h: nat, j: nat)
  {
    n <= j * Pow2(h)
  }

  /**
   * The digest an append-only tree holds at height h, position j once the
   * values `data` have been appended to a freshly built tree: the Merkle
   * root of the covered values when they are all appended, and otherwise
   * the placeholder digest written at construction, since a node is only
   * rewritten when its last leaf arrives.
   */
  function NodeDigest<V, D>(H: Hasher<V, D>, empty: V, data: seq<V>, h: nat, j: nat): D
  {
    if Complete(|data|, h, j) then MerkleRoot(H, data, h, j) else EmptyRoot(H, empty, h)
  }

  /** Level d of a tree of depth `depth` holds 2^d digests. */
  predicate Shaped<D>(L: seq<seq<D>>, depth: nat)
  {
    |L| == depth + 1 && forall d :: 0 <= d <= depth ==> |L[d]| == Pow2(d)
  }

  /** The digest at level d, position j of L is the combine of the two digests below it. */
  ghost predicate Combines<D>(c: (D, D) -> D, L: seq<seq<D>>, d: nat, j: nat)
    requires d + 1 < |L| && j < |L[d]| && 2 * j + 1 < |L[d + 1]|
  {
    L[d][j] == c(L[d + 1][2 * j], L[d + 1][2 * j + 1])
  }

  /** The digests of the first n nodes at height h after `data` has been appended. */
  function Row<V, D>(H: Hasher<V, D>, empty: V, data: seq<V>, h: nat, n: nat): (r: seq<D>)
    ensures |r| == n
  {
    if n == 0 then [] else Row(H, empty, data, h, n - 1) + [NodeDigest(H, empty, data, h, n - 1)]
  }

  /** Levels 0 .. n - 1 of a tree of depth `depth` after `data` has been appended. */
  function Levels<V, D>(H: Hasher<V, D>, empty: V, data: seq<V>, depth: nat, n: nat): (L: seq<seq<D>>)
    requires n <= depth + 1
    ensures |L| == n && forall d :: 0 <= d < n ==> |L[d]| == Pow2(d)
  {
    if n == 0 then []
    else Levels(H, empty, data, depth, n - 1) + [Row(H, empty, data, depth - (n - 1), Pow2(n - 1))]
  }

  /** All levels of a tree of depth `depth` after `data` has been appended, root level first. */
  function Ideal<V, D>(H: Hasher<V, D>, empty: V, data: seq<V>, depth: nat): (L: seq<seq<D>>)
    ensures Shaped(L, depth)
  {
    Levels(H, empty, data, depth, depth + 1)
  }

  lemma {:induction false} RowAt<V, D>(H: Hasher<V, D>, empty: V, data: seq<V>, h: nat, n: nat, j: nat)
    requires j < n
    ensures Row(H, empty, data, h, n)[j] == NodeDigest(H, empty, data, h, j)
    decreases n
  {
    if j < n - 1 {
      RowAt(H, empty, data, h, n - 1, j);
    }
  }

  lemma {:induction false} LevelsAt<V, D>(H: Hasher<V, D>, empty: V, data: seq<V>, depth: nat, n: nat, d: nat)
    requires d < n <= depth + 1
    ensures Levels(H, empty, data, depth, n)[d] == Row(H, empty, data, depth - d, Pow2(d))
    decreases n
  {
    if d < n - 1 {
      LevelsAt(H, empty, data, depth, n - 1, d);
    }
  }

  /** Shr(i, s + 1) halves i first and then shifts by s. */
  lemma {:induction false} ShrHalf(i: nat, s: nat)
    ensures Shr(i, s + 1) == Shr(i / 2, s)
    decreases s
  {
    if s > 0 {
      ShrHalf(i, s - 1);
    }
  }

  /** A position below 2^n, shifted right by s <= n, is a position on level n - s. */
  lemma {:induction false} ShrBound(i: nat, n: nat, s: nat)
    requires i < Pow2(n) && s <= n
    ensures Shr(i, s) < Pow2(n - s)
    decreases s
  {
    if s > 0 {
      ShrBound(i, n, s - 1);
      assert Pow2(n - s + 1) == 2 * Pow2(n - s);
    }
  }

  /**
   * Appending at cursor k completes the node at height h, position j exactly
   * when that node is one the append loop rewrites: the leaf range ends at k
   * if and only if h is at most the number of trailing 1-bits of k and
   * j == k >> h.
   */
  lemma {:induction false} JustCompletedIff(k: nat, h: nat, j: nat)
    ensures (j + 1) * Pow2(h) == k + 1 <==> Recomputed(k, h, j)
    decreases h
  {
    if h > 0 {
      var p := Pow2(h - 1);
      assert (j + 1) * Pow2(h) == 2 * ((j + 1) * p) by {
        assert Pow2(h) == 2 * p;
      }
      if k % 2 == 1 {
        JustCompletedIff(k / 2, h - 1, j);
        ShrHalf(k, h - 1);
        assert k + 1 == 2 * (k / 2 + 1);
      }
    }
  }

  /** Extending the data does not change the root of a subtree whose leaves were all present. */
  lemma {:induction false} MerkleRootPrefix<V, D>(H: Hasher<V, D>, data: seq<V>, more: seq<V>, h: nat, j: nat)
    requires (j + 1) * Pow2(h) <= |data|
    ensures MerkleRoot(H, data + more, h, j) == MerkleRoot(H, data, h, j)
    decreases h
  {
    if h > 0 {
      ChildSpan(h, j);
      MerkleRootPrefix(H, data, more, h - 1, 2 * j);
      MerkleRootPrefix(H, data, more, h - 1, 2 * j + 1);
    }
  }

  /**
   * A subtree lying wholly in a tail of the data that holds only the
   * placeholder, from position n on, has the placeholder root.
   */
  lemma {:induction false} PlaceholderRoot<V, D>(H: Hasher<V, D>, empty: V, data: seq<V>, n: nat, h: nat, j: nat)
    requires (j + 1) * Pow2(h) <= |data|
    requires Untouched(n, h, j) && forall m :: n <= m < |data| ==> data[m] == empty
    ensures MerkleRoot(H, data, h, j) == EmptyRoot(H, empty, h)
    decreases h
  {
    if h == 0 {
      assert data[j] == empty;
    } else {
      var p := Pow2(h - 1);
      ChildSpan(h, j);
      assert (2 * j + 1) * p == 2 * j * p + p;
      PlaceholderRoot(H, empty, data, n, h - 1, 2 * j);
      PlaceholderRoot(H, empty, data, n, h - 1, 2 * j + 1);
    }
  }

  /**
   * In a full row of slots whose tail from n on holds the placeholder, a
   * node of level d lying wholly in that tail is incomplete and its Merkle
   * root is the placeholder root.
   */
  lemma BlankSubtree<V, D>(H: Hasher<V, D>, empty: V, data: seq<V>, n: nat, depth: nat, d: nat, j: nat)
    requires |data| == Pow2(depth) && n <= |data| && forall m :: n <= m < |data| ==> data[m] == empty
    requires d <= depth && j < Pow2(d) && Untouched(n, depth - d, j)
    ensures Complete(|data|, depth - d, j) && !Complete(n, depth - d, j)
    ensures MerkleRoot(H, data, depth - d, j) == EmptyRoot(H, empty, depth - d)
  {
    LevelSpan(d, depth - d, j);
    assert d + (depth - d) == depth;
    assert (j + 1) * Pow2(depth - d) == j * Pow2(depth - d) + Pow2(depth - d);
    PlaceholderRoot(H, empty, data, n, depth - d, j);
  }

  /**
   * After the first n of a full row of slots are appended, with the rest
   * still the placeholder, every node lying wholly past the first n slots
   * holds the Merkle root of the slots it covers.
   */
  lemma BlankRoots<V, D>(H: Hasher<V, D>, empty: V, data: seq<V>, n: nat, depth: nat)
    requires |data| == Pow2(depth) && n <= |data| && forall m :: n <= m < |data| ==> data[m] == empty
    ensures forall d, j :: 0 <= d <= depth && 0 <= j < Pow2(d) &&
                           Untouched(n, depth - d, j) && Complete(|data|, depth - d, j) ==>
              Ideal(H, empty, data[..n], depth)[d][j] == MerkleRoot(H, data, depth - d, j)
  {
    var prefix := data[..n];
    assert |prefix| == n;
    forall d, j | 0 <= d <= depth && 0 <= j < Pow2(d) &&
                  Untouched(n, depth - d, j) && Complete(|data|, depth - d, j)
      ensures Ideal(H, empty, prefix, depth)[d][j] == MerkleRoot(H, data, depth - d, j)
    {
      BlankSubtree(H, empty, data, n, depth, d, j);
      IdealAt(H, empty, prefix, depth, d, j);
    }
  }

  /**
   * A node whose leaves are all appended, or none of whose leaves is
   * appended, holds the combine of its two children.
   */
  lemma NodeCombines<V, D>(H: Hasher<V, D>, empty: V, data: seq<V>, h: nat, j: nat)
    requires h > 0
    requires Complete(|data|, h, j) || |data| <= j * Pow2(h)
    ensures NodeDigest(H, empty, data, h, j) ==
            H.combine(NodeDigest(H, empty, data, h - 1, 2 * j), NodeDigest(H, empty, data, h - 1, 2 * j + 1))
  {
    ChildSpan(h, j);
    assert (2 * j + 1) * Pow2(h - 1) == 2 * j * Pow2(h - 1) + Pow2(h - 1);
  }

  /**
   * What one append does to every node: the nodes the append loop rewrites
   * become the new leaf digest or the combine of their children, and every
   * other node keeps its digest.
   */
  lemma AppendNode<V, D>(H: Hasher<V, D>, empty: V, data: seq<V>, v: V, h: nat, j: nat)
    ensures NodeDigest(H, empty, data + [v], h, j) ==
            if !Recomputed(|data|, h, j) then NodeDigest(H, empty, data, h, j)
            else if h == 0 then H.leaf(v)
            else H.combine(NodeDigest(H, empty, data + [v], h - 1, 2 * j),
                           NodeDigest(H, empty, data + [v], h - 1, 2 * j + 1))
  {
    JustCompletedIff(|data|, h, j);
    if Recomputed(|data|, h, j) {
      if h > 0 {
        NodeCombines(H, empty, data + [v], h, j);
      }
    } else if Complete(|data|, h, j) {
      MerkleRootPrefix(H, data, [v], h, j);
    }
  }

  /** In a full tree the root is the Merkle root of all the data. */
  lemma FullRoot<V, D>(H: Hasher<V, D>, empty: V, data: seq<V>, depth: nat)
    requires |data| == Pow2(depth)
    ensures Ideal(H, empty, data, depth)[0][0] == MerkleRoot(H, data, depth, 0)
  {
    IdealAt(H, empty, data, depth, 0, 0);
  }

  /** A position on level d spans at most the 2^(d + h) leaves of a tree of that depth. */
  lemma {:induction false} LevelSpan(d: nat, h: nat, j: nat)
    requires j < Pow2(d)
    ensures (j + 1) * Pow2(h) <= Pow2(d + h)
    decreases h
  {
    if h > 0 {
      LevelSpan(d, h - 1, j);
      DoubleBoth(j + 1, Pow2(h - 1), Pow2(d + h - 1));
    }
  }

  lemma DoubleBoth(a: nat, b: nat, c: nat)
    requires a * b <= c
    ensures a * (2 * b) <= 2 * c
  {
    assert a * (2 * b) == 2 * (a * b);
  }

  /** In a full tree every node is complete. */
  lemma FullComplete(depth: nat, d: nat, j: nat)
    requires d <= depth && j < Pow2(d)
    ensures Complete(Pow2(depth), depth - d, j)
  {
    LevelSpan(d, depth - d, j);
  }

  /** The digest held at level d, position j of the ideal levels. */
  lemma IdealAt<V, D>(H: Hasher<V, D>, empty: V, data: seq<V>, depth: nat, d: nat, j: nat)
    requires d <= depth && j < Pow2(d)
    ensures Ideal(H, empty, data, depth)[d][j] == NodeDigest(H, empty, data, depth - d, j)
  {
    LevelsAt(H, empty, data, depth, depth + 1, d);
    RowAt(H, empty, data, depth - d, Pow2(d), j);
  }

  /**
   * In the ideal levels, a node holds the combine of its children whenever
   * all its leaves are appended or none of them is.
   */
  lemma IdealCombines<V, D>(H: Hasher<V, D>, empty: V, data: seq<V>, depth: nat, d: nat, j: nat)
    requires d < depth && j < Pow2(d)
    requires Complete(|data|, depth - d, j) || |data| <= j * Pow2(depth - d)
    ensures Combines(H.combine, Ideal(H, empty, data, depth), d, j)
  {
    IdealAt(H, empty, data, depth, d, j);
    IdealAt(H, empty, data, depth, d + 1, 2 * j);
    IdealAt(H, empty, data, depth, d + 1, 2 * j + 1);
    NodeCombines(H, empty, data, depth - d, j);
  }

  /** In a tree built from no data every node holds the placeholder root of its height. */
  lemma IdealEmpty<V, D>(H: Hasher<V, D>, empty: V, depth: nat, d: nat)
    requires d <= depth
    ensures Ideal(H, empty, [], depth)[d] == seq(Pow2(d), _ => EmptyRoot(H, empty, depth - d))
  {
    forall j | 0 <= j < Pow2(d)
      ensures Ideal(H, empty, [], depth)[d][j] == EmptyRoot(H, empty, depth - d)
    {
      IdealAt(H, empty, [], depth, d, j);
    }
  }

  /**
   * One step of the append loop, on level d: when the append at cursor
   * |data| rewrites position i of that level, the new level is the old one
   * with only position i replaced, by the new leaf digest on the leaf level
   * and by the combine of its (already updated) children above it.
   */
  lemma AppendLevelStep<V, D>(H: Hasher<V, D>, empty: V, data: seq<V>, v: V, depth: nat, d: nat, i: nat)
    requires d <= depth && i < Pow2(d)
    requires Recomputed(|data|, depth - d, i)
    ensures var L, L' := Ideal(H, empty, data, depth), Ideal(H, empty, data + [v], depth);
            L'[d] == L[d][i := if d == depth then H.leaf(v)
                               else H.combine(L'[d + 1][2 * i], L'[d + 1][2 * i + 1])]
  {
    var L, L' := Ideal(H, empty, data, depth), Ideal(H, empty, data + [v], depth);
    var h: nat := depth - d;
    forall j | 0 <= j < Pow2(d)
      ensures L'[d][j] == if j == i then (if d == depth then H.leaf(v)
                                          else H.combine(L'[d + 1][2 * j], L'[d + 1][2 * j + 1]))
                          else L[d][j]
    {
      IdealAt(H, empty, data, depth, d, j);
      IdealAt(H, empty, data + [v], depth, d, j);
      if d < depth {
        IdealAt(H, empty, data + [v], depth, d + 1, 2 * j);
        IdealAt(H, empty, data + [v], depth, d + 1, 2 * j + 1);
      }
      AppendNode(H, empty, data, v, h, j);
    }
  }

  /** A level none of whose positions the append rewrites keeps every digest. */
  lemma AppendLevelUntouched<V, D>(H: Hasher<V, D>, empty: V, data: seq<V>, v: V, depth: nat, d: nat, h: nat)
    requires d <= depth && h == depth - d
    requires forall j :: 0 <= j < Pow2(d) ==> !Recomputed(|data|, h, j)
    ensures Ideal(H, empty, data + [v], depth)[d] == Ideal(H, empty, data, depth)[d]
  {
    var L, L' := Ideal(H, empty, data, depth), Ideal(H, empty, data + [v], depth);
    forall j | 0 <= j < Pow2(d)
      ensures L'[d][j] == L[d][j]
    {
      IdealAt(H, empty, data, depth, d, j);
      IdealAt(H, empty, data + [v], depth, d, j);
      AppendNode(H, empty, data, v, depth - d, j);
    }
  }

  /** Levels above the last one the append loop reaches keep every digest. */
  lemma AppendLevelAbove<V, D>(H: Hasher<V, D>, empty: V, data: seq<V>, v: V, depth: nat, d: nat)
    requires d <= depth && depth - d > TrailingOnes(|data|)
    ensures Ideal(H, empty, data + [v], depth)[d] == Ideal(H, empty, data, depth)[d]
  {
    AppendLevelUntouched(H, empty, data, v, depth, d, depth - d);
  }

  /**
   * L' differs from L, on the levels above the leaves, exactly at the nodes
   * an append at cursor k rewrites, and each of those holds the combine of
   * its children in L'.
   */
  ghost predicate PathRewritten<D>(c: (D, D) -> D, L: seq<seq<D>>, L': seq<seq<D>>, k: nat, depth: nat)
    requires Shaped(L, depth) && Shaped(L', depth)
  {
    forall d, j :: 0 <= d < depth && 0 <= j < Pow2(d) ==>
      if Recomputed(k, depth - d, j) then Combines(c, L', d, j) else L'[d][j] == L[d][j]
  }

  /**
   * The whole effect of one append on the levels: the leaf at the cursor
   * becomes the digest of the new value, every node the append loop
   * rewrites holds the combine of its children, and every other digest is
   * unchanged.
   */
  lemma AppendLevels<V, D>(H: Hasher<V, D>, empty: V, data: seq<V>, v: V, after: seq<V>,
                           L: seq<seq<D>>, L': seq<seq<D>>, depth: nat)
    requires |data| < Pow2(depth) && after == data + [v]
    requires L == Ideal(H, empty, data, depth) && L' == Ideal(H, empty, after, depth)
    ensures L'[depth] == L[depth][|data| := H.leaf(v)]
    ensures PathRewritten(H.combine, L, L', |data|, depth)
  {
    AppendLevelStep(H, empty, data, v, depth, depth, |data|);
    forall d, j | 0 <= d < depth && 0 <= j < Pow2(d)
      ensures if Recomputed(|data|, depth - d, j) then Combines(H.combine, L', d, j) else L'[d][j] == L[d][j]
    {
      AppendCell(H, empty, data, v, after, depth, d, j);
    }
  }

  lemma AppendCell<V, D>(H: Hasher<V, D>, empty: V, data: seq<V>, v: V, after: seq<V>, depth: nat, d: nat, j: nat)
    requires after == data + [v] && d < depth && j < Pow2(d)
    ensures if Recomputed(|data|, depth - d, j)
            then Combines(H.combine, Ideal(H, empty, after, depth), d, j)
            else Ideal(H, empty, after, depth)[d][j] == Ideal(H, empty, data, depth)[d][j]
  {
    IdealAt(H, empty, data, depth, d, j);
    IdealAt(H, empty, after, depth, d, j);
    IdealAt(H, empty, after, depth, d + 1, 2 * j);
    IdealAt(H, empty, after, depth, d + 1, 2 * j + 1);
    AppendNode(H, empty, data, v, depth - d, j);
  }

  /**
   * The leaf write that starts add_data: afterwards the leaf row is the one
   * after the append and every row above it still the one before.
   */
  lemma AppendLoopStart<V, D>(H: Hasher<V, D>, empty: V, before: seq<V>, v: V, after: seq<V>,
                              t: seq<seq<D>>, depth: nat)
    requires after == before + [v] && |before| < Pow2(depth)
    requires t == Ideal(H, empty, before, depth)
    ensures |before| < |t[depth]|
    ensures var t' := t[depth := t[depth][|before| := H.leaf(v)]];
            t'[depth..] == Ideal(H, empty, after, depth)[depth..] && t'[..depth] == t[..depth]
  {
    AppendLevelStep(H, empty, before, v, depth, depth, |before|);
  }

  /**
   * One step of add_data's upward loop: with the rows from d + 1 on already
   * those after the append and the rows up to d still those before it,
   * recomputing the ancestor at (d, i) makes row d the one after the append.
   */
  lemma AppendLoopStep<V, D>(H: Hasher<V, D>, empty: V, before: seq<V>, v: V, after: seq<V>,
                             t: seq<seq<D>>, depth: nat, d: nat, h: nat, i: nat)
    requires after == before + [v] && d < depth && h == depth - d && i < Pow2(d)
    requires Recomputed(|before|, h, i)
    requires |t| == depth + 1
    requires t[d + 1..] == Ideal(H, empty, after, depth)[d + 1..]
    requires t[..d + 1] == Ideal(H, empty, before, depth)[..d + 1]
    ensures i < |t[d]| && 2 * i + 1 < |t[d + 1]|
    ensures var t' := t[d := t[d][i := H.combine(t[d + 1][2 * i], t[d + 1][2 * i + 1])]];
            t'[d..] == Ideal(H, empty, after, depth)[d..] && t'[..d] == Ideal(H, empty, before, depth)[..d]
  {
    var A, B := Ideal(H, empty, after, depth), Ideal(H, empty, before, depth);
    AppendLevelStep(H, empty, before, v, depth, d, i);
    assert t[d] == t[..d + 1][d] == B[d];
    assert t[d + 1] == t[d + 1..][0] == A[d + 1];
    var t' := t[d := t[d][i := H.combine(t[d + 1][2 * i], t[d + 1][2 * i + 1])]];
    assert t'[d..] == [A[d]] + A[d + 1..];
    assert t'[..d] == t[..d];
  }

  /**
   * Where add_data's loop stops, at an even position on level d, every row
   * above d is untouched by the append, so the whole vector is the one
   * after it.
   */
  lemma AppendLoopExit<V, D>(H: Hasher<V, D>, empty: V, before: seq<V>, v: V, after: seq<V>,
                             t: seq<seq<D>>, depth: nat, d: nat)
    requires after == before + [v] && d <= depth
    requires TrailingOnes(|before|) == depth - d
    requires |t| == depth + 1
    requires t[d..] == Ideal(H, empty, after, depth)[d..]
    requires t[..d] == Ideal(H, empty, before, depth)[..d]
    ensures t == Ideal(H, empty, after, depth)
  {
    var A, B := Ideal(H, empty, after, depth), Ideal(H, empty, before, depth);
    forall e | 0 <= e < d
      ensures A[e] == B[e]
    {
      AppendLevelAbove(H, empty, before, v, depth, e);
    }
    assert A[..d] == B[..d];
    calc {
      t;
      t[..d] + t[d..];
      A[..d] + A[d..];
      A;
    }
  }
}
