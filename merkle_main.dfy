/**
 * The first draft of the tree: a record holding the depth, a declared root
 * digest, a fixed vector of 2^depth leaf strings, one vector of 64-bit
 * digests per level and the append cursor. new_tree allocates every level
 * and builds it bottom-up; add_data overwrites the leaf at the cursor and
 * recomputes the ancestors that the new leaf completes.
 */
module MerkleMain {
  import opened MerkleSpec

  /** The 64-bit digest DefaultHasher produces; its computation is left abstract. */
  type Digest = bv64

  /** The string every leaf slot holds before data arrives. */
  const Blank: string := ""

  /** The inner loop of new_tree: each node of a level becomes the combine of its two children. */
  method FillLevel(c: (Digest, Digest) -> Digest, row: array<Digest>, below: array<Digest>)
    requires below.Length == 2 * row.Length && row != below
    modifies row
    ensures forall i :: 0 <= i < row.Length ==> row[i] == c(below[2 * i], below[2 * i + 1])
  {
    var i: nat := 0;
    while i < row.Length
      invariant i <= row.Length
      invariant forall m :: 0 <= m < i ==> row[m] == c(below[2 * m], below[2 * m + 1])
    {
      row[i] := c(below[2 * i], below[2 * i + 1]);
      i := i + 1;
    }
  }

  /**
   * One level of new_tree above a level of blank subtrees of height h - 1:
   * half as many nodes, each the digest of a blank subtree of height h.
   */
  method BlankLevel(hasher: Hasher<string, Digest>, below: array<Digest>, ghost h: nat) returns (row: array<Digest>)
    requires h > 0 && below.Length % 2 == 0
    requires forall j :: 0 <= j < below.Length ==> below[j] == EmptyRoot(hasher, Blank, h - 1)
    ensures fresh(row) && row.Length == below.Length / 2
    ensures forall i :: 0 <= i < row.Length ==> row[i] == EmptyRoot(hasher, Blank, h)
  {
    row := new Digest[below.Length / 2];
    FillLevel(hasher.combine, row, below);
    forall i | 0 <= i < row.Length
      ensures row[i] == EmptyRoot(hasher, Blank, h)
    {
      assert below[2 * i] == EmptyRoot(hasher, Blank, h - 1);
      assert below[2 * i + 1] == EmptyRoot(hasher, Blank, h - 1);
    }
  }

  /**
   * The levels new_tree allocates and fills: 2^depth leaves holding the
   * digest of the blank string, then each level from depth - 1 up to the
   * root filled from the one below it, so that every node holds the digest
   * of a blank subtree of its height.
   */
  method NewLevels(hasher: Hasher<string, Digest>, depth: nat) returns (rows: seq<array<Digest>>)
    ensures |rows| == depth + 1
    ensures forall e :: 0 <= e <= depth ==> fresh(rows[e]) && rows[e].Length == Pow2(e)
    ensures forall e, j :: 0 <= e <= depth && 0 <= j < rows[e].Length ==> rows[e][j] == EmptyRoot(hasher, Blank, depth - e)
    ensures forall e, e' :: 0 <= e < e' <= depth ==> rows[e] != rows[e']
  {
    var leaves := new Digest[Pow2(depth)](_ => hasher.leaf(Blank));
    rows := [leaves];
    var d: nat := depth;
    while d > 0
      invariant d <= depth && |rows| == depth + 1 - d
      invariant forall e :: 0 <= e < |rows| ==> fresh(rows[e]) && rows[e].Length == Pow2(d + e)
      invariant forall e, j :: 0 <= e < |rows| && 0 <= j < rows[e].Length ==> rows[e][j] == EmptyRoot(hasher, Blank, depth - d - e)
      invariant forall e, e' :: 0 <= e < e' < |rows| ==> rows[e] != rows[e']
    {
      var row := BlankLevel(hasher, rows[0], depth - d + 1);
      rows := [row] + rows;
      d := d - 1;
    }
  }

  /** The digests the level vectors hold, root level first. */
  ghost function Contents(rows: seq<array<Digest>>): (c: seq<seq<Digest>>)
    reads rows
    ensures |c| == |rows| && forall d :: 0 <= d < |rows| ==> c[d] == rows[d][..]
  {
    seq(|rows|, (d: int) requires 0 <= d < |rows| reads rows => rows[d][..])
  }

  /** One node store into a level vector; the other vectors, being distinct from it, keep their contents. */
  method SetNode(rows: seq<array<Digest>>, d: nat, i: nat, x: Digest)
    requires d < |rows| && i < rows[d].Length
    requires forall e :: 0 <= e < |rows| && e != d ==> rows[e] != rows[d]
    modifies rows[d]
    ensures Contents(rows) == old(Contents(rows))[d := old(Contents(rows))[d][i := x]]
  {
    rows[d][i] := x;
  }

  /** Writing v into the first blank slot k extends the filled prefix by v and leaves the later slots blank. */
  lemma FillSlot(data: seq<string>, k: nat, v: string, filled: seq<string>)
    requires k < |data| && forall j :: k <= j < |data| ==> data[j] == Blank
    requires filled == data[k := v]
    ensures filled[..k + 1] == data[..k] + [v]
    ensures forall j :: k + 1 <= j < |filled| ==> filled[j] == Blank
  {
  }

  /**
   * The store of one iteration of add_data's upward loop: the node at level
   * d, position i becomes the combine of its two children on level d + 1.
   */
  method RehashNode(hasher: Hasher<string, Digest>, tree: seq<array<Digest>>, d: nat, i: nat)
    requires d + 1 < |tree| && i < tree[d].Length && 2 * i + 1 < tree[d + 1].Length
    requires forall e :: 0 <= e < |tree| && e != d ==> tree[e] != tree[d]
    modifies tree[d]
    ensures var C := old(Contents(tree));
            Contents(tree) == C[d := C[d][i := hasher.combine(C[d + 1][2 * i], C[d + 1][2 * i + 1])]]
  {
    SetNode(tree, d, i, hasher.combine(tree[d + 1][2 * i], tree[d + 1][2 * i + 1]));
  }

  /**
   * The upward loop of add_data, entered with the leaf of an append at
   * position k already written: while the position is odd it moves to the
   * parent and recomputes that node from its two children. It leaves every
   * level as the append makes it.
   */
  method Rehash(hasher: Hasher<string, Digest>, tree: seq<array<Digest>>, depth: nat, k: nat,
                ghost before: seq<string>, ghost v: string, ghost after: seq<string>)
    requires after == before + [v] && |before| == k < Pow2(depth)
    requires |tree| == depth + 1 && forall d, e :: 0 <= d < e <= depth ==> tree[d] != tree[e]
    requires Contents(tree)[depth..] == Ideal(hasher, Blank, after, depth)[depth..]
    requires Contents(tree)[..depth] == Ideal(hasher, Blank, before, depth)[..depth]
    modifies tree
    ensures Contents(tree) == Ideal(hasher, Blank, after, depth)
  {
    ghost var A, B := Ideal(hasher, Blank, after, depth), Ideal(hasher, Blank, before, depth);
    ghost var T := Contents(tree);
    var i: nat := k;
    var d: nat := depth;
    ghost var h: nat := 0;
    while i % 2 == 1
      invariant d <= depth && h == depth - d && i < Pow2(d)
      invariant Recomputed(k, h, i) && TrailingOnes(k) == h + TrailingOnes(i)
      invariant Contents(tree) == T && |T| == depth + 1
      invariant T[d..] == A[d..] && T[..d] == B[..d]
      decreases d
    {
      ClimbStep(k, h, i);
      assert Pow2(d) == 2 * Pow2(d - 1) && i / 2 < Pow2(d - 1);
      i := i / 2;
      d := d - 1;
      h := h + 1;
      AppendLoopStep(hasher, Blank, before, v, after, T, depth, d, h, i);
      RehashNode(hasher, tree, d, i);
      T := T[d := T[d][i := hasher.combine(T[d + 1][2 * i], T[d + 1][2 * i + 1])]];
    }
    assert TrailingOnes(i) == 0;
    AppendLoopExit(hasher, Blank, before, v, after, T, depth, d);
  }

  /**
   * The tree part of add_data for an append at position k: the leaf takes
   * the digest of v, then the upward loop rehashes the path. The levels go
   * from those after `before` to those after `before + [v]`: the leaf is set
   * and every other node is either kept or rewritten as the combine of its
   * children.
   */
  method AppendLeaf(hasher: Hasher<string, Digest>, tree: seq<array<Digest>>, depth: nat, k: nat,
                    v: string, ghost before: seq<string>)
    requires |before| == k < Pow2(depth)
    requires |tree| == depth + 1 && forall d, e :: 0 <= d < e <= depth ==> tree[d] != tree[e]
    requires Contents(tree) == Ideal(hasher, Blank, before, depth)
    modifies tree
    ensures Contents(tree) == Ideal(hasher, Blank, before + [v], depth)
    ensures Contents(tree)[depth] == old(Contents(tree))[depth][k := hasher.leaf(v)]
    ensures PathRewritten(hasher.combine, old(Contents(tree)), Contents(tree), k, depth)
  {
    ghost var after := before + [v];
    ghost var B := Contents(tree);
    AppendLoopStart(hasher, Blank, before, v, after, B, depth);
    SetNode(tree, depth, k, hasher.leaf(v));
    Rehash(hasher, tree, depth, k, before, v, after);
    AppendLevels(hasher, Blank, before, v, after, B, Contents(tree), depth);
  }

  /** Levels of blank subtrees of the right heights are the levels of a tree with nothing appended. */
  lemma BlankLevels(hasher: Hasher<string, Digest>, rows: seq<array<Digest>>, depth: nat)
    requires |rows| == depth + 1
    requires forall e :: 0 <= e <= depth ==> rows[e].Length == Pow2(e)
    requires forall e, j :: 0 <= e <= depth && 0 <= j < rows[e].Length ==> rows[e][j] == EmptyRoot(hasher, Blank, depth - e)
    ensures Contents(rows) == Ideal(hasher, Blank, [], depth)
  {
    forall e | 0 <= e <= depth
      ensures rows[e][..] == Ideal(hasher, Blank, [], depth)[e]
    {
      IdealEmpty(hasher, Blank, depth, e);
    }
  }

  class MerkleTree {
    /** calculate_hash on a leaf string, and on the decimal concatenation of two digests. */
    const hasher: Hasher<string, Digest>
    const depth: nat
    /** The declared root, stored as given and never compared with the levels. */
    const rootHash: Digest
    var data: seq<string>
    const tree: seq<array<Digest>>
    var index: nat

    /**
     * The level vectors are distinct; the first `index` slots hold the
     * appended strings and the rest are still blank; every level holds the
     * digests the appends so far leave there.
     */
    ghost predicate Valid()
      reads this, tree
    {
      && |data| == Pow2(depth) && index <= Pow2(depth) && |tree| == depth + 1
      && (forall d, e :: 0 <= d < e <= depth ==> tree[d] != tree[e])
      && (forall j :: index <= j < |data| ==> data[j] == Blank)
      && Contents(tree) == Ideal(hasher, Blank, data[..index], depth)
    }

    /**
     * new_tree: 2^depth blank slots, 2^depth leaves holding the digest of
     * the blank string, and every level above built from the one below, so
     * that each internal node is the combine of its children.
     */
    constructor (depth: nat, rootHash: Digest, hasher: Hasher<string, Digest>)
      ensures Valid()
      ensures |tree| == depth + 1 && forall d :: 0 <= d <= depth ==> fresh(tree[d])
      ensures this.depth == depth && this.rootHash == rootHash && this.hasher == hasher && index == 0
      ensures data == seq(Pow2(depth), _ => Blank)
      ensures Contents(tree) == Ideal(hasher, Blank, [], depth)
    {
      this.depth := depth;
      this.rootHash := rootHash;
      this.hasher := hasher;
      data := seq(Pow2(depth), _ => Blank);
      var rows := NewLevels(hasher, depth);
      tree := rows;
      index := 0;
      new;
      BlankLevels(hasher, tree, depth);
    }

    /**
     * add_data: nothing once all 2^depth slots are taken; otherwise the
     * string goes into the slot at the cursor, its digest into the leaf, and
     * each ancestor the new leaf completes is recomputed from its children,
     * climbing while the position is odd; then the cursor advances.
     */
    method AddData(v: string)
      requires Valid()
      modifies this, tree
      ensures Valid()
      ensures old(index) == Pow2(depth) ==>
                data == old(data) && Contents(tree) == old(Contents(tree)) && index == old(index)
      ensures old(index) < Pow2(depth) ==>
                && data == old(data)[old(index) := v]
                && index == old(index) + 1
                && Contents(tree)[depth] == old(Contents(tree))[depth][old(index) := hasher.leaf(v)]
                && PathRewritten(hasher.combine, old(Contents(tree)), Contents(tree), old(index), depth)
    {
      if index == Pow2(depth) {
        return;
      }
      var k := index;
      ghost var before := data[..k];
      ghost var T0 := Contents(tree);
      FillSlot(data, k, v, data[k := v]);
      data := data[k := v];
      assert Contents(tree) == T0;
      AppendLeaf(hasher, tree, depth, k, v, before);
      index := index + 1;
      assert data[..index] == before + [v];
    }

    /**
     * Because an unused slot holds the blank string and a blank leaf holds
     * its digest, every leaf is the digest of the string in its slot.
     */
    lemma LeafRow()
      requires Valid()
      ensures forall j :: 0 <= j < Pow2(depth) ==> Contents(tree)[depth][j] == hasher.leaf(data[j])
    {
      forall j | 0 <= j < Pow2(depth)
        ensures Contents(tree)[depth][j] == hasher.leaf(data[j])
      {
        IdealAt(hasher, Blank, data[..index], depth, depth, j);
      }
    }

    /**
     * Every node whose whole leaf range has been appended holds the Merkle
     * root of the strings in that range and is the combine of its children;
     * every other node still holds the blank digest it was built with.
     */
    lemma CompleteNodes()
      requires Valid()
      ensures forall d, j :: 0 <= d <= depth && 0 <= j < Pow2(d) && Complete(index, depth - d, j) ==>
                Contents(tree)[d][j] == MerkleRoot(hasher, data, depth - d, j)
      ensures forall d, j :: 0 <= d < depth && 0 <= j < Pow2(d) && Complete(index, depth - d, j) ==>
                Combines(hasher.combine, Contents(tree), d, j)
      ensures forall d, j :: 0 <= d <= depth && 0 <= j < Pow2(d) && !Complete(index, depth - d, j) ==>
                Contents(tree)[d][j] == EmptyRoot(hasher, Blank, depth - d)
    {
      var prefix := data[..index];
      assert prefix + data[index..] == data;
      forall d, j | 0 <= d <= depth && 0 <= j < Pow2(d)
        ensures Complete(index, depth - d, j) ==> Contents(tree)[d][j] == MerkleRoot(hasher, data, depth - d, j)
        ensures !Complete(index, depth - d, j) ==> Contents(tree)[d][j] == EmptyRoot(hasher, Blank, depth - d)
      {
        IdealAt(hasher, Blank, prefix, depth, d, j);
        if Complete(index, depth - d, j) {
          MerkleRootPrefix(hasher, prefix, data[index..], depth - d, j);
        }
      }
      forall d, j | 0 <= d < depth && 0 <= j < Pow2(d) && Complete(index, depth - d, j)
        ensures Combines(hasher.combine, Contents(tree), d, j)
      {
        IdealCombines(hasher, Blank, prefix, depth, d, j);
      }
    }

    /**
     * A node all of whose slots lie past the cursor, and so hold "", holds
     * the Merkle root of those slots: together with CompleteNodes, every
     * node whose slots are all appended or all blank holds the Merkle root
     * of its slots.
     */
    lemma BlankNodes()
      requires Valid()
      ensures forall d, j :: 0 <= d <= depth && 0 <= j < Pow2(d) &&
                             Untouched(index, depth - d, j) && Complete(|data|, depth - d, j) ==>
                Contents(tree)[d][j] == MerkleRoot(hasher, data, depth - d, j)
    {
      BlankRoots(hasher, Blank, data, index, depth);
    }

    /** Once every slot is taken, the root is the Merkle root of all the strings. */
    lemma FullTreeRoot()
      requires Valid() && index == Pow2(depth)
      ensures Contents(tree)[0][0] == MerkleRoot(hasher, data, depth, 0)
    {
      assert data[..index] == data;
      FullRoot(hasher, Blank, data, depth);
    }
  }

  /**
   * The driver: a tree of depth 3 with the declared root
   * 1556255166675498662 receives eight strings, which fills it, so its
   * root is the Merkle root of the strings in its slots.
   */
  method FillDepthThree(hasher: Hasher<string, Digest>) returns (mt: MerkleTree)
    ensures mt.Valid() && mt.hasher == hasher && mt.depth == 3 && mt.index == 8
    ensures mt.rootHash == 1556255166675498662
    ensures Contents(mt.tree)[0][0] == MerkleRoot(hasher, mt.data, 3, 0)
  {
    mt := new MerkleTree(3, 1556255166675498662, hasher);
    assert Pow2(3) == 8;
    mt.AddData("foo");
    mt.AddData("bar");
    mt.AddData("baz");
    mt.AddData("yup");
    mt.AddData("maw");
    mt.AddData("wap");
    mt.AddData("pit");
    mt.AddData("fos");
    mt.FullTreeRoot();
  }
}
