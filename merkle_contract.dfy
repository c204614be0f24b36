/**
 * The smart-contract draft of the tree: a contract whose storage holds the
 * depth, a declared root digest, the appended balances, the levels and the
 * append cursor. Besides the append it generates an inclusion proof for an
 * appended position and verifies a value against such a proof.
 */
module MerkleContract {
  import opened MerkleSpec

  /** An unsigned 128-bit balance, the value type stored in the leaves. */
  newtype Balance = x: int | 0 <= x < 0x1_0000_0000_0000_0000_0000_0000_0000_0000

  /** A digest; the hash behind it is uninterpreted, so its width plays no part. */
  type Hash = seq<bv8>

  datatype Option<T> = None | Some(value: T)

  /** The leaf value whose digest fills every leaf before data arrives. */
  const Placeholder: Balance := 0

  /** One proof entry: a sibling digest and whether the running digest goes on its left. */
  type Entry = (Hash, bool)

  /**
   * The position on level d of the ancestor of leaf k in a tree of depth
   * `depth`, that is k >> (depth - d).
   */
  function PathIndex(depth: nat, k: nat, d: nat): (i: nat)
    requires k < Pow2(depth) && d <= depth
    ensures i < Pow2(d)
  {
    ShrBound(k, depth, depth - d);
    Shr(k, depth - d)
  }

  /**
   * The proof entry for position i of a level: its right neighbour, to be
   * hashed on the right, when i is even; its left neighbour, to be hashed on
   * the left, when i is odd.
   */
  function Sibling(row: seq<Hash>, i: nat): (e: Entry)
    requires i < |row| && |row| % 2 == 0
    ensures e.1 <==> i % 2 == 0
    ensures var s := if e.1 then i + 1 else i - 1;
            0 <= s < |row| && s != i && s / 2 == i / 2 && e.0 == row[s]
  {
    if i % 2 == 0 then (row[i + 1], true) else (row[i - 1], false)
  }

  /**
   * The proof entry for level d on the path of leaf k: the digest of the
   * other child of the path's level d - 1 node, flagged as hashed on the
   * right exactly when the path goes through the left child.
   */
  function LevelEntry(L: seq<seq<Hash>>, depth: nat, k: nat, d: nat): (e: Entry)
    requires Shaped(L, depth) && k < Pow2(depth) && 1 <= d <= depth
    ensures e.1 <==> PathIndex(depth, k, d) % 2 == 0
    ensures var s := if e.1 then PathIndex(depth, k, d) + 1 else PathIndex(depth, k, d) - 1;
            0 <= s < |L[d]| && s != PathIndex(depth, k, d) && s / 2 == PathIndex(depth, k, d - 1)
            && e.0 == L[d][s]
  {
    Sibling(L[d], PathIndex(depth, k, d))
  }

  /**
   * The inclusion proof for leaf k as the documentation of generate_proof
   * describes it: proof[0] carries the declared root, proof[d] the entry
   * for level d.
   */
  function Proof(L: seq<seq<Hash>>, root: Hash, depth: nat, k: nat): (proof: seq<Entry>)
    requires Shaped(L, depth) && k < Pow2(depth)
    ensures |proof| == depth + 1 && proof[0] == (root, true)
  {
    [(root, true)] + seq(depth, (m: nat) requires m < depth => LevelEntry(L, depth, k, m + 1))
  }

  /**
   * The entries generate_proof's loop pushes for levels d, d - 1, ..., 1,
   * in that order.
   */
  function Pushed(L: seq<seq<Hash>>, depth: nat, k: nat, d: nat): (r: seq<Entry>)
    requires Shaped(L, depth) && k < Pow2(depth) && d <= depth
    ensures |r| == d
    ensures forall m :: 0 <= m < d ==> r[m] == LevelEntry(L, depth, k, d - m)
  {
    if d == 0 then [] else [LevelEntry(L, depth, k, d)] + Pushed(L, depth, k, d - 1)
  }

  /**
   * generate_proof as written: the root slot, then the entries pushed from
   * the leaf level upward, so that slot m holds the entry for level
   * depth + 1 - m rather than level m.
   */
  function ProofAsWritten(L: seq<seq<Hash>>, root: Hash, depth: nat, k: nat): (proof: seq<Entry>)
    requires Shaped(L, depth) && k < Pow2(depth)
    ensures |proof| == depth + 1 && proof[0] == (root, true)
    ensures forall m :: 1 <= m <= depth ==> proof[m] == Proof(L, root, depth, k)[depth + 1 - m]
  {
    [(root, true)] + Pushed(L, depth, k, depth)
  }

  /**
   * The digest verify computes: starting from x, fold in the entries of
   * levels d, d - 1, ..., 1.
   */
  function Fold(c: (Hash, Hash) -> Hash, x: Hash, proof: seq<Entry>, d: nat): Hash
    requires d < |proof|
    decreases d
  {
    if d == 0 then x
    else Fold(c, if proof[d].1 then c(x, proof[d].0) else c(proof[d].0, x), proof, d - 1)
  }

  /** Whether the value v folds through the proof to the digest in its root slot. */
  function Verifies(H: Hasher<Balance, Hash>, v: Balance, proof: seq<Entry>, depth: nat): bool
    requires |proof| == depth + 1
  {
    Fold(H.combine, H.leaf(v), proof, depth) == proof[0].0
  }

  /** Every ancestor on the path of leaf k holds the combine of its children. */
  ghost predicate PathConsistent(c: (Hash, Hash) -> Hash, L: seq<seq<Hash>>, depth: nat, k: nat)
    requires Shaped(L, depth) && k < Pow2(depth)
  {
    forall d :: 0 <= d < depth ==> Combines(c, L, d, PathIndex(depth, k, d))
  }

  /**
   * Distinct inputs give distinct digests. Only a hypothesis of the lemmas
   * that need it: the source's combine maps two 32-byte digests to one
   * 32-byte digest, so it cannot be injective.
   */
  ghost predicate Injective(H: Hasher<Balance, Hash>)
  {
    && (forall a, b :: H.leaf(a) == H.leaf(b) ==> a == b)
    && (forall a, b, a', b' :: H.combine(a, b) == H.combine(a', b') ==> a == a' && b == b')
  }

  /**
   * Folding the proof of leaf k upward from the digest at its level-d
   * ancestor reaches the root digest when the path is consistent.
   */
  lemma {:induction false} FoldClimbs(c: (Hash, Hash) -> Hash, L: seq<seq<Hash>>, root: Hash, depth: nat, k: nat, d: nat, x: Hash)
    requires Shaped(L, depth) && k < Pow2(depth) && d <= depth
    requires PathConsistent(c, L, depth, k)
    requires x == L[d][PathIndex(depth, k, d)]
    ensures Fold(c, x, Proof(L, root, depth, k), d) == L[0][0]
    decreases d
  {
    var proof := Proof(L, root, depth, k);
    if d > 0 {
      var i := PathIndex(depth, k, d);
      var q := PathIndex(depth, k, d - 1);
      assert q == i / 2;
      assert proof[d] == Sibling(L[d], i);
      assert Combines(c, L, d - 1, q);
      var y := if proof[d].1 then c(x, proof[d].0) else c(proof[d].0, x);
      assert y == L[d - 1][q];
      FoldClimbs(c, L, root, depth, k, d - 1, y);
    }
  }

  /**
   * Round trip: when every ancestor of leaf k holds the combine of its
   * children and the declared root is the digest at the top, the value
   * whose digest sits at leaf k verifies against the proof for k.
   */
  lemma RoundTrip(H: Hasher<Balance, Hash>, L: seq<seq<Hash>>, root: Hash, depth: nat, k: nat, v: Balance)
    requires Shaped(L, depth) && k < Pow2(depth)
    requires PathConsistent(H.combine, L, depth, k)
    requires L[depth][k] == H.leaf(v) && root == L[0][0]
    ensures Verifies(H, v, Proof(L, root, depth, k), depth)
  {
    FoldClimbs(H.combine, L, root, depth, k, depth, H.leaf(v));
  }

  /** With an injective combine, folding a proof determines its starting digest. */
  lemma {:induction false} FoldInjective(H: Hasher<Balance, Hash>, x: Hash, y: Hash, proof: seq<Entry>, d: nat)
    requires Injective(H) && d < |proof|
    requires Fold(H.combine, x, proof, d) == Fold(H.combine, y, proof, d)
    ensures x == y
    decreases d
  {
    if d > 0 {
      var c := H.combine;
      FoldInjective(H, if proof[d].1 then c(x, proof[d].0) else c(proof[d].0, x),
                       if proof[d].1 then c(y, proof[d].0) else c(proof[d].0, y), proof, d - 1);
    }
  }

  /**
   * Binding: if the digests are injective, the only value that verifies
   * against the proof for leaf k of a consistent path is the value whose
   * digest sits at leaf k. This is stated under that hypothesis because the
   * source's combine, from 64 bytes to 32, cannot be injective.
   */
  lemma Binding(H: Hasher<Balance, Hash>, L: seq<seq<Hash>>, root: Hash, depth: nat, k: nat, v: Balance, w: Balance)
    requires Shaped(L, depth) && k < Pow2(depth)
    requires Injective(H)
    requires PathConsistent(H.combine, L, depth, k)
    requires L[depth][k] == H.leaf(w) && root == L[0][0]
    requires Verifies(H, v, Proof(L, root, depth, k), depth)
    ensures v == w
  {
    RoundTrip(H, L, root, depth, k, w);
    FoldInjective(H, H.leaf(v), H.leaf(w), Proof(L, root, depth, k), depth);
  }

  /** The levels of a full tree are consistent along every path. */
  lemma FullPathConsistent(H: Hasher<Balance, Hash>, data: seq<Balance>, depth: nat, k: nat)
    requires |data| == Pow2(depth) && k < Pow2(depth)
    ensures PathConsistent(H.combine, Ideal(H, Placeholder, data, depth), depth, k)
  {
    var L := Ideal(H, Placeholder, data, depth);
    forall d | 0 <= d < depth
      ensures Combines(H.combine, L, d, PathIndex(depth, k, d))
    {
      FullComplete(depth, d, PathIndex(depth, k, d));
      IdealCombines(H, Placeholder, data, depth, d, PathIndex(depth, k, d));
    }
  }

  /**
   * For depth 0 and 1 the proof as written coincides with the documented
   * one, since the two orders agree when at most one level is pushed.
   */
  lemma ProofAsWrittenShallow(L: seq<seq<Hash>>, root: Hash, depth: nat, k: nat)
    requires Shaped(L, depth) && k < Pow2(depth) && depth <= 1
    ensures ProofAsWritten(L, root, depth, k) == Proof(L, root, depth, k)
  {
  }

  /** A one-byte leaf digest and concatenation as combine: a concrete hasher for counterexamples. */
  function ByteDigest(b: Balance): (x: Hash)
    ensures |x| == 1
  {
    if b == 0 then [0] else [1]
  }

  function Concat(x: Hash, y: Hash): (z: Hash)
    ensures |z| == |x| + |y| && z[..|x|] == x && z[|x|..] == y
  {
    x + y
  }

  /** The levels of the full depth-2 tree over [0, 1, 0, 0] under ByteDigest and Concat. */
  lemma CounterexampleLevels()
    ensures Ideal(Hasher(ByteDigest, Concat), Placeholder, [0, 1, 0, 0], 2)
            == [[[0, 1, 0, 0]], [[0, 1], [0, 0]], [[0], [1], [0], [0]]]
  {
    var H := Hasher(ByteDigest, Concat);
    var data: seq<Balance> := [0, 1, 0, 0];
    var L := Ideal(H, Placeholder, data, 2);
    assert Pow2(2) == 4 && Pow2(1) == 2;
    forall j | 0 <= j < 4 ensures L[2][j] == H.leaf(data[j]) {
      IdealAt(H, Placeholder, data, 2, 2, j);
    }
    assert L[2] == [[0], [1], [0], [0]];
    forall j | 0 <= j < 2 ensures L[1][j] == L[2][2 * j] + L[2][2 * j + 1] {
      FullComplete(2, 1, j);
      IdealCombines(H, Placeholder, data, 2, 1, j);
    }
    assert L[1][0] == [0] + [1] == [0, 1];
    assert L[1][1] == [0] + [0] == [0, 0];
    assert L[1] == [[0, 1], [0, 0]];
    FullComplete(2, 0, 0);
    IdealCombines(H, Placeholder, data, 2, 0, 0);
    assert L[0][0] == [0, 1] + [0, 0] == [0, 1, 0, 0];
    assert L[0] == [[0, 1, 0, 0]];
  }

  /**
   * Counterexample to the round trip of the code as written: in the full
   * depth-2 tree over [0, 1, 0, 0] under ByteDigest and Concat, whose
   * declared root is the computed one, the documented proof for leaf 0
   * verifies, but the proof as written folds in the upper sibling first
   * and does not reach the root.
   */
  lemma ReversedProofRejectsAppendedLeaf()
    ensures var H := Hasher(ByteDigest, Concat);
            var L := Ideal(H, Placeholder, [0, 1, 0, 0], 2);
            && Verifies(H, 0, Proof(L, L[0][0], 2, 0), 2)
            && !Verifies(H, 0, ProofAsWritten(L, L[0][0], 2, 0), 2)
  {
    var H := Hasher(ByteDigest, Concat);
    var L := Ideal(H, Placeholder, [0, 1, 0, 0], 2);
    CounterexampleLevels();
    assert PathIndex(2, 0, 1) == 0 && PathIndex(2, 0, 2) == 0;
    var good := Proof(L, L[0][0], 2, 0);
    assert good[1] == ([0, 0], true) && good[2] == ([1], true);
    assert Fold(H.combine, [0], good, 2) == [0, 1, 0, 0];
    var bad := ProofAsWritten(L, L[0][0], 2, 0);
    assert bad[1] == ([1], true) && bad[2] == ([0, 0], true);
    assert Fold(H.combine, [0], bad, 2) == [0, 0, 0, 1];
  }

  /**
   * The build loop of new as written, from the rows pushed so far: the rows
   * for levels d - 1 down to 0 are computed in turn, the one for level e
   * from row e + 1 of the vector, and pushed at its end. None stands for an
   * index out of range, where the source panics.
   */
  function BuildAsWritten(c: (Hash, Hash) -> Hash, tree: seq<seq<Hash>>, d: nat): (r: Option<seq<seq<Hash>>>)
    ensures r.Some? ==> |r.value| == |tree| + d && r.value[..|tree|] == tree
    ensures r.Some? && d > 0 ==> d < |tree|
    decreases d
  {
    if d == 0 then Some(tree)
    else if d >= |tree| || |tree[d]| < Pow2(d) then None
    else
      var n := Pow2(d - 1);
      BuildAsWritten(c, tree + [seq(n, (i: nat) requires i < n => c(tree[d][2 * i], tree[d][2 * i + 1]))], d - 1)
  }

  /**
   * new as written pushes the single root row [calculate_hash(0)] first, so
   * its build loop fails for every depth of at least 1 and yields that row
   * alone for depth 0.
   */
  lemma NewAsWritten(H: Hasher<Balance, Hash>, depth: nat)
    ensures depth == 0 <==> BuildAsWritten(H.combine, [[H.leaf(Placeholder)]], depth).Some?
    ensures depth == 0 ==> BuildAsWritten(H.combine, [[H.leaf(Placeholder)]], depth) == Some([[H.leaf(Placeholder)]])
  {
  }

  /**
   * The levels of a fresh tree of the given depth, built bottom-up: 2^depth
   * placeholder leaves, then each level from the combines of the one below.
   */
  method BuildLevels(hasher: Hasher<Balance, Hash>, depth: nat) returns (rows: seq<seq<Hash>>)
    ensures rows == Ideal(hasher, Placeholder, [], depth)
  {
    ghost var empty := Ideal(hasher, Placeholder, [], depth);
    IdealEmpty(hasher, Placeholder, depth, depth);
    rows := [seq(Pow2(depth), _ => hasher.leaf(Placeholder))];
    var d: nat := depth;
    while d > 0
      invariant d <= depth && rows == empty[d..]
    {
      d := d - 1;
      ghost var h: nat := depth - d;
      IdealEmpty(hasher, Placeholder, depth, d + 1);
      assert rows[0] == seq(2 * Pow2(d), _ => EmptyRoot(hasher, Placeholder, h - 1));
      var row: seq<Hash> := [];
      var i: nat := 0;
      while i < Pow2(d)
        invariant i <= Pow2(d)
        invariant row == seq(i, _ => EmptyRoot(hasher, Placeholder, h))
      {
        row := row + [hasher.combine(rows[0][2 * i], rows[0][2 * i + 1])];
        i := i + 1;
      }
      IdealEmpty(hasher, Placeholder, depth, d);
      rows := [row] + rows;
    }
  }

  class MerkleTree {
    /** calculate_hash and concat_hash. */
    const hasher: Hasher<Balance, Hash>
    const depth: nat
    /** The declared root, stored as given and never compared with the levels. */
    const rootHash: Hash
    var data: seq<Balance>
    var tree: seq<seq<Hash>>
    var index: nat

    /**
     * The appended balances are exactly the first `index` leaves, and every
     * level holds the digests the appends so far leave there.
     */
    ghost predicate Valid()
      reads this
    {
      |data| == index <= Pow2(depth) && tree == Ideal(hasher, Placeholder, data, depth)
    }

    /**
     * new, with the levels built bottom-up from 2^depth placeholder leaves:
     * every node holds the combine of its children. For depth 0 this is the
     * single row [calculate_hash(0)] that the draft builds.
     */
    constructor (depth: nat, rootHash: Hash, hasher: Hasher<Balance, Hash>)
      ensures Valid()
      ensures this.depth == depth && this.rootHash == rootHash && this.hasher == hasher
      ensures data == [] && index == 0
      ensures forall j :: 0 <= j < Pow2(depth) ==> tree[depth][j] == hasher.leaf(Placeholder)
      ensures forall d, j :: 0 <= d < depth && 0 <= j < Pow2(d) ==> Combines(hasher.combine, tree, d, j)
      ensures depth == 0 ==> tree == [[hasher.leaf(Placeholder)]]
    {
      this.depth := depth;
      this.rootHash := rootHash;
      this.hasher := hasher;
      var rows := BuildLevels(hasher, depth);
      data := [];
      tree := rows;
      index := 0;
      new;
      forall d, j | 0 <= d < depth && 0 <= j < Pow2(d)
        ensures Combines(hasher.combine, tree, d, j)
      {
        IdealCombines(hasher, Placeholder, [], depth, d, j);
      }
      IdealEmpty(hasher, Placeholder, depth, depth);
      if depth == 0 {
        assert tree[0] == [hasher.leaf(Placeholder)];
      }
    }

    /**
     * add_data: on a full tree nothing changes; otherwise the balance is
     * appended, its digest written at the cursor's leaf, every ancestor the
     * loop visits recomputed from its children, and the cursor advanced.
     */
    method AddData(v: Balance)
      requires Valid()
      modifies this
      ensures Valid()
      ensures old(index) == Pow2(depth) ==> data == old(data) && tree == old(tree) && index == old(index)
      ensures old(index) < Pow2(depth) ==>
                && data == old(data) + [v]
                && index == old(index) + 1
                && tree[depth] == old(tree)[depth][old(index) := hasher.leaf(v)]
                && PathRewritten(hasher.combine, old(tree), tree, old(index), depth)
    {
      if index == Pow2(depth) {
        return;
      }
      ghost var before := data;
      ghost var B := tree;
      var k := index;
      var after := data + [v];
      ghost var A := Ideal(hasher, Placeholder, after, depth);
      var t := tree;
      AppendLoopStart(hasher, Placeholder, before, v, after, t, depth);
      t := t[depth := t[depth][k := hasher.leaf(v)]];
      var i: nat := k;
      var d: nat := depth;
      ghost var h: nat := 0;
      while i % 2 == 1
        invariant d <= depth && h == depth - d && i < Pow2(d)
        invariant Recomputed(k, h, i) && TrailingOnes(k) == h + TrailingOnes(i)
        invariant |t| == depth + 1 && t[d..] == A[d..] && t[..d] == B[..d]
        invariant data == before && tree == B && index == k
        decreases d
      {
        ClimbStep(k, h, i);
        i := i / 2;
        d := d - 1;
        h := h + 1;
        AppendLoopStep(hasher, Placeholder, before, v, after, t, depth, d, h, i);
        t := t[d := t[d][i := hasher.combine(t[d + 1][2 * i], t[d + 1][2 * i + 1])]];
      }
      AppendLoopExit(hasher, Placeholder, before, v, after, t, depth, d);
      data := after;
      tree := t;
      index := index + 1;
      AppendLevels(hasher, Placeholder, before, v, after, B, tree, depth);
    }

    /**
     * generate_proof: empty for a position not yet appended; otherwise the
     * declared root followed by the entry for each level d, found by
     * halving the position once per level on the way up.
     */
    method GenerateProof(k: nat) returns (proof: seq<Entry>)
      requires Valid()
      ensures k >= index ==> proof == []
      ensures k < index ==> proof == Proof(tree, rootHash, depth, k)
    {
      if k >= index {
        return [];
      }
      var entries: seq<Entry> := [];
      var i: nat := k;
      var d: nat := depth;
      while d > 0
        invariant d <= depth && i == PathIndex(depth, k, d)
        invariant entries == Proof(tree, rootHash, depth, k)[d + 1..]
      {
        var entry := if i % 2 == 0 then (tree[d][i + 1], true) else (tree[d][i - 1], false);
        entries := [entry] + entries;
        i := i / 2;
        d := d - 1;
      }
      proof := [(rootHash, true)] + entries;
    }

    /**
     * verify: fold the value's digest through the proof for position k and
     * compare with the root slot. A position not yet appended gets an empty
     * proof, which the draft then indexes out of range, so k < index is
     * required.
     */
    method Verify(v: Balance, k: nat) returns (ok: bool)
      requires Valid() && k < index
      ensures ok == Verifies(hasher, v, Proof(tree, rootHash, depth, k), depth)
    {
      var proof := GenerateProof(k);
      var hash := hasher.leaf(v);
      var d: nat := depth;
      while d > 0
        invariant d <= depth
        invariant Fold(hasher.combine, hash, proof, d) == Fold(hasher.combine, hasher.leaf(v), proof, depth)
      {
        if proof[d].1 {
          hash := hasher.combine(hash, proof[d].0);
        } else {
          hash := hasher.combine(proof[d].0, hash);
        }
        d := d - 1;
      }
      ok := hash == proof[0].0;
    }

    /**
     * Once every leaf is appended and the declared root is the computed one,
     * every appended balance verifies at its own position.
     */
    lemma AppendedVerifies(k: nat)
      requires Valid() && index == Pow2(depth) && rootHash == tree[0][0] && k < index
      ensures Verifies(hasher, data[k], Proof(tree, rootHash, depth, k), depth)
    {
      FullPathConsistent(hasher, data, depth, k);
      IdealAt(hasher, Placeholder, data, depth, depth, k);
      RoundTrip(hasher, tree, rootHash, depth, k, data[k]);
    }

    /**
     * On a full tree whose declared root is the computed one, and with
     * injective digests, a balance verifies at position k only if it is the
     * balance appended there.
     */
    lemma OnlyAppendedVerifies(k: nat, v: Balance)
      requires Valid() && index == Pow2(depth) && rootHash == tree[0][0] && k < index
      requires Injective(hasher)
      requires Verifies(hasher, v, Proof(tree, rootHash, depth, k), depth)
      ensures v == data[k]
    {
      FullPathConsistent(hasher, data, depth, k);
      IdealAt(hasher, Placeholder, data, depth, depth, k);
      Binding(hasher, tree, rootHash, depth, k, v, data[k]);
    }
  }

  /**
   * The depth-0 scenario: a single row holding calculate_hash(0); after one
   * append the root is the digest of that balance and the cursor is 1.
   */
  method DepthZeroScenario(hasher: Hasher<Balance, Hash>, root: Hash) returns (mt: MerkleTree)
    ensures mt.Valid() && mt.depth == 0 && mt.rootHash == root
    ensures mt.data == [10] && mt.index == 1 && mt.tree == [[hasher.leaf(10)]]
  {
    mt := new MerkleTree(0, root, hasher);
    assert mt.tree == [[hasher.leaf(Placeholder)]];
    mt.AddData(10);
    assert mt.tree[0] == [hasher.leaf(10)];
    assert mt.tree == [mt.tree[0]];
  }
}
