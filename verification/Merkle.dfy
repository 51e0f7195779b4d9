/** Byte strings and the digests a 256-bit hash makes of them. */
module Bytes {
  newtype Byte = b: int | 0 <= b < 256

  type Bytes = seq<Byte>

  type Digest = d: Bytes | |d| == 32 witness seq(32, _ => 0)

  /** Two different inputs, one from each set, that the hash sends to the same digest. */
  ghost predicate Collision(hash: Bytes -> Digest, a: set<Bytes>, b: set<Bytes>) {
    exists x, y :: x in a && y in b && x != y && hash(x) == hash(y)
  }
}

/** The padded Merkle tree: what its root means, and the two loops that build it and take proofs from it. */
module Merkle {
  import opened Bytes

  /** The 64 bytes a parent hashes. */
  function Pair(a: Digest, b: Digest): Bytes {
    var left: Bytes, right: Bytes := a, b;
    left + right
  }

  // ----- Sizes -----

  predicate PowerOfTwo(n: int) {
    n == 1 || (n > 1 && n % 2 == 0 && PowerOfTwo(n / 2))
  }

  /** The height of a perfect tree with `n` leaves. */
  function Log2(n: nat): nat {
    if n <= 1 then 0 else 1 + Log2(n / 2)
  }

  /** The least power of two that is at least `n`: the integer meaning of `2^ceil(log2(n))`, and 1 for `n <= 1`. */
  function NextPowerOfTwo(n: int): (p: nat)
    ensures PowerOfTwo(p) && p >= n
    ensures forall q: nat :: PowerOfTwo(q) && q >= n ==> p <= q
    decreases if n > 1 then n else 0
  {
    if n <= 1 then 1 else 2 * NextPowerOfTwo((n + 1) / 2)
  }

  // ----- The tree -----

  /** The root of a tree, top down: the reference both loops are measured against. */
  function TreeRoot(hash: Bytes -> Digest, leaves: seq<Digest>): Digest
    requires leaves != []
    decreases |leaves|
  {
    if |leaves| == 1 then leaves[0]
    else
      var h := |leaves| / 2;
      hash(Pair(TreeRoot(hash, leaves[..h]), TreeRoot(hash, leaves[h..])))
  }

  /** One level up. */
  function Parents(hash: Bytes -> Digest, level: seq<Digest>): (up: seq<Digest>)
    requires |level| % 2 == 0
    ensures |up| == |level| / 2
    ensures forall j :: 0 <= j < |up| ==> up[j] == hash(Pair(level[2 * j], level[2 * j + 1]))
  {
    seq(|level| / 2, j requires 0 <= j < |level| / 2 => hash(Pair(level[2 * j], level[2 * j + 1])))
  }

  // ----- Which side comes first -----

  /** Parent `j` of a level is the hash of node `2 * j` followed by node `2 * j + 1`. */
  lemma ParentIs(hash: Bytes -> Digest, level: seq<Digest>, j: nat)
    requires |level| % 2 == 0 && 2 * j < |level|
    ensures var left: Bytes, right: Bytes := level[2 * j], level[2 * j + 1];
            Parents(hash, level)[j] == hash(left + right)
  {
  }

  /** A root is the hash of the left half's root followed by the right half's. */
  lemma RootIs(hash: Bytes -> Digest, leaves: seq<Digest>)
    requires |leaves| > 1
    ensures var h := |leaves| / 2;
            var left: Bytes, right: Bytes := TreeRoot(hash, leaves[..h]), TreeRoot(hash, leaves[h..]);
            TreeRoot(hash, leaves) == hash(left + right)
  {
  }

  /** Hashing neighbours level by level computes the top-down root. */
  lemma {:induction false} ParentsKeepRoot(hash: Bytes -> Digest, level: seq<Digest>)
    requires PowerOfTwo(|level|) && |level| > 1
    ensures TreeRoot(hash, Parents(hash, level)) == TreeRoot(hash, level)
    decreases |level|
  {
    var h := |level| / 2;
    var up := Parents(hash, level);
    if h == 1 {
      assert level[..1] == [level[0]] && level[1..] == [level[1]];
    } else {
      assert up[..h / 2] == Parents(hash, level[..h]);
      assert up[h / 2..] == Parents(hash, level[h..]);
      ParentsKeepRoot(hash, level[..h]);
      ParentsKeepRoot(hash, level[h..]);
    }
  }

  /** Each chunk hashed, then the hash of the empty string up to the padded size. */
  ghost predicate ArePaddedLeaves(hash: Bytes -> Digest, chunks: seq<Bytes>, leaves: seq<Digest>) {
    && |leaves| == NextPowerOfTwo(|chunks|)
    && (forall i :: 0 <= i < |chunks| ==> leaves[i] == hash(chunks[i]))
    && (forall i :: |chunks| <= i < |leaves| ==> leaves[i] == hash([]))
  }

  /** Step 1 of the builder. */
  method PadLeaves(hash: Bytes -> Digest, chunks: seq<Bytes>) returns (leaves: seq<Digest>)
    ensures ArePaddedLeaves(hash, chunks, leaves)
  {
    var numLeaves, nextPowerOfTwo := |chunks|, NextPowerOfTwo(|chunks|);
    leaves := [];
    for i := 0 to numLeaves
      invariant |leaves| == i && forall j :: 0 <= j < i ==> leaves[j] == hash(chunks[j])
    {
      leaves := leaves + [hash(chunks[i])];
    }
    var emptyHash := hash([]);
    for i := numLeaves to nextPowerOfTwo
      invariant |leaves| == i
      invariant forall j :: 0 <= j < numLeaves ==> leaves[j] == hash(chunks[j])
      invariant forall j :: numLeaves <= j < i ==> leaves[j] == emptyHash
    {
      leaves := leaves + [emptyHash];
    }
  }

  /** The inner loop of step 2. */
  method NextLevel(hash: Bytes -> Digest, treeLevel: seq<Digest>) returns (nextLevel: seq<Digest>)
    requires |treeLevel| % 2 == 0
    ensures nextLevel == Parents(hash, treeLevel)
  {
    nextLevel := [];
    var i := 0;
    while i < |treeLevel|
      invariant 0 <= i <= |treeLevel| && i % 2 == 0
      invariant nextLevel == Parents(hash, treeLevel)[..i / 2]
    {
      nextLevel := nextLevel + [hash(Pair(treeLevel[i], treeLevel[i + 1]))];
      i := i + 2;
    }
  }

  method BuildMerkleTreePadded(hash: Bytes -> Digest, chunks: seq<Bytes>) returns (leaves: seq<Digest>, root: Digest)
    ensures chunks == [] ==> leaves == [] && root == hash([])
    ensures chunks != [] ==> ArePaddedLeaves(hash, chunks, leaves) && root == TreeRoot(hash, leaves)
  {
    if |chunks| == 0 {
      return [], hash([]);
    }
    leaves := PadLeaves(hash, chunks);
    var treeLevel := leaves;
    while |treeLevel| > 1
      invariant PowerOfTwo(|treeLevel|) && TreeRoot(hash, treeLevel) == TreeRoot(hash, leaves)
    {
      ParentsKeepRoot(hash, treeLevel);
      treeLevel := NextLevel(hash, treeLevel);
    }
    root := treeLevel[0];
  }

  // ----- Proofs -----

  /** Go's `/ 2` on ints, which truncates toward zero. */
  function HalfTowardZero(i: int): int {
    if i >= 0 then i / 2 else -(-i / 2)
  }

  function Sibling(i: int): int {
    if i % 2 == 0 then i + 1 else i - 1
  }

  /** The siblings met on the way up from `cur`, for any index, in or out of range. */
  function ProofFrom(hash: Bytes -> Digest, level: seq<Digest>, cur: int): seq<Digest>
    requires PowerOfTwo(|level|)
    decreases |level|
  {
    if |level| == 1 then []
    else
      (if 0 <= cur < |level| then [level[Sibling(cur)]] else [])
      + ProofFrom(hash, Parents(hash, level), HalfTowardZero(cur))
  }

  /** The inner loop of the proof generator: rebuild the next level and pick the sibling, if the index is in it. */
  method ProofStep(hash: Bytes -> Digest, treeLevel: seq<Digest>, currentIndex: int)
      returns (nextLevel: seq<Digest>, found: seq<Digest>)
    requires |treeLevel| % 2 == 0
    ensures nextLevel == Parents(hash, treeLevel)
    ensures found == if 0 <= currentIndex < |treeLevel| then [treeLevel[Sibling(currentIndex)]] else []
  {
    nextLevel, found := [], [];
    var i := 0;
    while i < |treeLevel|
      invariant 0 <= i <= |treeLevel| && i % 2 == 0
      invariant nextLevel == Parents(hash, treeLevel)[..i / 2]
      invariant found == if 0 <= currentIndex < i then [treeLevel[Sibling(currentIndex)]] else []
    {
      if currentIndex == i {
        found := found + [treeLevel[i + 1]];
      } else if currentIndex == i + 1 {
        found := found + [treeLevel[i]];
      }
      nextLevel := nextLevel + [hash(Pair(treeLevel[i], treeLevel[i + 1]))];
      i := i + 2;
    }
  }

  method GetMerkleProofPadded(hash: Bytes -> Digest, paddedLeaves: seq<Digest>, chunkIndex: int)
      returns (proof: seq<Digest>)
    requires paddedLeaves == [] || PowerOfTwo(|paddedLeaves|)
    ensures paddedLeaves == [] ==> proof == []
    ensures paddedLeaves != [] ==> proof == ProofFrom(hash, paddedLeaves, chunkIndex)
  {
    proof := [];
    if paddedLeaves == [] { return; }
    var treeLevel, currentIndex := paddedLeaves, chunkIndex;
    while |treeLevel| > 1
      invariant PowerOfTwo(|treeLevel|)
      invariant proof + ProofFrom(hash, treeLevel, currentIndex) == ProofFrom(hash, paddedLeaves, chunkIndex)
      decreases |treeLevel|
    {
      ghost var before, level, cur := proof, treeLevel, currentIndex;
      var nextLevel, found := ProofStep(hash, treeLevel, currentIndex);
      proof := proof + found;
      treeLevel, currentIndex := nextLevel, HalfTowardZero(currentIndex);
      assert ProofFrom(hash, level, cur) == found + ProofFrom(hash, treeLevel, currentIndex);
      assert before + (found + ProofFrom(hash, treeLevel, currentIndex))
          == proof + ProofFrom(hash, treeLevel, currentIndex);
    }
  }

  /** A proof has the height of the tree exactly when its index names a leaf. */
  lemma {:induction false} ProofLength(hash: Bytes -> Digest, level: seq<Digest>, cur: int)
    requires PowerOfTwo(|level|)
    ensures |ProofFrom(hash, level, cur)| <= Log2(|level|)
    ensures |level| > 1 ==> (|ProofFrom(hash, level, cur)| == Log2(|level|) <==> 0 <= cur < |level|)
    decreases |level|
  {
    if |level| > 1 { ProofLength(hash, Parents(hash, level), HalfTowardZero(cur)); }
  }

  /** An index that names no leaf finds nothing here and goes on at half of it, toward zero: so -1 goes on as 0. */
  lemma StrayIndexGoesOn(hash: Bytes -> Digest, level: seq<Digest>, cur: int, half: int)
    requires PowerOfTwo(|level|) && |level| > 1 && !(0 <= cur < |level|)
    requires if cur >= 0 then 2 * half <= cur < 2 * half + 2 else 2 * half - 2 < cur <= 2 * half
    ensures ProofFrom(hash, level, cur) == ProofFrom(hash, Parents(hash, level), half)
  {
    assert half == HalfTowardZero(cur);
  }

  /** What is hashed when `x` meets its sibling `s`, `x` on the left when `bit` is 0. */
  function Joined(x: Digest, s: Digest, bit: nat): Bytes {
    if bit % 2 == 0 then Pair(x, s) else Pair(s, x)
  }

  /** `index >> level`. */
  function Shr(index: nat, level: nat): nat {
    if level == 0 then index else Shr(index, level - 1) / 2
  }

  /** The `index >> level` verifier: fold a proof onto `x`, the side at each level taken from that bit of the index. */
  function Climb(hash: Bytes -> Digest, x: Digest, proof: seq<Digest>, index: nat, level: nat): Digest
    decreases |proof|
  {
    if proof == [] then x
    else Climb(hash, hash(Joined(x, proof[0], Shr(index, level))), proof[1..], index, level + 1)
  }

  /** The strings hashed on a climb whose index is halved on the way. */
  function ClimbInputs(hash: Bytes -> Digest, x: Digest, proof: seq<Digest>, cur: nat): (s: seq<Bytes>)
    ensures |s| == |proof|
    decreases |proof|
  {
    if proof == [] then []
    else
      var joined := Joined(x, proof[0], cur);
      [joined] + ClimbInputs(hash, hash(joined), proof[1..], cur / 2)
  }

  /** Where such a climb ends. */
  function ClimbEnd(hash: Bytes -> Digest, x: Digest, proof: seq<Digest>, cur: nat): Digest
    decreases |proof|
  {
    if proof == [] then x else ClimbEnd(hash, hash(Joined(x, proof[0], cur)), proof[1..], cur / 2)
  }

  function Pow2(n: nat): nat {
    if n == 0 then 1 else 2 * Pow2(n - 1)
  }

  lemma HalfDivides(index: nat, p: nat, h: nat, bit: nat)
    requires bit < 2 && p * (2 * h + bit) <= index < p * (2 * h + bit) + p
    ensures (2 * p) * h <= index < (2 * p) * h + 2 * p
  {
    assert (2 * p) * h == p * (2 * h);
    if bit == 1 { assert p * (2 * h + 1) == p * (2 * h) + p; }
  }

  /** Shifting right is dividing by a power of two. */
  lemma {:induction false} ShrDivides(index: nat, level: nat)
    ensures Pow2(level) * Shr(index, level) <= index < Pow2(level) * Shr(index, level) + Pow2(level)
  {
    if level > 0 {
      ShrDivides(index, level - 1);
      HalfDivides(index, Pow2(level - 1), Shr(index, level - 1) / 2, Shr(index, level - 1) % 2);
    }
  }

  /**
   * One step of the verifier: the value first when the bit of the index at this level is 0, the sibling first when it
   * is 1.
   */
  lemma ClimbStep(hash: Bytes -> Digest, x: Digest, sibling: Digest, rest: seq<Digest>, index: nat, level: nat)
    ensures var value: Bytes, other: Bytes := x, sibling;
            var joined := if Shr(index, level) % 2 == 0 then value + other else other + value;
            Climb(hash, x, [sibling] + rest, index, level) == Climb(hash, hash(joined), rest, index, level + 1)
    ensures Climb(hash, x, [], index, level) == x
  {
    assert ([sibling] + rest)[1..] == rest;
  }

  lemma {:induction false} ShiftingIsHalving(hash: Bytes -> Digest, x: Digest, proof: seq<Digest>,
                                             index: nat, level: nat)
    ensures Climb(hash, x, proof, index, level) == ClimbEnd(hash, x, proof, Shr(index, level))
    decreases |proof|
  {
    if proof != [] {
      ShiftingIsHalving(hash, hash(Joined(x, proof[0], Shr(index, level))), proof[1..], index, level + 1);
    }
  }

  lemma ProofUnfolds(hash: Bytes -> Digest, level: seq<Digest>, cur: nat)
    requires PowerOfTwo(|level|) && |level| > 1 && cur < |level|
    ensures ProofFrom(hash, level, cur) == [level[Sibling(cur)]] + ProofFrom(hash, Parents(hash, level), cur / 2)
  {
  }

  lemma SiblingsMeetInParent(hash: Bytes -> Digest, level: seq<Digest>, cur: nat)
    requires |level| % 2 == 0 && cur < |level|
    ensures hash(Joined(level[cur], level[Sibling(cur)], cur)) == Parents(hash, level)[cur / 2]
  {
    assert cur == 2 * (cur / 2) + cur % 2;
  }

  lemma {:induction false} ProofReachesRoot(hash: Bytes -> Digest, level: seq<Digest>, cur: nat)
    requires PowerOfTwo(|level|) && cur < |level|
    ensures ClimbEnd(hash, level[cur], ProofFrom(hash, level, cur), cur) == TreeRoot(hash, level)
    decreases |level|
  {
    if |level| > 1 {
      ParentsKeepRoot(hash, level);
      ProofUnfolds(hash, level, cur);
      SiblingsMeetInParent(hash, level, cur);
      ProofReachesRoot(hash, Parents(hash, level), cur / 2);
    }
  }

  /** Completeness: every generated proof climbs from its leaf to the root, and has the tree's height. */
  lemma ProofVerifies(hash: Bytes -> Digest, leaves: seq<Digest>, i: nat)
    requires PowerOfTwo(|leaves|) && i < |leaves|
    ensures |ProofFrom(hash, leaves, i)| == Log2(|leaves|)
    ensures Climb(hash, leaves[i], ProofFrom(hash, leaves, i), i, 0) == TreeRoot(hash, leaves)
  {
    ProofLength(hash, leaves, i);
    ProofReachesRoot(hash, leaves, i);
    ShiftingIsHalving(hash, leaves[i], ProofFrom(hash, leaves, i), i, 0);
  }

  /** Two climbs that hash different strings to one digest at the same level. */
  ghost predicate PathsCollide(hash: Bytes -> Digest, a: seq<Bytes>, b: seq<Bytes>)
    requires |a| == |b|
  {
    exists m :: 0 <= m < |a| && a[m] != b[m] && hash(a[m]) == hash(b[m])
  }

  lemma PairInjective(a: Digest, b: Digest, c: Digest, d: Digest)
    ensures Pair(a, b) == Pair(c, d) ==> a == c && b == d
  {
    assert a == Pair(a, b)[..32] && c == Pair(c, d)[..32];
    assert b == Pair(a, b)[32..] && d == Pair(c, d)[32..];
  }

  /** Two climbs of one length and index that end alike started alike, or hold a collision. */
  lemma {:induction false} ClimbsBind(hash: Bytes -> Digest, cur: nat,
                                      x: Digest, p: seq<Digest>, y: Digest, q: seq<Digest>)
    requires |p| == |q|
    requires ClimbEnd(hash, x, p, cur) == ClimbEnd(hash, y, q, cur)
    ensures (x == y && p == q) || PathsCollide(hash, ClimbInputs(hash, x, p, cur), ClimbInputs(hash, y, q, cur))
    decreases |p|
  {
    if p != [] {
      var mine, theirs := Joined(x, p[0], cur), Joined(y, q[0], cur);
      ClimbsBind(hash, cur / 2, hash(mine), p[1..], hash(theirs), q[1..]);
      var a, b := ClimbInputs(hash, x, p, cur), ClimbInputs(hash, y, q, cur);
      if PathsCollide(hash, a[1..], b[1..]) {
        var m :| 0 <= m < |a[1..]| && a[1..][m] != b[1..][m] && hash(a[1..][m]) == hash(b[1..][m]);
        assert a[m + 1] != b[m + 1] && hash(a[m + 1]) == hash(b[m + 1]);
      } else if mine == theirs {
        PairInjective(x, p[0], y, q[0]);
        PairInjective(p[0], x, q[0], y);
        assert p == [p[0]] + p[1..] && q == [q[0]] + q[1..];
      } else {
        assert a[0] != b[0] && hash(a[0]) == hash(b[0]);
      }
    }
  }

  /** Binding: whatever verifies at index `i` is leaf `i` with its own proof, or the two paths hold a collision. */
  lemma ProofBinds(hash: Bytes -> Digest, leaves: seq<Digest>, i: nat, x: Digest, proof: seq<Digest>)
    requires PowerOfTwo(|leaves|) && i < |leaves| && |proof| == Log2(|leaves|)
    requires Climb(hash, x, proof, i, 0) == TreeRoot(hash, leaves)
    ensures |ProofFrom(hash, leaves, i)| == |proof|
    ensures || (x == leaves[i] && proof == ProofFrom(hash, leaves, i))
            || PathsCollide(hash, ClimbInputs(hash, x, proof, i),
                            ClimbInputs(hash, leaves[i], ProofFrom(hash, leaves, i), i))
  {
    ProofLength(hash, leaves, i);
    ProofReachesRoot(hash, leaves, i);
    ShiftingIsHalving(hash, x, proof, i, 0);
    ClimbsBind(hash, i, x, proof, leaves[i], ProofFrom(hash, leaves, i));
  }

  // ----- The root determines the chunks -----

  /** The strings hashed by the inner nodes of a tree. */
  function TreeInputs(hash: Bytes -> Digest, leaves: seq<Digest>): set<Bytes>
    requires leaves != []
    decreases |leaves|
  {
    if |leaves| == 1 then {}
    else
      var h := |leaves| / 2;
      {Pair(TreeRoot(hash, leaves[..h]), TreeRoot(hash, leaves[h..]))}
      + TreeInputs(hash, leaves[..h]) + TreeInputs(hash, leaves[h..])
  }

  function TopPair(hash: Bytes -> Digest, leaves: seq<Digest>): Bytes
    requires |leaves| > 1
  {
    Pair(TreeRoot(hash, leaves[..|leaves| / 2]), TreeRoot(hash, leaves[|leaves| / 2..]))
  }

  lemma TopPairIsHashed(hash: Bytes -> Digest, leaves: seq<Digest>)
    requires |leaves| > 1
    ensures TopPair(hash, leaves) in TreeInputs(hash, leaves)
    ensures TreeRoot(hash, leaves) == hash(TopPair(hash, leaves))
  {
  }

  lemma HalvesBind(hash: Bytes -> Digest, a: seq<Digest>, b: seq<Digest>)
    requires |a| == |b| > 1
    ensures var h := |a| / 2;
            && (a[..h] == b[..h] || Collision(hash, TreeInputs(hash, a[..h]), TreeInputs(hash, b[..h])))
            && (a[h..] == b[h..] || Collision(hash, TreeInputs(hash, a[h..]), TreeInputs(hash, b[h..])))
            ==> a == b || Collision(hash, TreeInputs(hash, a), TreeInputs(hash, b))
  {
    var h := |a| / 2;
    assert a == a[..h] + a[h..] && b == b[..h] + b[h..];
  }

  lemma {:induction false} RootBindsLeaves(hash: Bytes -> Digest, a: seq<Digest>, b: seq<Digest>)
    requires a != [] && |a| == |b|
    requires TreeRoot(hash, a) == TreeRoot(hash, b)
    ensures a == b || Collision(hash, TreeInputs(hash, a), TreeInputs(hash, b))
    decreases |a|
  {
    if |a| > 1 {
      var h := |a| / 2;
      if TopPair(hash, a) == TopPair(hash, b) {
        PairInjective(TreeRoot(hash, a[..h]), TreeRoot(hash, a[h..]), TreeRoot(hash, b[..h]), TreeRoot(hash, b[h..]));
        RootBindsLeaves(hash, a[..h], b[..h]);
        RootBindsLeaves(hash, a[h..], b[h..]);
        HalvesBind(hash, a, b);
      } else {
        TopPairIsHashed(hash, a);
        TopPairIsHashed(hash, b);
      }
    }
  }

  function Hashes(hash: Bytes -> Digest, strings: seq<Bytes>): (d: seq<Digest>)
    ensures |d| == |strings| && forall i :: 0 <= i < |d| ==> d[i] == hash(strings[i])
  {
    seq(|strings|, i requires 0 <= i < |strings| => hash(strings[i]))
  }

  /** All strings hashed in a tree over these strings. */
  ghost function AllInputs(hash: Bytes -> Digest, strings: seq<Bytes>): set<Bytes>
    requires strings != []
  {
    (set x | x in strings) + TreeInputs(hash, Hashes(hash, strings))
  }

  /** Two lists of equally many strings with one root are the same, or the hashing of the two holds a collision. */
  lemma StringsBind(hash: Bytes -> Digest, u: seq<Bytes>, v: seq<Bytes>)
    requires u != [] && |u| == |v| && TreeRoot(hash, Hashes(hash, u)) == TreeRoot(hash, Hashes(hash, v))
    ensures u == v || Collision(hash, AllInputs(hash, u), AllInputs(hash, v))
  {
    var a, b := Hashes(hash, u), Hashes(hash, v);
    RootBindsLeaves(hash, a, b);
    if a != b {
      var x, y :| x in TreeInputs(hash, a) && y in TreeInputs(hash, b) && x != y && hash(x) == hash(y);
      assert x in AllInputs(hash, u) && y in AllInputs(hash, v);
    } else if u != v {
      var i :| 0 <= i < |u| && u[i] != v[i];
      assert hash(u[i]) == a[i] == b[i] == hash(v[i]);
      assert u[i] in AllInputs(hash, u) && v[i] in AllInputs(hash, v);
    }
  }

  /** The chunks as the tree sees them: empty ones up to the padded size. */
  function Padded(chunks: seq<Bytes>): (p: seq<Bytes>)
    ensures |p| == NextPowerOfTwo(|chunks|) && chunks <= p && forall i :: |chunks| <= i < |p| ==> p[i] == []
  {
    chunks + seq(NextPowerOfTwo(|chunks|) - |chunks|, _ => [])
  }

  lemma LeavesAreHashes(hash: Bytes -> Digest, chunks: seq<Bytes>, leaves: seq<Digest>)
    ensures ArePaddedLeaves(hash, chunks, leaves) <==> leaves == Hashes(hash, Padded(chunks))
  {
  }

  /** All strings hashed to make the root of a list of chunks, padding included. */
  ghost function ChunkInputs(hash: Bytes -> Digest, chunks: seq<Bytes>): set<Bytes> {
    AllInputs(hash, Padded(chunks))
  }

  ghost function RootOf(hash: Bytes -> Digest, chunks: seq<Bytes>): Digest {
    TreeRoot(hash, Hashes(hash, Padded(chunks)))
  }

  /** The root of one chunk is its hash, and of two the hash of the first one's hash followed by the second's. */
  lemma SmallRoots(hash: Bytes -> Digest, a: Bytes, b: Bytes)
    ensures RootOf(hash, [a]) == hash(a)
    ensures var left: Bytes, right: Bytes := hash(a), hash(b); RootOf(hash, [a, b]) == hash(left + right)
  {
    assert NextPowerOfTwo(2) == 2 * NextPowerOfTwo(1);
    assert Padded([a]) == [a] && Padded([a, b]) == [a, b];
    var two := Hashes(hash, [a, b]);
    assert two[..1] == [hash(a)] && two[1..] == [hash(b)];
    RootIs(hash, two);
  }

  /**
   * What a root binds. Two chunk lists padded to one size have one root exactly when they are the same but for empty
   * chunks at the end, unless the hashing of the two holds a collision.
   */
  lemma RootBindsPadded(hash: Bytes -> Digest, c: seq<Bytes>, d: seq<Bytes>)
    requires |Padded(c)| == |Padded(d)|
    ensures Padded(c) == Padded(d) ==> RootOf(hash, c) == RootOf(hash, d)
    ensures RootOf(hash, c) == RootOf(hash, d) ==>
              Padded(c) == Padded(d) || Collision(hash, ChunkInputs(hash, c), ChunkInputs(hash, d))
  {
    if RootOf(hash, c) == RootOf(hash, d) { StringsBind(hash, Padded(c), Padded(d)); }
  }

  /** Two chunk lists of one length with one root are the same list, or the hashing of the two holds a collision. */
  lemma RootBindsChunks(hash: Bytes -> Digest, c: seq<Bytes>, d: seq<Bytes>, cl: seq<Digest>, dl: seq<Digest>)
    requires |c| == |d| && ArePaddedLeaves(hash, c, cl) && ArePaddedLeaves(hash, d, dl)
    requires TreeRoot(hash, cl) == TreeRoot(hash, dl)
    ensures c == d || Collision(hash, ChunkInputs(hash, c), ChunkInputs(hash, d))
  {
    LeavesAreHashes(hash, c, cl);
    LeavesAreHashes(hash, d, dl);
    RootBindsPadded(hash, c, d);
    assert c == Padded(c)[..|c|] && d == Padded(d)[..|d|];
  }

  /** The strings of the `n` nodes of a tree at the level that has `n`. */
  function NodeStrings(hash: Bytes -> Digest, leaves: seq<Digest>, n: nat): (s: seq<Bytes>)
    requires PowerOfTwo(n) && PowerOfTwo(|leaves|) && n < |leaves|
    ensures |s| == n && forall i :: 0 <= i < n ==> |s[i]| == 64
    decreases n
  {
    if n == 1 then [TopPair(hash, leaves)]
    else
      var h := |leaves| / 2;
      NodeStrings(hash, leaves[..h], n / 2) + NodeStrings(hash, leaves[h..], n / 2)
  }

  lemma HashesOfHalves(hash: Bytes -> Digest, a: seq<Bytes>, b: seq<Bytes>)
    requires a != [] && |a| == |b|
    ensures var d := Hashes(hash, a + b);
            |d| / 2 == |a| && d[..|a|] == Hashes(hash, a) && d[|a|..] == Hashes(hash, b)
    ensures TopPair(hash, Hashes(hash, a + b))
         == Pair(TreeRoot(hash, Hashes(hash, a)), TreeRoot(hash, Hashes(hash, b)))
  {
  }

  /** The nodes of a level hashed like chunks make the same root. */
  lemma {:induction false} NodesMakeRoot(hash: Bytes -> Digest, leaves: seq<Digest>, n: nat)
    requires PowerOfTwo(n) && PowerOfTwo(|leaves|) && n < |leaves|
    ensures TreeRoot(hash, Hashes(hash, NodeStrings(hash, leaves, n))) == TreeRoot(hash, leaves)
    decreases n
  {
    TopPairIsHashed(hash, leaves);
    if n > 1 {
      var h := |leaves| / 2;
      var a, b := NodeStrings(hash, leaves[..h], n / 2), NodeStrings(hash, leaves[h..], n / 2);
      NodesMakeRoot(hash, leaves[..h], n / 2);
      NodesMakeRoot(hash, leaves[h..], n / 2);
      HashesOfHalves(hash, a, b);
      TopPairIsHashed(hash, Hashes(hash, a + b));
      hide TreeRoot;
    }
  }

  lemma InputsOfHalves(hash: Bytes -> Digest, a: seq<Bytes>, b: seq<Bytes>)
    requires a != [] && |a| == |b|
    ensures AllInputs(hash, a + b) == AllInputs(hash, a) + AllInputs(hash, b) + {TopPair(hash, Hashes(hash, a + b))}
  {
    HashesOfHalves(hash, a, b);
  }

  /** And hash no string that the tree does not. */
  lemma {:induction false} NodesAreHashed(hash: Bytes -> Digest, leaves: seq<Digest>, n: nat)
    requires PowerOfTwo(n) && PowerOfTwo(|leaves|) && n < |leaves|
    ensures AllInputs(hash, NodeStrings(hash, leaves, n)) <= TreeInputs(hash, leaves)
    decreases n
  {
    TopPairIsHashed(hash, leaves);
    if n > 1 {
      var h := |leaves| / 2;
      var a, b := NodeStrings(hash, leaves[..h], n / 2), NodeStrings(hash, leaves[h..], n / 2);
      NodesAreHashed(hash, leaves[..h], n / 2);
      NodesAreHashed(hash, leaves[h..], n / 2);
      NodesMakeRoot(hash, leaves[..h], n / 2);
      NodesMakeRoot(hash, leaves[h..], n / 2);
      InputsOfHalves(hash, a, b);
      HashesOfHalves(hash, a, b);
      hide TreeRoot, AllInputs;
    }
  }

  /**
   * Across sizes. Leaves and nodes are hashed alike, so a shorter list has the root of a longer one exactly when its
   * padded chunks are the strings of the nodes over the longer one's leaves, unless there is a collision. A list that
   * needs padding has no such strings.
   */
  lemma RootAcrossSizes(hash: Bytes -> Digest, c: seq<Bytes>, d: seq<Bytes>)
    requires |Padded(c)| < |Padded(d)|
    ensures var nodes := NodeStrings(hash, Hashes(hash, Padded(d)), |Padded(c)|);
            && (Padded(c) == nodes ==> RootOf(hash, c) == RootOf(hash, d) && |c| == |Padded(c)|)
            && (RootOf(hash, c) == RootOf(hash, d) ==>
                  Padded(c) == nodes || Collision(hash, ChunkInputs(hash, c), ChunkInputs(hash, d)))
  {
    var u, dl := Padded(c), Hashes(hash, Padded(d));
    var nodes := NodeStrings(hash, dl, |u|);
    NodesMakeRoot(hash, dl, |u|);
    NodesAreHashed(hash, dl, |u|);
    assert |c| < |u| ==> u[|c|] == [];
    hide NodeStrings, TreeRoot, TreeInputs;
    if RootOf(hash, c) == RootOf(hash, d) && u != nodes {
      StringsBind(hash, u, nodes);
      var x, y :| x in AllInputs(hash, u) && y in AllInputs(hash, nodes) && x != y && hash(x) == hash(y);
      assert y in ChunkInputs(hash, d);
    }
  }

  /** So one chunk can have the root of two, and an empty chunk looks like padding: no collision is needed. */
  lemma RootAloneDoesNotBind(hash: Bytes -> Digest, a: Bytes, b: Bytes, e: Bytes)
    ensures RootOf(hash, [a, b]) == RootOf(hash, [Pair(hash(a), hash(b))])
    ensures Padded([a, b, e]) == Padded([a, b, e, []])
  {
    assert NextPowerOfTwo(2) == 2 * NextPowerOfTwo(1) && NextPowerOfTwo(3) == 2 * NextPowerOfTwo(2);
    assert NextPowerOfTwo(4) == 2 * NextPowerOfTwo(2);
    var one := Pair(hash(a), hash(b));
    assert Padded([a, b]) == [a, b] && Padded([one]) == [one];
    var two := Hashes(hash, [a, b]);
    assert two[..1] == [hash(a)] && two[1..] == [hash(b)];
    assert RootOf(hash, [a, b]) == TreeRoot(hash, two) == hash(one);
    assert Hashes(hash, [one]) == [hash(one)];
  }
}
