/** Merkle trees over hexadecimal digests: building, proving and checking membership.
    The digest function is a parameter, so every result holds for any deterministic hash. */
module MerkleTrees {
  import opened Words

  type HashFn = string -> string

  // ----- What the loops compute -----

  /** Child c of a level, the last node standing in for a missing right child. */
  function Child(level: seq<string>, c: nat): string
    requires c <= |level| && level != []
  {
    if c < |level| then level[c] else level[|level| - 1]
  }

  /** What is hashed into node q of the next level. */
  function Pair(level: seq<string>, q: nat): string
    requires q < (|level| + 1) / 2
  {
    Child(level, 2 * q) + Child(level, 2 * q + 1)
  }

  /** Nodes 0..m of the next level: neighbours are hashed in pairs, an unpaired last node with itself. */
  function Parents(h: HashFn, level: seq<string>, m: nat): (next: seq<string>)
    requires m <= (|level| + 1) / 2
    ensures |next| == m
    decreases m
  {
    if m == 0 then []
    else Parents(h, level, m - 1) + [h(Pair(level, m - 1))]
  }

  function NextLevel(h: HashFn, level: seq<string>): (next: seq<string>)
    ensures |next| == (|level| + 1) / 2
  {
    Parents(h, level, (|level| + 1) / 2)
  }

  lemma {:induction false} ParentAt(h: HashFn, level: seq<string>, m: nat, q: nat)
    requires q < m <= (|level| + 1) / 2
    ensures Parents(h, level, m)[q] == h(Pair(level, q))
    decreases m
  {
    if q < m - 1 { ParentAt(h, level, m - 1, q); }
  }

  /** The stored tree: the leaves first, the one-node level last. */
  function Levels(h: HashFn, level: seq<string>): (tree: seq<seq<string>>)
    requires level != []
    decreases |level|
  {
    if |level| == 1 then [level] else [level] + Levels(h, NextLevel(h, level))
  }

  function RootOf(h: HashFn, level: seq<string>): string
    requires level != []
    decreases |level|
  {
    if |level| == 1 then level[0] else RootOf(h, NextLevel(h, level))
  }

  function Root(h: HashFn, leaves: seq<string>): string {
    if leaves == [] then h("empty") else RootOf(h, leaves)
  }

  function Sibling(i: nat): nat {
    if i % 2 == 0 then i + 1 else i - 1
  }

  /** The sibling of every node on the path of node i; a missing sibling is skipped. */
  function Proof(h: HashFn, level: seq<string>, i: nat): seq<string>
    decreases |level|
  {
    if |level| <= 1 then []
    else (if Sibling(i) < |level| then [level[Sibling(i)]] else []) + Proof(h, NextLevel(h, level), i / 2)
  }

  function Combine(v: string, sibling: string, i: nat): string {
    if i % 2 == 0 then v + sibling else sibling + v
  }

  /** What a checker recomputes from a value, a proof and an index. */
  function Fold(h: HashFn, v: string, proof: seq<string>, i: nat): string
    decreases |proof|
  {
    if proof == [] then v else Fold(h, h(Combine(v, proof[0], i)), proof[1..], i / 2)
  }

  // ----- Shape of a tree with n leaves -----

  function Depth(n: nat): nat {
    if n <= 1 then 0 else 1 + Depth((n + 1) / 2)
  }

  /** No node on the path of leaf i is the unpaired last node of an odd level. */
  predicate PathPaired(n: nat, i: nat) {
    n <= 1 || (Sibling(i) < n && PathPaired((n + 1) / 2, i / 2))
  }

  /** The node a checker really talks about when it is given index i: indices past the end of
      a level fold back onto the duplicated last node. */
  function Resolve(n: nat, i: nat): (r: nat)
    requires n > 0
    ensures r < n
    ensures i < n ==> r == i
  {
    if n == 1 then 0
    else
      var r := 2 * Resolve((n + 1) / 2, i / 2) + i % 2;
      if r == n then n - 1 else r
  }

  function LevelAt(h: HashFn, level: seq<string>, d: nat): seq<string>
    decreases d
  {
    if d == 0 then level else LevelAt(h, NextLevel(h, level), d - 1)
  }

  lemma NextDepth(h: HashFn, level: seq<string>)
    requires |level| > 1
    ensures NextLevel(h, level) != [] && Depth(|NextLevel(h, level)|) == Depth(|level|) - 1
  {
  }

  lemma {:induction false} LevelAtDepth(h: HashFn, level: seq<string>, d: nat)
    requires level != [] && d <= Depth(|level|)
    ensures LevelAt(h, level, d) != []
    ensures Depth(|LevelAt(h, level, d)|) == Depth(|level|) - d
    decreases d
  {
    if d > 0 {
      NextDepth(h, level);
      LevelAtDepth(h, NextLevel(h, level), d - 1);
    }
  }

  lemma {:induction false} LevelAtShape(h: HashFn, level: seq<string>, d: nat)
    requires level != [] && d <= Depth(|level|)
    ensures LevelAt(h, level, d) != []
    ensures Depth(|LevelAt(h, level, d)|) == Depth(|level|) - d
    ensures RootOf(h, LevelAt(h, level, d)) == RootOf(h, level)
    decreases d
  {
    LevelAtDepth(h, level, d);
    if d > 0 {
      NextDepth(h, level);
      LevelAtShape(h, NextLevel(h, level), d - 1);
    }
  }

  lemma {:induction false} LevelsAreLevelAt(h: HashFn, level: seq<string>)
    requires level != []
    ensures |Levels(h, level)| == Depth(|level|) + 1
    ensures forall d :: 0 <= d <= Depth(|level|) ==> Levels(h, level)[d] == LevelAt(h, level, d)
    ensures |LevelAt(h, level, Depth(|level|))| == 1
    ensures LevelAt(h, level, Depth(|level|))[0] == RootOf(h, level)
    decreases |level|
  {
    if |level| > 1 {
      var next := NextLevel(h, level);
      LevelsAreLevelAt(h, next);
      forall d | 0 <= d <= Depth(|level|)
        ensures Levels(h, level)[d] == LevelAt(h, level, d)
      {
        if d > 0 {
          assert Levels(h, level)[d] == Levels(h, next)[d - 1];
        }
      }
    }
  }

  lemma {:induction false} LevelAtNext(h: HashFn, level: seq<string>, d: nat)
    ensures LevelAt(h, level, d + 1) == NextLevel(h, LevelAt(h, level, d))
    decreases d
  {
    if d > 0 { LevelAtNext(h, NextLevel(h, level), d - 1); }
  }

  // ----- Completeness -----

  lemma ChildrenInOrder(level: seq<string>, i: nat)
    requires i < |level| && Sibling(i) < |level|
    ensures Pair(level, i / 2) == Combine(level[i], level[Sibling(i)], i)
  {
  }

  /** A node with a sibling is hashed together with it, left child first. */
  lemma ParentOfPair(h: HashFn, level: seq<string>, i: nat)
    requires i < |level| && Sibling(i) < |level|
    ensures NextLevel(h, level)[i / 2] == h(Combine(level[i], level[Sibling(i)], i))
  {
    ChildrenInOrder(level, i);
    ParentAt(h, level, (|level| + 1) / 2, i / 2);
  }

  /** A leaf whose path is paired at every level is accepted with its own proof, whatever the hash. */
  lemma {:induction false} Completeness(h: HashFn, level: seq<string>, i: nat)
    requires i < |level| && PathPaired(|level|, i)
    ensures Fold(h, level[i], Proof(h, level, i), i) == RootOf(h, level)
    ensures |Proof(h, level, i)| == Depth(|level|)
    decreases |level|
  {
    if |level| > 1 {
      var next := NextLevel(h, level);
      Completeness(h, next, i / 2);
      ParentOfPair(h, level, i);
      var proof := Proof(h, level, i);
      assert proof == [level[Sibling(i)]] + Proof(h, next, i / 2);
      assert proof[1..] == Proof(h, next, i / 2);
    }
  }

  lemma ProofStep(h: HashFn, level: seq<string>, i: nat)
    requires i < |level| && |level| > 1 && PathPaired(|level|, i)
    ensures Sibling(i) < |level| && i / 2 < (|level| + 1) / 2 && PathPaired((|level| + 1) / 2, i / 2)
    ensures Proof(h, level, i) == [level[Sibling(i)]] + Proof(h, NextLevel(h, level), i / 2)
  {
  }

  lemma OneLevelUp(h: HashFn, level: seq<string>, i: nat, d: nat)
    requires d > 0
    ensures LevelAt(h, level, d) == LevelAt(h, NextLevel(h, level), d - 1) && Halved(i, d) == Halved(i / 2, d - 1)
  {
  }

  function Neighbour(level: seq<string>, j: nat): (s: string)
    requires (if j % 2 == 0 then j + 1 else j - 1) < |level|
  {
    level[if j % 2 == 0 then j + 1 else j - 1]
  }

  /** On a paired path, element d of the proof is the neighbour, on level d, of the node above leaf i. */
  lemma {:induction false} ProofSiblings(h: HashFn, level: seq<string>, i: nat, d: nat)
    requires i < |level| && PathPaired(|level|, i) && d < |Proof(h, level, i)|
    ensures Halved(i, d) < |LevelAt(h, level, d)| && Sibling(Halved(i, d)) < |LevelAt(h, level, d)|
    ensures Proof(h, level, i)[d] == Neighbour(LevelAt(h, level, d), Halved(i, d))
    decreases d
  {
    var next := NextLevel(h, level);
    ProofStep(h, level, i);
    if d > 0 {
      OneLevelUp(h, level, i, d);
      ProofSiblings(h, next, i / 2, d - 1);
      assert Proof(h, level, i)[d] == Proof(h, next, i / 2)[d - 1];
    }
  }

  lemma {:induction false} PowerOfTwoIsPaired(d: nat, i: nat)
    requires i < Pow2(d)
    ensures PathPaired(Pow2(d), i)
    decreases d
  {
    if d > 0 {
      assert (Pow2(d) + 1) / 2 == Pow2(d - 1);
      PowerOfTwoIsPaired(d - 1, i / 2);
    }
  }

  /** For a power of two every leaf is accepted. */
  lemma CompletenessPowerOfTwo(h: HashFn, leaves: seq<string>, d: nat, i: nat)
    requires |leaves| == Pow2(d) && i < |leaves|
    ensures Fold(h, leaves[i], Proof(h, leaves, i), i) == Root(h, leaves)
  {
    PowerOfTwoIsPaired(d, i);
    Completeness(h, leaves, i);
  }

  // ----- Soundness: an accepted wrong value yields a collision -----

  predicate IsCollision(h: HashFn, c: (string, string)) {
    c.0 != c.1 && h(c.0) == h(c.1)
  }

  /** What the tree hashed together at the node above the one index i resolves to. */
  function TreePair(level: seq<string>, i: nat): string
    requires |level| > 1
  {
    Pair(level, Resolve((|level| + 1) / 2, i / 2))
  }

  lemma TreePairHashed(h: HashFn, level: seq<string>, i: nat)
    requires |level| > 1
    ensures NextLevel(h, level)[Resolve((|level| + 1) / 2, i / 2)] == h(TreePair(level, i))
  {
    ParentAt(h, level, (|level| + 1) / 2, Resolve((|level| + 1) / 2, i / 2));
  }

  /** The two strings hashed at the first level where the checker and the tree rejoin. */
  function ExtractCollision(h: HashFn, level: seq<string>, i: nat, v: string, proof: seq<string>): (string, string)
    decreases |level|
  {
    if |level| <= 1 || proof == [] then ("", "")
    else
      var inTree, inProof := TreePair(level, i), Combine(v, proof[0], i);
      if inTree != inProof && h(inTree) == h(inProof) then (inTree, inProof)
      else ExtractCollision(h, NextLevel(h, level), i / 2, h(inProof), proof[1..])
  }

  predicate Uniform(level: seq<string>, k: nat) {
    forall j :: 0 <= j < |level| ==> |level[j]| == k
  }

  lemma {:induction false} ParentsUniform(h: HashFn, level: seq<string>, m: nat, k: nat)
    requires forall s :: |h(s)| == k
    requires m <= (|level| + 1) / 2
    ensures Uniform(Parents(h, level, m), k)
    decreases m
  {
    if m > 0 { ParentsUniform(h, level, m - 1, k); }
  }

  lemma SplitEqual(a: string, b: string, c: string, d: string)
    requires a + b == c + d
    requires |a| == |c| || |b| == |d|
    ensures a == c && b == d
  {
    assert |a| == |c|;
    assert a == (a + b)[..|a|] == (c + d)[..|a|] == c;
    assert b == (a + b)[|a|..] == (c + d)[|a|..] == d;
  }

  lemma ResolvedChild(level: seq<string>, i: nat)
    requires |level| > 1
    ensures var q := Resolve((|level| + 1) / 2, i / 2);
            level[Resolve(|level|, i)] == if i % 2 == 0 then Child(level, 2 * q) else Child(level, 2 * q + 1)
  {
  }

  lemma SamePairSameChild(level: seq<string>, i: nat, v: string, sibling: string, k: nat)
    requires |level| > 1 && Uniform(level, k) && |v| == k
    requires TreePair(level, i) == Combine(v, sibling, i)
    ensures v == level[Resolve(|level|, i)]
  {
    var q := Resolve((|level| + 1) / 2, i / 2);
    var left, right := Child(level, 2 * q), Child(level, 2 * q + 1);
    ResolvedChild(level, i);
    if i % 2 == 0 {
      SplitEqual(v, sibling, left, right);
    } else {
      SplitEqual(sibling, v, left, right);
    }
  }

  /** Where the two strings of a level share a digest the search ends, elsewhere it goes on. */
  lemma CollisionLifts(h: HashFn, level: seq<string>, i: nat, v: string, proof: seq<string>)
    requires |level| > 1 && proof != []
    requires TreePair(level, i) != Combine(v, proof[0], i)
    requires var inProof := Combine(v, proof[0], i);
             h(inProof) == h(TreePair(level, i)) ||
             IsCollision(h, ExtractCollision(h, NextLevel(h, level), i / 2, h(inProof), proof[1..]))
    ensures IsCollision(h, ExtractCollision(h, level, i, v, proof))
  {
    var inTree, inProof := TreePair(level, i), Combine(v, proof[0], i);
    if h(inTree) == h(inProof) {
      assert ExtractCollision(h, level, i, v, proof) == (inTree, inProof);
    } else {
      assert ExtractCollision(h, level, i, v, proof) ==
             ExtractCollision(h, NextLevel(h, level), i / 2, h(inProof), proof[1..]);
    }
  }

  /** Any index, any proof as long as the tree is deep: the accepted value is the node the index
      resolves to, or ExtractCollision returns two distinct strings with the same digest. */
  lemma {:induction false} SoundnessAtAnyIndex(h: HashFn, level: seq<string>, i: nat, v: string,
                                               proof: seq<string>, k: nat)
    requires forall s :: |h(s)| == k
    requires level != [] && Uniform(level, k) && |v| == k
    requires |proof| == Depth(|level|)
    requires Fold(h, v, proof, i) == RootOf(h, level)
    ensures v == level[Resolve(|level|, i)] || IsCollision(h, ExtractCollision(h, level, i, v, proof))
    decreases |level|
  {
    if |level| > 1 {
      var next := NextLevel(h, level);
      if TreePair(level, i) == Combine(v, proof[0], i) {
        SamePairSameChild(level, i, v, proof[0], k);
      } else {
        var above := h(Combine(v, proof[0], i));
        ParentsUniform(h, level, |next|, k);
        SoundnessAtAnyIndex(h, next, i / 2, above, proof[1..], k);
        TreePairHashed(h, level, i);
        CollisionLifts(h, level, i, v, proof);
      }
    }
  }

  predicate ByteStrings(strings: seq<string>) {
    forall j :: 0 <= j < |strings| ==> ByteString(strings[j])
  }

  lemma {:induction false} ParentsByteStrings(h: HashFn, level: seq<string>, m: nat)
    requires forall s :: ByteString(h(s))
    requires m <= (|level| + 1) / 2
    ensures ByteStrings(Parents(h, level, m))
    decreases m
  {
    if m > 0 { ParentsByteStrings(h, level, m - 1); }
  }

  /** Over byte strings the two strings extracted are byte strings too. */
  lemma {:induction false} ExtractedByteStrings(h: HashFn, level: seq<string>, i: nat, v: string, proof: seq<string>)
    requires forall s :: ByteString(h(s))
    requires ByteStrings(level) && ByteStrings(proof) && ByteString(v)
    ensures var c := ExtractCollision(h, level, i, v, proof); ByteString(c.0) && ByteString(c.1)
    decreases |level|
  {
    if |level| > 1 && proof != [] {
      var inTree, inProof := TreePair(level, i), Combine(v, proof[0], i);
      assert ByteString(inTree) && ByteString(inProof);
      ParentsByteStrings(h, level, (|level| + 1) / 2);
      ExtractedByteStrings(h, NextLevel(h, level), i / 2, h(inProof), proof[1..]);
    }
  }

  lemma Soundness(h: HashFn, leaves: seq<string>, i: nat, v: string, proof: seq<string>, k: nat)
    requires forall s :: |h(s)| == k
    requires i < |leaves| && Uniform(leaves, k) && |v| == k
    requires |proof| == Depth(|leaves|)
    requires Fold(h, v, proof, i) == Root(h, leaves)
    ensures v == leaves[i] || IsCollision(h, ExtractCollision(h, leaves, i, v, proof))
  {
    SoundnessAtAnyIndex(h, leaves, i, v, proof, k);
  }

  lemma {:induction false} LevelAtUniform(h: HashFn, level: seq<string>, d: nat, k: nat)
    requires forall s :: |h(s)| == k
    requires Uniform(level, k)
    ensures Uniform(LevelAt(h, level, d), k)
    decreases d
  {
    if d > 0 {
      ParentsUniform(h, level, (|level| + 1) / 2, k);
      LevelAtUniform(h, NextLevel(h, level), d - 1, k);
    }
  }

  /** A proof shorter than the tree is deep authenticates an inner node, never anything else. */
  lemma SoundnessOfShortProofs(h: HashFn, leaves: seq<string>, i: nat, v: string, proof: seq<string>, k: nat)
    requires forall s :: |h(s)| == k
    requires leaves != [] && Uniform(leaves, k) && |v| == k
    requires |proof| <= Depth(|leaves|)
    requires Fold(h, v, proof, i) == Root(h, leaves)
    ensures var inner := LevelAt(h, leaves, Depth(|leaves|) - |proof|);
            inner != [] &&
            (v == inner[Resolve(|inner|, i)] || IsCollision(h, ExtractCollision(h, inner, i, v, proof)))
  {
    var d := Depth(|leaves|) - |proof|;
    LevelAtShape(h, leaves, d);
    LevelAtUniform(h, leaves, d, k);
    SoundnessAtAnyIndex(h, LevelAt(h, leaves, d), i, v, proof, k);
  }

  /** A value of any length, over leaves of any length: what was hashed with it is the very string
      the tree hashed there. */
  lemma SoundnessOfAnyValue(h: HashFn, leaves: seq<string>, i: nat, v: string, proof: seq<string>, k: nat)
    requires forall s :: |h(s)| == k
    requires |leaves| > 1 && |proof| == Depth(|leaves|)
    requires Fold(h, v, proof, i) == Root(h, leaves)
    ensures Combine(v, proof[0], i) == TreePair(leaves, i) ||
            IsCollision(h, ExtractCollision(h, leaves, i, v, proof))
  {
    if Combine(v, proof[0], i) != TreePair(leaves, i) {
      var next, above := NextLevel(h, leaves), h(Combine(v, proof[0], i));
      ParentsUniform(h, leaves, |next|, k);
      SoundnessAtAnyIndex(h, next, i / 2, above, proof[1..], k);
      TreePairHashed(h, leaves, i);
      CollisionLifts(h, leaves, i, v, proof);
    }
  }

  function Halved(i: nat, e: nat): nat
    decreases e
  {
    if e == 0 then i else Halved(i / 2, e - 1)
  }

  lemma {:induction false} FoldInTwo(h: HashFn, v: string, proof: seq<string>, i: nat, e: nat)
    requires e <= |proof|
    ensures Fold(h, v, proof, i) == Fold(h, Fold(h, v, proof[..e], i), proof[e..], Halved(i, e))
    decreases e
  {
    if e > 0 {
      var above := h(Combine(v, proof[0], i));
      FoldInTwo(h, above, proof[1..], i / 2, e - 1);
      assert proof[..e][1..] == proof[1..][..e - 1] && proof[e..] == proof[1..][e - 1..];
    }
  }

  lemma {:induction false} FoldLength(h: HashFn, v: string, proof: seq<string>, i: nat, k: nat)
    requires forall s :: |h(s)| == k
    requires proof != []
    ensures |Fold(h, v, proof, i)| == k
    decreases |proof|
  {
    var above := h(Combine(v, proof[0], i));
    if |proof| > 1 { FoldLength(h, above, proof[1..], i / 2, k); }
  }

  /** A proof longer than the tree is deep, for a value of any length, hashes up to a leaf first. */
  lemma SoundnessOfLongProofs(h: HashFn, leaves: seq<string>, i: nat, v: string, proof: seq<string>, k: nat)
    requires forall s :: |h(s)| == k
    requires leaves != [] && Uniform(leaves, k) && |proof| > Depth(|leaves|)
    requires Fold(h, v, proof, i) == Root(h, leaves)
    ensures var e := |proof| - Depth(|leaves|);
            var w, j := Fold(h, v, proof[..e], i), Halved(i, e);
            w == leaves[Resolve(|leaves|, j)] || IsCollision(h, ExtractCollision(h, leaves, j, w, proof[e..]))
  {
    var e := |proof| - Depth(|leaves|);
    FoldInTwo(h, v, proof, i, e);
    FoldLength(h, v, proof[..e], i, k);
    SoundnessAtAnyIndex(h, leaves, Halved(i, e), Fold(h, v, proof[..e], i), proof[e..], k);
  }

  // ----- Exactly which leaves are accepted with their own proof -----

  lemma {:induction false} UnpairedProofIsShort(h: HashFn, level: seq<string>, i: nat)
    requires i < |level|
    ensures |Proof(h, level, i)| <= Depth(|level|)
    ensures |Proof(h, level, i)| == Depth(|level|) <==> PathPaired(|level|, i)
    decreases |level|
  {
    if |level| > 1 { UnpairedProofIsShort(h, NextLevel(h, level), i / 2); }
  }

  /** With no collision among the strings involved, and a leaf that is not itself the digest
      stored in an inner node, the leaf's own proof is accepted exactly when its path is paired. */
  lemma OwnProofAcceptedIff(h: HashFn, leaves: seq<string>, i: nat, k: nat)
    requires forall s :: |h(s)| == k
    requires i < |leaves| && Uniform(leaves, k)
    requires forall d :: 1 <= d <= Depth(|leaves|) ==> leaves[i] !in LevelAt(h, leaves, d)
    requires forall d :: 1 <= d <= Depth(|leaves|) ==>
               !IsCollision(h, ExtractCollision(h, LevelAt(h, leaves, d), i, leaves[i], Proof(h, leaves, i)))
    ensures Fold(h, leaves[i], Proof(h, leaves, i), i) == Root(h, leaves) <==> PathPaired(|leaves|, i)
  {
    var proof := Proof(h, leaves, i);
    UnpairedProofIsShort(h, leaves, i);
    if PathPaired(|leaves|, i) {
      Completeness(h, leaves, i);
    } else if Fold(h, leaves[i], proof, i) == Root(h, leaves) {
      SoundnessOfShortProofs(h, leaves, i, leaves[i], proof, k);
      assert false;
    }
  }

  function ToyHash(s: string): string {
    if s == "ab" then "d" else if s == "cc" then "e" else if s == "de" then "f" else "g"
  }

  /** Three leaves: the proof of the last one is rejected by the tree that issued it. */
  lemma UnpairedLeafRejected()
    ensures var leaves := ["a", "b", "c"];
            Proof(ToyHash, leaves, 2) == ["d"] &&
            Fold(ToyHash, leaves[2], Proof(ToyHash, leaves, 2), 2) != Root(ToyHash, leaves)
  {
    var leaves := ["a", "b", "c"];
    var next := NextLevel(ToyHash, leaves);
    ParentAt(ToyHash, leaves, 2, 0);
    ParentAt(ToyHash, leaves, 2, 1);
    assert "a" + "b" == "ab" && "c" + "c" == "cc" && "d" + "e" == "de" && "c" + "d" == "cd";
    assert next == ["d", "e"];
    assert Proof(ToyHash, next, 1) == ["d"];
    assert NextLevel(ToyHash, next) == ["f"];
    assert RootOf(ToyHash, leaves) == RootOf(ToyHash, next) == RootOf(ToyHash, ["f"]) == "f";
    assert ["d"][1..] == [];
    assert Fold(ToyHash, "c", ["d"], 2) == Fold(ToyHash, "g", [], 1) == "g";
  }

  // ----- The loops -----

  lemma ParentsExtend(h: HashFn, level: seq<string>, q: nat)
    requires 2 * q + 1 < |level|
    ensures Pair(level, q) == level[2 * q] + level[2 * q + 1]
    ensures Parents(h, level, q + 1) == Parents(h, level, q) + [h(Pair(level, q))]
  {
  }

  /** The inner loop, on a level that has been padded to even length. */
  method HashPairs(h: HashFn, level: seq<string>) returns (next: seq<string>)
    requires |level| % 2 == 0
    ensures next == NextLevel(h, level)
  {
    next := [];
    var i := 0;
    ghost var q, n := 0, |level| / 2;
    while i < |level|
      invariant i == 2 * q && q <= n && |level| == 2 * n
      invariant next == Parents(h, level, q)
    {
      ParentsExtend(h, level, q);
      var pair := level[i] + level[i + 1];
      assert pair == Pair(level, q);
      next := next + [h(pair)];
      i, q := i + 2, q + 1;
    }
  }

  lemma {:induction false} ParentsOfPadded(h: HashFn, level: seq<string>, m: nat)
    requires |level| % 2 == 1 && m <= (|level| + 1) / 2
    ensures Parents(h, level + [level[|level| - 1]], m) == Parents(h, level, m)
    decreases m
  {
    if m > 0 {
      ParentsOfPadded(h, level, m - 1);
      PairOfPadded(level, m - 1);
    }
  }

  lemma PairOfPadded(level: seq<string>, q: nat)
    requires |level| % 2 == 1 && q < (|level| + 1) / 2
    ensures Pair(level + [level[|level| - 1]], q) == Pair(level, q)
  {
    var padded := level + [level[|level| - 1]];
    assert Child(padded, 2 * q) == Child(level, 2 * q);
    assert Child(padded, 2 * q + 1) == Child(level, 2 * q + 1);
  }

  /** Node q of the next level hashes children 2q and 2q + 1 in this order, a single last one with itself. */
  lemma NextLevelNodes(h: HashFn, level: seq<string>)
    ensures forall q :: 0 <= q < (|level| + 1) / 2 ==>
              NextLevel(h, level)[q] == h(level[2 * q] + level[if 2 * q + 1 < |level| then 2 * q + 1 else 2 * q])
  {
    forall q | 0 <= q < (|level| + 1) / 2
      ensures NextLevel(h, level)[q] == h(level[2 * q] + level[if 2 * q + 1 < |level| then 2 * q + 1 else 2 * q])
    {
      ParentAt(h, level, (|level| + 1) / 2, q);
    }
  }

  method HashLevel(h: HashFn, level: seq<string>) returns (next: seq<string>)
    ensures next == NextLevel(h, level)
    ensures |next| == (|level| + 1) / 2
    ensures forall q :: 0 <= q < |next| ==>
              next[q] == h(level[2 * q] + level[if 2 * q + 1 < |level| then 2 * q + 1 else 2 * q])
  {
    NextLevelNodes(h, level);
    if |level| % 2 == 1 {
      ParentsOfPadded(h, level, (|level| + 1) / 2);
      next := HashPairs(h, level + [level[|level| - 1]]);
    } else {
      next := HashPairs(h, level);
    }
  }

  /** Static root computation; the argument vector is overwritten with the last level. */
  method ComputeMerkleRoot(h: HashFn, hashes: seq<string>) returns (root: string, last: seq<string>)
    ensures root == Root(h, hashes)
    ensures hashes == [] ==> root == h("empty")
    ensures last == if hashes == [] then [] else [root]
  {
    last := hashes;
    if last == [] {
      return h("empty"), last;
    }
    while |last| > 1
      invariant last != [] && RootOf(h, last) == RootOf(h, hashes)
      decreases |last|
    {
      last := HashLevel(h, last);
    }
    root := last[0];
  }

  lemma ProofPrefix(h: HashFn, level: seq<string>, i: nat, done: seq<string>)
    requires |level| > 1
    ensures done + Proof(h, level, i) ==
            (if Sibling(i) < |level| then done + [level[Sibling(i)]] else done) + Proof(h, NextLevel(h, level), i / 2)
  {
    var step := if Sibling(i) < |level| then [level[Sibling(i)]] else [];
    ConcatAssociates(done, step, Proof(h, NextLevel(h, level), i / 2));
    assert done + [] == done;
  }

  method ComputeProof(h: HashFn, hashes: seq<string>, targetIndex: nat) returns (proof: seq<string>)
    ensures proof == if targetIndex < |hashes| then Proof(h, hashes, targetIndex) else []
  {
    proof := [];
    if targetIndex >= |hashes| { return; }
    var current, idx := hashes, targetIndex;
    while |current| > 1
      invariant 0 <= idx < |current|
      invariant Proof(h, hashes, targetIndex) == proof + Proof(h, current, idx)
      decreases |current|
    {
      ProofPrefix(h, current, idx, proof);
      var sibling := if idx % 2 == 0 then idx + 1 else idx - 1;
      if sibling < |current| {
        proof := proof + [current[sibling]];
      }
      current := HashLevel(h, current);
      idx := idx / 2;
    }
  }

  method VerifyProof(h: HashFn, hash: string, proof: seq<string>, root: string, index: nat) returns (ok: bool)
    ensures ok <==> Fold(h, hash, proof, index) == root
  {
    var current, idx: nat := hash, index;
    for k := 0 to |proof|
      invariant Fold(h, hash, proof, index) == Fold(h, current, proof[k..], idx)
    {
      if idx % 2 == 0 {
        current := h(current + proof[k]);
      } else {
        current := h(proof[k] + current);
      }
      idx := idx / 2;
      assert proof[k..][1..] == proof[k + 1..];
    }
    ok := current == root;
  }

  lemma LevelsPrefix(h: HashFn, level: seq<string>, done: seq<seq<string>>)
    requires |level| > 1
    ensures var next := NextLevel(h, level);
            done + Levels(h, level)[1..] == (done + [next]) + Levels(h, next)[1..]
  {
  }

  lemma ProofAtLevel(h: HashFn, leaves: seq<string>, d: nat, i: nat, done: seq<string>)
    requires leaves != [] && d < Depth(|leaves|) && i < |LevelAt(h, leaves, d)|
    ensures i / 2 < |LevelAt(h, leaves, d + 1)|
    ensures var level := LevelAt(h, leaves, d);
            done + Proof(h, level, i) ==
            (if Sibling(i) < |level| then done + [level[Sibling(i)]] else done) + Proof(h, LevelAt(h, leaves, d + 1), i / 2)
  {
    LevelAtShape(h, leaves, d);
    LevelAtNext(h, leaves, d);
    ProofPrefix(h, LevelAt(h, leaves, d), i, done);
  }

  class MerkleTree {
    const h: HashFn
    var leaves: seq<string>
    var tree: seq<seq<string>>
    var root: string
    var built: bool

    /** A built tree holds the levels and the root of its leaves. */
    ghost predicate Valid()
      reads this
    {
      built ==> root == Root(h, leaves) && (leaves != [] ==> tree == Levels(h, leaves))
    }

    constructor (h: HashFn)
      ensures Valid() && !built && leaves == [] && root == "" && this.h == h
    {
      this.h := h;
      leaves, tree, root, built := [], [], "", false;
    }

    constructor FromLeaves(h: HashFn, leafHashes: seq<string>)
      ensures Valid() && built && leaves == leafHashes && this.h == h
    {
      this.h := h;
      leaves, tree, root, built := leafHashes, [], "", false;
      new;
      Build();
    }

    method Build()
      modifies this
      ensures Valid() && built && leaves == old(leaves)
      ensures leaves == [] ==> root == h("empty")
      ensures leaves != [] ==> tree != [] && tree[0] == leaves && tree[|tree| - 1] == [root]
    {
      if leaves == [] {
        root, built := h("empty"), true;
        return;
      }
      tree := [leaves];
      var current := leaves;
      while |current| > 1
        invariant current != [] && leaves == old(leaves)
        invariant tree + Levels(h, current)[1..] == Levels(h, leaves)
        invariant RootOf(h, current) == RootOf(h, leaves)
        decreases |current|
      {
        var next := HashLevel(h, current);
        LevelsPrefix(h, current, tree);
        tree := tree + [next];
        current := next;
      }
      assert Levels(h, current)[1..] == [];
      LevelsAreLevelAt(h, leaves);
      root, built := if current == [] then h("empty") else current[0], true;
    }

    method AddLeaf(leafHash: string)
      modifies this
      ensures Valid() && !built && leaves == old(leaves) + [leafHash] && root == old(root)
    {
      leaves, built := leaves + [leafHash], false;
    }

    method AddLeaves(leafHashes: seq<string>)
      modifies this
      ensures Valid() && !built && leaves == old(leaves) + leafHashes && root == old(root)
    {
      leaves, built := leaves + leafHashes, false;
    }

    method Clear()
      modifies this
      ensures Valid() && !built && leaves == [] && tree == [] && root == ""
    {
      leaves, tree, root, built := [], [], "", false;
    }

    /** Read off the stored tree, a proof is the one computed from the leaves alone. */
    method GetProof(leafIndex: nat) returns (proof: seq<string>)
      requires Valid()
      ensures proof == if built && leafIndex < |leaves| then Proof(h, leaves, leafIndex) else []
    {
      proof := [];
      if !built || leafIndex >= |leaves| { return; }
      LevelsAreLevelAt(h, leaves);
      var idx: nat := leafIndex;
      for level := 0 to |tree| - 1
        invariant idx < |LevelAt(h, leaves, level)|
        invariant Proof(h, leaves, leafIndex) == proof + Proof(h, LevelAt(h, leaves, level), idx)
      {
        ProofAtLevel(h, leaves, level, idx, proof);
        var sibling := if idx % 2 == 0 then idx + 1 else idx - 1;
        if sibling < |tree[level]| {
          proof := proof + [tree[level][sibling]];
        }
        idx := idx / 2;
      }
    }

    method Verify(leafHash: string, proof: seq<string>, leafIndex: nat) returns (ok: bool)
      ensures ok <==> Fold(h, leafHash, proof, leafIndex) == root
    {
      ok := VerifyProof(h, leafHash, proof, root, leafIndex);
    }
  }
}
