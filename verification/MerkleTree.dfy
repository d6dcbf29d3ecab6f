/**
 Why a proof may be modelled by the list of its tree and a leaf. The tree library arranges the hashed
 entries in an order that depends on nothing but the entries, and stores the tree in an array, with the
 leaves at the end. Two hashes are joined in an order that depends on nothing but the two. Hashes do
 not collide, so a hash is what was hashed.
 */
module MerkleTree {
  import opened Tally
  import opened Governor

  datatype Hash = Leaf(e: Entry) | Join(left: Hash, right: Hash)

  // ---- The orders ----

  ghost function Arranged(m: multiset<Entry>): (s: seq<Entry>)
    ensures multiset(s) == m
    decreases |m|
  {
    if m == multiset{} then []
    else
      var e :| e in m;
      Arranged(m - multiset{e}) + [e]
  }

  predicate Joins(h: Hash, both: multiset<Hash>) {
    h.Join? && both == multiset{h.left, h.right}
  }

  ghost function JoinBoth(both: multiset<Hash>): (h: Hash)
    requires exists h :: Joins(h, both)
    ensures Joins(h, both)
  {
    var h :| Joins(h, both);
    h
  }

  ghost function Combine(a: Hash, b: Hash): (h: Hash)
    ensures Joins(h, multiset{a, b})
  {
    assert Joins(Join(a, b), multiset{a, b});
    JoinBoth(multiset{a, b})
  }

  lemma CombineIs(a: Hash, b: Hash)
    ensures Combine(a, b) == Join(a, b) || Combine(a, b) == Join(b, a)
  {
    var h := Combine(a, b);
    assert h.left in multiset{a, b};
    assert multiset{a, b} - multiset{h.left} == multiset{h.right};
    assert h.left == a ==> multiset{a, b} - multiset{a} == multiset{b};
    assert h.left == b ==> multiset{a, b} - multiset{b} == multiset{a};
    assert h.right in multiset{h.right};
  }

  lemma CombineCommutes(a: Hash, b: Hash)
    ensures Combine(a, b) == Combine(b, a)
  {
    assert multiset{a, b} == multiset{b, a};
  }

  // ---- The tree ----

  /** The array of a tree from index `k` on, filled from the end: first the leaves, then each inner node
      from the two below it. */
  ghost function Filled(es: seq<Entry>, k: nat): (t: seq<Hash>)
    requires es != [] && k <= 2 * |es| - 1
    ensures |t| == 2 * |es| - 1 - k
    decreases 2 * |es| - k
  {
    if k == 2 * |es| - 1 then []
    else
      var below := Filled(es, k + 1);
      [if k >= |es| - 1 then Leaf(es[2 * |es| - 2 - k]) else Combine(below[k], below[k + 1])] + below
  }

  ghost function Tree(es: seq<Entry>): (t: seq<Hash>)
    requires es != []
    ensures |t| == 2 * |es| - 1
  {
    Filled(es, 0)
  }

  lemma {:induction false} FilledIsSuffix(es: seq<Entry>, k: nat)
    requires es != [] && k <= 2 * |es| - 1
    ensures Tree(es)[k..] == Filled(es, k)
  {
    if k > 0 {
      FilledIsSuffix(es, k - 1);
      assert Tree(es)[k..] == Tree(es)[k - 1..][1..];
    }
  }

  ghost predicate LeafAt(t: seq<Hash>, es: seq<Entry>, k: nat)
    requires |t| == 2 * |es| - 1 && |es| - 1 <= k < |t|
  {
    t[k] == Leaf(es[2 * |es| - 2 - k])
  }

  ghost predicate InnerAt(t: seq<Hash>, k: nat)
    requires 2 * k + 2 < |t|
  {
    t[k] == Combine(t[2 * k + 1], t[2 * k + 2])
  }

  ghost predicate IsTree(t: seq<Hash>, es: seq<Entry>) {
    es != [] && t == Tree(es)
  }

  lemma FilledAt(es: seq<Entry>, k: nat)
    requires k < 2 * |es| - 1
    ensures k >= |es| - 1 ==> LeafAt(Tree(es), es, k)
    ensures k < |es| - 1 ==> InnerAt(Tree(es), k)
  {
    var t, below := Tree(es), Filled(es, k + 1);
    FilledIsSuffix(es, k);
    FilledIsSuffix(es, k + 1);
    assert t[k] == t[k..][0];
    if k < |es| - 1 {
      assert t[k + 1..][k] == t[2 * k + 1] && t[k + 1..][k + 1] == t[2 * k + 2];
    }
  }

  ghost function Root(es: seq<Entry>): Hash
    requires es != []
  {
    Tree(Arranged(multiset(es)))[0]
  }

  function Sibling(i: nat): nat
    requires i > 0
  {
    if i % 2 == 1 then i + 1 else i - 1
  }

  /** The siblings on the way from an index of a tree to its root. */
  function Path(t: seq<Hash>, i: nat): seq<Hash>
    requires i < |t| && |t| % 2 == 1
  {
    if i == 0 then [] else [t[Sibling(i)]] + Path(t, (i - 1) / 2)
  }

  /** The proof is made from the tree over a list for one of its entries. */
  ghost predicate IsProofFor(proof: seq<Hash>, es: seq<Entry>, e: Entry)
    requires es != []
  {
    exists k :: IsProofAt(proof, Tree(Arranged(multiset(es))), e, k)
  }

  predicate IsProofAt(proof: seq<Hash>, t: seq<Hash>, e: Entry, k: nat) {
    k < |t| && |t| % 2 == 1 && t[k] == Leaf(e) && proof == Path(t, k)
  }

  /** What the contract computes from the hash of an entry and a proof. */
  ghost function Processed(h: Hash, proof: seq<Hash>): Hash
    decreases |proof|
  {
    if proof == [] then h else Processed(Combine(h, proof[0]), proof[1..])
  }

  // ---- A proof leads to the root of its own tree ----

  lemma SiblingIs(i: nat)
    requires i > 0
    ensures var j := (i - 1) / 2; (i == 2 * j + 1 && Sibling(i) == 2 * j + 2) || (i == 2 * j + 2 && Sibling(i) == 2 * j + 1)
  {
  }

  lemma CombineUp(t: seq<Hash>, i: nat, j: nat)
    requires 2 * j + 2 < |t| && InnerAt(t, j) && (i == 2 * j + 1 || i == 2 * j + 2)
    ensures Combine(t[i], t[if i == 2 * j + 1 then 2 * j + 2 else 2 * j + 1]) == t[j]
  {
    CombineCommutes(t[2 * j + 1], t[2 * j + 2]);
  }

  lemma StepUp(t: seq<Hash>, es: seq<Entry>, i: nat)
    requires IsTree(t, es) && 0 < i < |t|
    ensures Sibling(i) < |t| && Combine(t[i], t[Sibling(i)]) == t[(i - 1) / 2]
  {
    var j := (i - 1) / 2;
    SiblingIs(i);
    FilledAt(es, j);
    CombineUp(t, i, j);
  }

  lemma {:induction false} PathLeadsToRoot(t: seq<Hash>, es: seq<Entry>, i: nat)
    requires IsTree(t, es) && i < |t|
    ensures Processed(t[i], Path(t, i)) == t[0]
  {
    if i > 0 {
      var parent := (i - 1) / 2;
      StepUp(t, es, i);
      assert Path(t, i)[1..] == Path(t, parent);
      PathLeadsToRoot(t, es, parent);
    }
  }

  lemma ProofLeadsToRoot(es: seq<Entry>, e: Entry, proof: seq<Hash>)
    requires es != [] && IsProofFor(proof, es, e)
    ensures Processed(Leaf(e), proof) == Root(es)
  {
    var s := Arranged(multiset(es));
    var t := Tree(s);
    var k :| IsProofAt(proof, t, e, k);
    PathLeadsToRoot(t, s, k);
  }

  lemma LeafOf(s: seq<Entry>, e: Entry) returns (k: nat)
    requires e in s
    ensures k < 2 * |s| - 1 && Tree(s)[k] == Leaf(e)
  {
    var p: nat :| p < |s| && s[p] == e;
    k := 2 * |s| - 2 - p;
    FilledAt(s, k);
  }

  lemma HasProof(es: seq<Entry>, e: Entry) returns (proof: seq<Hash>)
    requires e in es
    ensures IsProofFor(proof, es, e)
  {
    var s := Arranged(multiset(es));
    assert e in multiset(s);
    var k := LeafOf(s, e);
    proof := Path(Tree(s), k);
    assert IsProofAt(proof, Tree(s), e, k);
  }

  // ---- A root determines the entries ----

  /** How many leaves under a hash are of an entry. */
  function Times(h: Hash, e: Entry): nat {
    match h
    case Leaf(f) => if f == e then 1 else 0
    case Join(left, right) => Times(left, e) + Times(right, e)
  }

  lemma TimesInCombine(a: Hash, b: Hash, e: Entry)
    ensures Times(Combine(a, b), e) == Times(a, e) + Times(b, e)
  {
    CombineIs(a, b);
  }

  /** How many leaves under the nodes from `i` on, below `j`, are of an entry. */
  function Under(t: seq<Hash>, i: nat, j: nat, e: Entry): nat
    requires j <= |t|
    decreases j - i
  {
    if i >= j then 0 else Times(t[i], e) + Under(t, i + 1, j, e)
  }

  lemma {:induction false} UnderLast(t: seq<Hash>, i: nat, j: nat, e: Entry)
    requires i <= j < |t|
    ensures Under(t, i, j + 1, e) == Under(t, i, j, e) + Times(t[j], e)
    decreases j - i
  {
    if i < j {
      UnderLast(t, i + 1, j, e);
    }
  }

  lemma TimesOneMore(es: seq<Entry>, p: nat, e: Entry)
    requires p < |es|
    ensures multiset(es[..p + 1])[e] == multiset(es[..p])[e] + if es[p] == e then 1 else 0
  {
    assert es[..p + 1] == es[..p] + [es[p]];
  }

  /** The last `n` nodes are leaves, of the first entries. */
  lemma {:induction false} LastAreLeaves(t: seq<Hash>, es: seq<Entry>, k: nat, n: nat, e: Entry)
    requires IsTree(t, es) && n <= |es| && k + n == |t|
    ensures Under(t, k, |t|, e) == multiset(es[..n])[e]
    decreases n
  {
    if n > 0 {
      LastAreLeaves(t, es, k + 1, n - 1, e);
      FilledAt(es, k);
      TimesOneMore(es, n - 1, e);
    }
  }

  lemma OneLevelUp(t: seq<Hash>, k: nat, m: nat, e: Entry)
    requires k < m && m + 2 <= |t| && t[k] == Combine(t[m], t[m + 1])
    ensures Under(t, k, m, e) == Under(t, k + 1, m + 2, e)
  {
    TimesInCombine(t[m], t[m + 1], e);
    UnderLast(t, k + 1, m, e);
    UnderLast(t, k + 1, m + 1, e);
  }

  /** Going up, the nodes from `k` to `2k` always cover all leaves. */
  lemma {:induction false} LevelCoversAll(t: seq<Hash>, es: seq<Entry>, k: nat, e: Entry)
    requires IsTree(t, es) && k < |es|
    ensures Under(t, k, 2 * k + 1, e) == multiset(es)[e]
    decreases |es| - k
  {
    if k == |es| - 1 {
      LastAreLeaves(t, es, k, |es|, e);
      assert es[..|es|] == es;
    } else {
      LevelCoversAll(t, es, k + 1, e);
      FilledAt(es, k);
      OneLevelUp(t, k, 2 * k + 1, e);
    }
  }

  lemma TimesInRoot(es: seq<Entry>, e: Entry)
    requires es != []
    ensures Times(Root(es), e) == multiset(es)[e]
  {
    var s := Arranged(multiset(es));
    assert es[0] in multiset(s);
    LevelCoversAll(Tree(s), s, 0, e);
  }

  /** Two lists have the same root if and only if they have the same entries. */
  lemma SameRootIff(a: seq<Entry>, b: seq<Entry>)
    requires a != [] && b != []
    ensures Root(a) == Root(b) <==> SameTree(a, b)
  {
    if Root(a) == Root(b) {
      forall e
        ensures multiset(a)[e] == multiset(b)[e]
      {
        TimesInRoot(a, e);
        TimesInRoot(b, e);
      }
    }
  }

  // ---- What the contract accepts ----

  /** A proof made from the tree over one list is accepted against the root of another if and only if the
      model's claim holds: both lists have the same entries. */
  lemma AcceptedIff(made: seq<Entry>, k: nat, proof: seq<Hash>, root: seq<Entry>)
    requires k < |made| && root != [] && IsProofFor(proof, made, made[k])
    ensures Processed(Leaf(made[k]), proof) == Root(root)
       <==> ProofHolds(root, Attempt(made[k].account, made[k].amount, made, k))
  {
    ProofLeadsToRoot(made, made[k], proof);
    SameRootIff(made, root);
  }

  lemma {:induction false} ProcessedHolds(h: Hash, proof: seq<Hash>, e: Entry)
    ensures Times(h, e) <= Times(Processed(h, proof), e)
    decreases |proof|
  {
    if proof != [] {
      TimesInCombine(h, proof[0], e);
      ProcessedHolds(Combine(h, proof[0]), proof[1..], e);
    }
  }

  /** The model's claims leave no acceptable sequence of hashes out: for an entry some sequence is accepted
      if and only if some such claim holds, which is if and only if the entry is listed. */
  lemma AnyProofAcceptedIff(e: Entry, root: seq<Entry>)
    requires root != []
    ensures (exists proof :: Processed(Leaf(e), proof) == Root(root)) <==> e in root
    ensures (exists list, k :: ProofHolds(root, Attempt(e.account, e.amount, list, k))) <==> e in root
  {
    if proof: seq<Hash> :| Processed(Leaf(e), proof) == Root(root) {
      ProcessedHolds(Leaf(e), proof, e);
      TimesInRoot(root, e);
      assert e in multiset(root);
    }
    if list: seq<Entry>, k: nat :| ProofHolds(root, Attempt(e.account, e.amount, list, k)) {
      assert list[k] in multiset(list);
    }
    if e in root {
      var proof := HasProof(root, e);
      ProofLeadsToRoot(root, e, proof);
      var k :| 0 <= k < |root| && root[k] == e;
      assert ProofHolds(root, Attempt(e.account, e.amount, root, k));
    }
  }
}
