/** Datatypes and sequence facts shared by all modules. */
module Common {

  datatype Option<+T> = None | Some(value: T)

  datatype Result<+T, +E> = Ok(value: T) | Err(error: E)

  /** A checksummed account address, as the wallet and signature recovery print it. */
  type Address = string

  /** The sequence without its element at index `k`. */
  function Without<T>(s: seq<T>, k: nat): seq<T>
    requires k < |s|
  {
    s[..k] + s[k + 1..]
  }

  lemma WithoutTakesOne<T>(s: seq<T>, k: nat)
    requires k < |s|
    ensures multiset(Without(s, k)) == multiset(s) - multiset{s[k]}
  {
    assert s == s[..k] + [s[k]] + s[k + 1..];
  }

  predicate NoDuplicates<T(==)>(s: seq<T>) {
    forall i, j :: 0 <= i < j < |s| ==> s[i] != s[j]
  }

  function Elements<T>(s: seq<T>): set<T> {
    set x | x in s
  }

  /** A duplicate-free sequence has as many elements as positions. */
  lemma {:induction false} ElementsCount<T>(s: seq<T>)
    requires NoDuplicates(s)
    ensures |Elements(s)| == |s|
  {
    if s != [] {
      var n := |s| - 1;
      ElementsCount(s[..n]);
      assert Elements(s) == Elements(s[..n]) + {s[n]};
    }
  }

  /** A subset is the whole set exactly when it has as many elements. */
  lemma SubsetOfSameSize<T>(a: set<T>, b: set<T>)
    requires a <= b
    ensures |a| <= |b|
    ensures b <= a <==> |a| == |b|
  {
    assert a + (b - a) == b;
    assert |b| == |a| + |b - a|;
    assert b <= a <==> b - a == {};
  }

  function Count<T>(s: seq<T>, hit: T -> bool): nat {
    if s == [] then 0
    else Count(s[..|s| - 1], hit) + if hit(s[|s| - 1]) then 1 else 0
  }

  lemma {:induction false} CountWithout<T>(s: seq<T>, k: nat, hit: T -> bool)
    requires k < |s|
    ensures Count(s, hit) == Count(Without(s, k), hit) + if hit(s[k]) then 1 else 0
  {
    var n := |s| - 1;
    if k == n {
      assert Without(s, k) == s[..n];
    } else {
      CountWithout(s[..n], k, hit);
      assert Without(s, k)[..n - 1] == Without(s[..n], k);
    }
  }

  /** The last element of a permutation stands somewhere in the other sequence. */
  lemma MatchLast<T>(s: seq<T>, t: seq<T>) returns (k: nat)
    requires multiset(s) == multiset(t) && s != []
    ensures k < |t| && t[k] == s[|s| - 1]
    ensures multiset(s[..|s| - 1]) == multiset(Without(t, k))
  {
    var n := |s| - 1;
    assert s == s[..n] + [s[n]];
    assert s[n] in multiset(t);
    k :| 0 <= k < |t| && t[k] == s[n];
    WithoutTakesOne(t, k);
  }

  lemma {:induction false} CountOfPermutation<T>(s: seq<T>, t: seq<T>, hit: T -> bool)
    requires multiset(s) == multiset(t)
    ensures Count(s, hit) == Count(t, hit)
  {
    if s == [] {
      assert |multiset(t)| == |t|;
    } else {
      var k := MatchLast(s, t);
      CountWithout(t, k, hit);
      CountOfPermutation(s[..|s| - 1], Without(t, k), hit);
    }
  }
}
