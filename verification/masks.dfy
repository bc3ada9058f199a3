/** Boolean masks over the local scalar DOFs and the two numpy operations
    the DOF bookkeeping applies to them: the number of set entries
    (`np.sum` of a boolean array) and the ascending list of set positions
    (`np.nonzero`), together with the rank of a set position in that list. */
module Masks {

  /** Number of set entries of `m`. */
  function Count(m: seq<bool>): (r: nat)
    ensures r <= |m|
  {
    if |m| == 0 then 0 else Count(m[..|m| - 1]) + (if m[|m| - 1] then 1 else 0)
  }

  /** Ascending positions of the set entries of `m` (`np.nonzero(m)[0]`). */
  function Nonzero(m: seq<bool>): (r: seq<nat>)
    ensures |r| == Count(m)
    ensures forall j :: 0 <= j < |r| ==> r[j] < |m| && m[r[j]]
    ensures forall j, j' :: 0 <= j < j' < |r| ==> r[j] < r[j']
  {
    if |m| == 0 then []
    else Nonzero(m[..|m| - 1]) + (if m[|m| - 1] then [|m| - 1] else [])
  }

  /** Position of local DOF `i` among the set entries: the number of set
      entries strictly before `i`. */
  function Rank(m: seq<bool>, i: nat): (r: nat)
    requires i <= |m|
    ensures r <= i
  {
    Count(m[..i])
  }

  /** Every set entry of `m` occurs in `Nonzero(m)`. */
  lemma {:induction false} NonzeroComplete(m: seq<bool>, i: nat)
    requires i < |m| && m[i]
    ensures i in Nonzero(m)
  {
    if i < |m| - 1 {
      assert m[..|m| - 1][i] == m[i];
      NonzeroComplete(m[..|m| - 1], i);
    }
  }

  /** Counting a prefix one entry longer adds that entry. */
  lemma CountSnoc(m: seq<bool>, i: nat)
    requires i < |m|
    ensures Count(m[..i + 1]) == Count(m[..i]) + (if m[i] then 1 else 0)
  {
    assert m[..i + 1][..i] == m[..i];
  }

  /** `Nonzero` of a prefix is a prefix of `Nonzero`. */
  lemma {:induction false} NonzeroPrefix(m: seq<bool>, a: nat)
    requires a <= |m|
    ensures Nonzero(m[..a]) <= Nonzero(m)
    decreases |m| - a
  {
    if a < |m| {
      NonzeroPrefix(m, a + 1);
      assert m[..a + 1][..a] == m[..a];
    } else {
      assert m[..a] == m;
    }
  }

  /** The rank of a set entry is its index in `Nonzero`, so the rank is
      below the total count and picks that entry back out. */
  lemma RankIndexesNonzero(m: seq<bool>, i: nat)
    requires i < |m| && m[i]
    ensures Rank(m, i) < Count(m)
    ensures Nonzero(m)[Rank(m, i)] == i
  {
    NonzeroPrefix(m, i + 1);
    assert m[..i + 1][..i] == m[..i];
    assert Nonzero(m[..i + 1]) == Nonzero(m[..i]) + [i];
  }

  /** Two set entries with the same rank are the same entry. */
  lemma RankInjective(m: seq<bool>, i: nat, i': nat)
    requires i < |m| && m[i] && i' < |m| && m[i']
    requires Rank(m, i) == Rank(m, i')
    ensures i == i'
  {
    RankIndexesNonzero(m, i);
    RankIndexesNonzero(m, i');
  }

  /** Every rank below the count belongs to some set entry. */
  lemma RankSurjective(m: seq<bool>, j: nat)
    requires j < Count(m)
    ensures exists i :: 0 <= i < |m| && m[i] && Rank(m, i) == j
  {
    var i := Nonzero(m)[j];
    RankIndexesNonzero(m, i);
  }

  /** A mask has a set entry exactly when its count is positive
      (`np.sum(m) > 0`). */
  lemma {:induction false} CountPositive(m: seq<bool>)
    ensures Count(m) > 0 <==> exists e :: 0 <= e < |m| && m[e]
  {
    if |m| > 0 {
      var m' := m[..|m| - 1];
      CountPositive(m');
      if exists e :: 0 <= e < |m'| && m'[e] {
        var e :| 0 <= e < |m'| && m'[e];
        assert m[e];
      }
      if exists e :: 0 <= e < |m| && m[e] {
        var e :| 0 <= e < |m| && m[e];
        if e < |m| - 1 {
          assert m'[e];
        }
      }
    }
  }
}
