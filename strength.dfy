/** Strength of connection between users: the overlap of their friendship rows.
    `friend[u][i]` is user `u`'s friendship flag for user `i` (1 for a friend,
    0 otherwise); `strength[u1, u2]` is the score the C program stores in
    `users[u1].strength[u2]`. Only the first `n` users (the population read
    from the input) take part. */
module Strength {

  /** The first `n` rows each hold at least `n` flags. */
  predicate Covers(friend: seq<seq<int>>, n: nat) {
    n <= |friend| && forall u :: 0 <= u < n ==> n <= |friend[u]|
  }

  /** Every flag among the first `n` users is 0 or 1. */
  predicate Binary(friend: seq<seq<int>>, n: nat)
    requires Covers(friend, n)
  {
    forall u, i :: 0 <= u < n && 0 <= i < n ==> friend[u][i] == 0 || friend[u][i] == 1
  }

  /** The first `n` users see each other the same way. */
  predicate Symmetric(friend: seq<seq<int>>, n: nat)
    requires Covers(friend, n)
  {
    forall u, i :: 0 <= u < n && 0 <= i < n ==> friend[u][i] == friend[i][u]
  }

  /** Number of indices `i < k` at which row `a` or row `b` has a friend. */
  function UnionCount(a: seq<int>, b: seq<int>, k: nat): (c: nat)
    requires k <= |a| && k <= |b|
    ensures c <= k
  {
    if k == 0 then 0
    else UnionCount(a, b, k - 1) + (if a[k - 1] == 1 || b[k - 1] == 1 then 1 else 0)
  }

  /** Number of indices `i < k` at which both rows have a friend. */
  function IntersectCount(a: seq<int>, b: seq<int>, k: nat): (c: nat)
    requires k <= |a| && k <= |b|
    ensures c <= UnionCount(a, b, k)
  {
    if k == 0 then 0
    else IntersectCount(a, b, k - 1) + (if a[k - 1] == 1 && b[k - 1] == 1 then 1 else 0)
  }

  /** The indices below `k` counted by `UnionCount` and by `IntersectCount`. */
  ghost function UnionSet(a: seq<int>, b: seq<int>, k: nat): set<nat>
    requires k <= |a| && k <= |b|
  {
    set i: nat | i < k && (a[i] == 1 || b[i] == 1)
  }

  ghost function IntersectSet(a: seq<int>, b: seq<int>, k: nat): set<nat>
    requires k <= |a| && k <= |b|
  {
    set i: nat | i < k && a[i] == 1 && b[i] == 1
  }

  /** The running union count is the size of the union of the two users'
      friend sets. */
  lemma {:induction false} UnionCountIsSize(a: seq<int>, b: seq<int>, k: nat)
    requires k <= |a| && k <= |b|
    ensures UnionCount(a, b, k) == |UnionSet(a, b, k)|
  {
    if k == 0 {
      assert UnionSet(a, b, k) == {};
    } else {
      UnionCountIsSize(a, b, k - 1);
      var last: nat := k - 1;
      if a[last] == 1 || b[last] == 1 {
        assert UnionSet(a, b, k) == UnionSet(a, b, last) + {last};
      } else {
        assert UnionSet(a, b, k) == UnionSet(a, b, last);
      }
    }
  }

  /** The running intersection count is the size of the intersection of the
      two users' friend sets. */
  lemma {:induction false} IntersectCountIsSize(a: seq<int>, b: seq<int>, k: nat)
    requires k <= |a| && k <= |b|
    ensures IntersectCount(a, b, k) == |IntersectSet(a, b, k)|
  {
    if k == 0 {
      assert IntersectSet(a, b, k) == {};
    } else {
      IntersectCountIsSize(a, b, k - 1);
      var last: nat := k - 1;
      if a[last] == 1 && b[last] == 1 {
        assert IntersectSet(a, b, k) == IntersectSet(a, b, last) + {last};
      } else {
        assert IntersectSet(a, b, k) == IntersectSet(a, b, last);
      }
    }
  }

  /** The running counts are the sizes of the union and the intersection of the
      two users' friend sets, and the intersection lies inside the union. */
  lemma CountsAreSetSizes(a: seq<int>, b: seq<int>, k: nat)
    requires k <= |a| && k <= |b|
    ensures UnionCount(a, b, k) == |UnionSet(a, b, k)|
    ensures IntersectCount(a, b, k) == |IntersectSet(a, b, k)|
    ensures IntersectSet(a, b, k) <= UnionSet(a, b, k)
  {
    UnionCountIsSize(a, b, k);
    IntersectCountIsSize(a, b, k);
  }

  /** A friend anywhere in the first `k` entries of either row puts that index
      in the union. */
  lemma {:induction false} UnionCountPositive(a: seq<int>, b: seq<int>, k: nat, j: nat)
    requires k <= |a| && k <= |b|
    requires j < k && (a[j] == 1 || b[j] == 1)
    ensures UnionCount(a, b, k) >= 1
  {
    if j < k - 1 {
      UnionCountPositive(a, b, k - 1, j);
    }
  }

  /** The two counts do not depend on the order of the rows. */
  lemma {:induction false} CountsSymmetric(a: seq<int>, b: seq<int>, k: nat)
    requires k <= |a| && k <= |b|
    ensures UnionCount(a, b, k) == UnionCount(b, a, k)
    ensures IntersectCount(a, b, k) == IntersectCount(b, a, k)
  {
    if k > 0 {
      CountsSymmetric(a, b, k - 1);
    }
  }

  /** The Jaccard overlap of two rows: shared friends over friends of either. */
  function Jaccard(a: seq<int>, b: seq<int>, k: nat): (r: real)
    requires k <= |a| && k <= |b|
    requires UnionCount(a, b, k) > 0
    ensures 0.0 <= r <= 1.0
  {
    (IntersectCount(a, b, k) as real) / (UnionCount(a, b, k) as real)
  }

  /** The strength of connection of `u1` to `u2`: zero for non-friends whatever
      friends they share, otherwise the overlap of their rows. A friendship flag
      of 1 puts `u2` in the union, so the division is always defined. */
  function StrengthOf(friend: seq<seq<int>>, n: nat, u1: nat, u2: nat): (r: real)
    requires Covers(friend, n) && u1 < n && u2 < n
    requires friend[u1][u2] == 0 || friend[u1][u2] == 1
    ensures friend[u1][u2] == 0 ==> r == 0.0
    ensures 0.0 <= r <= 1.0
  {
    if friend[u1][u2] == 0 then 0.0
    else
      UnionCountPositive(friend[u1], friend[u2], n, u2);
      Jaccard(friend[u1], friend[u2], n)
  }

  /** For a symmetric friendship matrix the strength matrix is symmetric. */
  lemma StrengthSymmetric(friend: seq<seq<int>>, n: nat, u1: nat, u2: nat)
    requires Covers(friend, n) && u1 < n && u2 < n
    requires Binary(friend, n) && Symmetric(friend, n)
    ensures StrengthOf(friend, n, u1, u2) == StrengthOf(friend, n, u2, u1)
  {
    CountsSymmetric(friend[u1], friend[u2], n);
  }

  /** Three users who are all friends: with self-loops every strength is 1, but
      without them each pair shares one friend out of three. */
  lemma TriangleStrengths()
    ensures StrengthOf([[1, 1, 1], [1, 1, 1], [1, 1, 1]], 3, 0, 1) == 1.0
    ensures StrengthOf([[0, 1, 1], [1, 0, 1], [1, 1, 0]], 3, 0, 1) == 1.0 / 3.0
  {
  }

  /** `compare_arrays`: counts the union and the intersection of the two rows and
      stores their ratio at `strength[u1, u2]`. */
  method CompareArrays(friend: seq<seq<int>>, n: nat, u1: nat, u2: nat, strength: array2<real>)
    requires Covers(friend, n) && u1 < n && u2 < n
    requires u1 < strength.Length0 && u2 < strength.Length1
    requires UnionCount(friend[u1], friend[u2], n) > 0
    modifies strength
    ensures strength[u1, u2] == Jaccard(friend[u1], friend[u2], n)
    ensures forall z, i :: 0 <= z < strength.Length0 && 0 <= i < strength.Length1 && (z != u1 || i != u2) ==>
              strength[z, i] == old(strength[z, i])
  {
    var intersectCount, unionCount := 0, 0;
    for i := 0 to n
      invariant unionCount == UnionCount(friend[u1], friend[u2], i)
      invariant intersectCount == IntersectCount(friend[u1], friend[u2], i)
    {
      if friend[u1][i] == 1 || friend[u2][i] == 1 {
        unionCount := unionCount + 1;
        if friend[u1][i] == 1 && friend[u2][i] == 1 {
          intersectCount := intersectCount + 1;
        }
      }
    }
    strength[u1, u2] := (intersectCount as real) / (unionCount as real);
  }

  /** `s_o_c`: the strength of connection of `u1` to `u2`, stored at
      `strength[u1, u2]`. */
  method StrengthOfConnection(friend: seq<seq<int>>, n: nat, u1: nat, u2: nat, strength: array2<real>)
    requires Covers(friend, n) && u1 < n && u2 < n
    requires u1 < strength.Length0 && u2 < strength.Length1
    requires friend[u1][u2] == 0 || friend[u1][u2] == 1
    modifies strength
    ensures strength[u1, u2] == StrengthOf(friend, n, u1, u2)
    ensures forall z, i :: 0 <= z < strength.Length0 && 0 <= i < strength.Length1 && (z != u1 || i != u2) ==>
              strength[z, i] == old(strength[z, i])
  {
    if friend[u1][u2] == 0 {
      strength[u1, u2] := 0.0;
    } else {
      UnionCountPositive(friend[u1], friend[u2], n, u2);
      CompareArrays(friend, n, u1, u2, strength);
    }
  }

  /** `compute_arrays`: fills `strength[z, i]` for every ordered pair of the `n`
      users, row by row, and leaves every other cell as it was. */
  method ComputeArrays(friend: seq<seq<int>>, n: nat, strength: array2<real>)
    requires Covers(friend, n) && Binary(friend, n)
    requires n <= strength.Length0 && n <= strength.Length1
    modifies strength
    ensures forall z, i :: 0 <= z < n && 0 <= i < n ==> strength[z, i] == StrengthOf(friend, n, z, i)
    ensures forall z, i :: 0 <= z < strength.Length0 && 0 <= i < strength.Length1 && (n <= z || n <= i) ==>
              strength[z, i] == old(strength[z, i])
  {
    for z := 0 to n
      invariant forall y, i :: 0 <= y < z && 0 <= i < n ==> strength[y, i] == StrengthOf(friend, n, y, i)
      invariant forall y, i :: 0 <= y < strength.Length0 && 0 <= i < strength.Length1 && (z <= y || n <= i) ==>
                  strength[y, i] == old(strength[y, i])
    {
      for i := 0 to n
        invariant forall y, j :: 0 <= y < z && 0 <= j < n ==> strength[y, j] == StrengthOf(friend, n, y, j)
        invariant forall j :: 0 <= j < i ==> strength[z, j] == StrengthOf(friend, n, z, j)
        invariant forall y, j ::
                    0 <= y < strength.Length0 && 0 <= j < strength.Length1 && (z < y || n <= j || (y == z && i <= j))
                    ==> strength[y, j] == old(strength[y, j])
      {
        StrengthOfConnection(friend, n, z, i, strength);
      }
    }
  }
}
