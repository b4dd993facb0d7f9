/**
 * The edit distance the mention ranker scores usernames with. `Dist` is the
 * recursive definition (insertions, deletions and substitutions each cost 1),
 * written over prefixes so that `Dist(a[..i], b[..j])` is the cell `[i][j]`
 * of the dynamic-programming table that `Levenshtein` fills.
 */
module EditDistance {

  /** `Math.min` of three values. */
  function Min3(x: int, y: int, z: int): (m: int)
    ensures m <= x && m <= y && m <= z
    ensures m == x || m == y || m == z
  {
    if x <= y && x <= z then x else if y <= z then y else z
  }

  /** `Math.min` of two naturals: the length `.slice(0, k)` leaves of a list of length `len`. */
  function Min(x: nat, y: nat): (m: nat)
    ensures m <= x && m <= y
    ensures m == x || m == y
  {
    if x <= y then x else y
  }

  /** Cost of turning the last character of one prefix into the last of another. */
  function Indicator(c: char, d: char): nat {
    if c == d then 0 else 1
  }

  /** The edit distance between `a` and `b`. */
  function Dist(a: string, b: string): nat
    decreases |a| + |b|
  {
    if |a| == 0 then |b|
    else if |b| == 0 then |a|
    else
      Min3(Dist(a[..|a| - 1], b) + 1,
           Dist(a, b[..|b| - 1]) + 1,
           Dist(a[..|a| - 1], b[..|b| - 1]) + Indicator(a[|a| - 1], b[|b| - 1]))
  }

  /** The recurrence of the table, read on prefixes of the two inputs. */
  lemma DistStep(a: string, b: string, i: nat, j: nat)
    requires 1 <= i <= |a| && 1 <= j <= |b|
    ensures Dist(a[..i], b[..j])
         == Min3(Dist(a[..i - 1], b[..j]) + 1,
                 Dist(a[..i], b[..j - 1]) + 1,
                 Dist(a[..i - 1], b[..j - 1]) + Indicator(a[i - 1], b[j - 1]))
  {
    assert a[..i][..i - 1] == a[..i - 1];
    assert b[..j][..j - 1] == b[..j - 1];
  }

  /**
   * `levenshtein(a, b)`: fills an `(|a|+1) x (|b|+1)` matrix row by row and
   * returns its last cell, which is the edit distance.
   */
  method Levenshtein(a: string, b: string) returns (d: nat)
    ensures d == Dist(a, b)
  {
    var matrix := new nat[|a| + 1, |b| + 1];
    for i := 0 to |a| + 1
      invariant forall p :: 0 <= p < i ==> matrix[p, 0] == p
    {
      matrix[i, 0] := i;
    }
    for j := 0 to |b| + 1
      invariant forall p :: 0 <= p <= |a| ==> matrix[p, 0] == p
      invariant forall q :: 0 <= q < j ==> matrix[0, q] == q
    {
      matrix[0, j] := j;
    }
    for i := 1 to |a| + 1
      invariant forall q :: 0 <= q <= |b| ==> matrix[i - 1, q] == Dist(a[..i - 1], b[..q])
      invariant forall p :: i <= p <= |a| ==> matrix[p, 0] == p
    {
      FillRow(matrix, a, b, i);
    }
    d := matrix[|a|, |b|];
    assert a[..|a|] == a && b[..|b|] == b;
  }

  /** One pass of the inner loop: row `i` of the table from row `i - 1`. */
  method FillRow(matrix: array2<nat>, a: string, b: string, i: nat)
    requires matrix.Length0 == |a| + 1 && matrix.Length1 == |b| + 1 && 1 <= i <= |a|
    requires forall q :: 0 <= q <= |b| ==> matrix[i - 1, q] == Dist(a[..i - 1], b[..q])
    requires matrix[i, 0] == i
    modifies matrix
    ensures forall q :: 0 <= q <= |b| ==> matrix[i, q] == Dist(a[..i], b[..q])
    ensures forall p, q :: 0 <= p <= |a| && 0 <= q <= |b| && p != i ==> matrix[p, q] == old(matrix[p, q])
  {
    assert b[..0] == [];
    for j := 1 to |b| + 1
      invariant forall q :: 0 <= q < j ==> matrix[i, q] == Dist(a[..i], b[..q])
      invariant forall p, q :: 0 <= p <= |a| && 0 <= q <= |b| && p != i ==> matrix[p, q] == old(matrix[p, q])
    {
      FillCell(matrix, a, b, i, j);
    }
  }

  /** One step of the inner loop: cell `[i][j]` from its left, upper and diagonal neighbours. */
  method FillCell(matrix: array2<nat>, a: string, b: string, i: nat, j: nat)
    requires matrix.Length0 == |a| + 1 && matrix.Length1 == |b| + 1 && 1 <= i <= |a| && 1 <= j <= |b|
    requires matrix[i, j - 1] == Dist(a[..i], b[..j - 1])
    requires matrix[i - 1, j] == Dist(a[..i - 1], b[..j])
    requires matrix[i - 1, j - 1] == Dist(a[..i - 1], b[..j - 1])
    modifies matrix
    ensures matrix[i, j] == Dist(a[..i], b[..j])
    ensures forall p, q :: 0 <= p <= |a| && 0 <= q <= |b| && (p != i || q != j) ==> matrix[p, q] == old(matrix[p, q])
  {
    var left, up, diag := matrix[i, j - 1], matrix[i - 1, j], matrix[i - 1, j - 1];
    var cost := Min3(left + 1, up + 1, diag + Indicator(a[i - 1], b[j - 1]));
    DistStep(a, b, i, j);
    matrix[i, j] := cost;
  }

  /** The first row and column of the table: against the empty string the distance is the length. */
  lemma DistBaseCases(a: string, b: string)
    ensures Dist([], b) == |b|
    ensures Dist(a, []) == |a|
  {
  }

  /** Edit distance is symmetric. */
  lemma {:induction false} DistSymmetric(a: string, b: string)
    ensures Dist(a, b) == Dist(b, a)
    decreases |a| + |b|
  {
    if |a| > 0 && |b| > 0 {
      DistSymmetric(a[..|a| - 1], b);
      DistSymmetric(a, b[..|b| - 1]);
      DistSymmetric(a[..|a| - 1], b[..|b| - 1]);
    }
  }

  /** A string is at distance 0 from itself, and from nothing else. */
  lemma {:induction false} DistZeroIff(a: string, b: string)
    ensures Dist(a, b) == 0 <==> a == b
    decreases |a| + |b|
  {
    if |a| > 0 && |b| > 0 {
      var a', b' := a[..|a| - 1], b[..|b| - 1];
      assert a == a' + [a[|a| - 1]] && b == b' + [b[|b| - 1]];
      DistZeroIff(a', b');
    }
  }

  /** The distance is at least the difference of the lengths and at most the longer length. */
  lemma {:induction false} DistBounds(a: string, b: string)
    ensures Dist(a, b) >= |a| - |b| && Dist(a, b) >= |b| - |a|
    ensures Dist(a, b) <= if |a| >= |b| then |a| else |b|
    decreases |a| + |b|
  {
    if |a| > 0 && |b| > 0 {
      DistBounds(a[..|a| - 1], b);
      DistBounds(a, b[..|b| - 1]);
      DistBounds(a[..|a| - 1], b[..|b| - 1]);
    }
  }
}
