/**
 * Keyboard navigation of the emoji grid: the grid shows the first 40
 * catalog entries and the arrow keys step the highlighted index around it,
 * wrapping at both ends.
 */
module Navigation {

  import opened EditDistance

  /** `emojiList.slice(0, 40)`: how many entries the grid shows. */
  const GRID_LIMIT: nat := 40

  /** `emojiList.slice(0, 40).length`. */
  function GridSize(catalogLength: nat): (n: nat)
    ensures n <= GRID_LIMIT && n <= catalogLength
    ensures n == GRID_LIMIT || n == catalogLength
  {
    Min(GRID_LIMIT, catalogLength)
  }

  /** ArrowRight: `(i + 1) % n`, the next entry, wrapping to the first. */
  function NextIndex(i: nat, n: nat): (r: nat)
    requires i < n
    ensures r < n
    ensures r == if i == n - 1 then 0 else i + 1
  {
    (i + 1) % n
  }

  /** ArrowLeft: `(i - 1 + n) % n`, the previous entry, wrapping to the last. */
  function PrevIndex(i: nat, n: nat): (r: nat)
    requires i < n
    ensures r < n
    ensures r == if i == 0 then n - 1 else i - 1
  {
    (i - 1 + n) % n
  }

  /** The two arrows undo each other. */
  lemma StepsAreInverse(i: nat, n: nat)
    requires i < n
    ensures PrevIndex(NextIndex(i, n), n) == i
    ensures NextIndex(PrevIndex(i, n), n) == i
  {
  }

  /** The index after `k` presses of ArrowRight. */
  function RepeatNext(i: nat, n: nat, k: nat): (r: nat)
    requires i < n
    ensures r < n
  {
    if k == 0 then i else NextIndex(RepeatNext(i, n, k - 1), n)
  }

  /** `k` presses of ArrowRight advance the index by `k` places modulo the grid size. */
  lemma {:induction false} RepeatNextAdvances(i: nat, n: nat, k: nat)
    requires i < n
    ensures RepeatNext(i, n, k) == (i + k) % n
  {
    if k > 0 {
      RepeatNextAdvances(i, n, k - 1);
      ModSucc(i + k - 1, n);
    }
  }

  /** Taking the successor commutes with reduction modulo `n`. */
  lemma ModSucc(x: nat, n: nat)
    requires n > 0
    ensures (x % n + 1) % n == (x + 1) % n
  {
    var q, r := x / n, x % n;
    if r + 1 < n {
      ModUnique(x + 1, n, q, r + 1);
      ModUnique(r + 1, n, 0, r + 1);
    } else {
      ModUnique(x + 1, n, q + 1, 0);
      ModUnique(r + 1, n, 1, 0);
    }
  }

  /** The remainder is the one value below `n` that leaves a multiple of `n`. */
  lemma ModUnique(x: nat, n: nat, q: int, r: nat)
    requires r < n && x == q * n + r
    ensures x % n == r
  {
    var q', r' := x / n, x % n;
    assert x == q' * n + r';
    if q > q' {
      MulAtLeast(q - q', n);
    } else if q < q' {
      MulAtLeast(q' - q, n);
    }
  }

  lemma {:induction false} MulAtLeast(d: nat, n: nat)
    requires d >= 1
    ensures d * n >= n
  {
    if d > 1 {
      MulAtLeast(d - 1, n);
      assert d * n == (d - 1) * n + n;
    }
  }

  /** `n` presses of ArrowRight bring the highlight back where it started. */
  lemma FullCycle(i: nat, n: nat)
    requires i < n
    ensures RepeatNext(i, n, n) == i
  {
    RepeatNextAdvances(i, n, n);
    ModUnique(i + n, n, 1, i);
  }

  /** With three entries, ArrowRight from the last goes to the first and ArrowLeft from the first to the last. */
  lemma WrapAroundExample()
    ensures NextIndex(2, 3) == 0 && PrevIndex(0, 3) == 2
  {
  }
}
