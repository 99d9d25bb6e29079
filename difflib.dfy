/**
 * `SequenceMatcher(None, x, y).find_longest_match(0, len(x), 0, len(y))`
 * from Python's difflib, as a specification: the longest common contiguous
 * block of `x` and `y`; of all longest blocks the one that starts earliest
 * in `x`, and of those the one that starts earliest in `y`; `(0, 0, 0)` when
 * the strings share nothing.  The computation below scans every pair of
 * start positions row by row and keeps the first strictly longer run, which
 * is how difflib arrives at the same tie-breaking.
 */
module Difflib {

  datatype Match = Match(a: nat, b: nat, size: nat)

  /** `x[i..i+k]` and `y[j..j+k]` are in range and equal. */
  ghost predicate Block(x: string, y: string, i: int, j: int, k: int) {
    0 <= i && 0 <= j && 0 <= k && i + k <= |x| && j + k <= |y| && x[i..i + k] == y[j..j + k]
  }

  /** difflib's documented contract of `find_longest_match`. */
  ghost predicate IsLongestMatch(x: string, y: string, m: Match) {
    && Block(x, y, m.a, m.b, m.size)
    && (forall i, j, k :: Block(x, y, i, j, k) ==> k <= m.size)
    && (forall i, j :: Block(x, y, i, j, m.size) ==> m.a < i || (m.a == i && m.b <= j))
  }

  /** Length of the longest common run starting at `x[i]` and `y[j]`. */
  function CommonRun(x: string, y: string, i: nat, j: nat): (k: nat)
    requires i <= |x| && j <= |y|
    ensures Block(x, y, i, j, k)
    ensures i + k == |x| || j + k == |y| || x[i + k] != y[j + k]
    decreases |x| - i
  {
    if i < |x| && j < |y| && x[i] == y[j] then
      var k := 1 + CommonRun(x, y, i + 1, j + 1);
      assert x[i..i + k] == [x[i]] + x[i + 1..i + k];
      assert y[j..j + k] == [y[j]] + y[j + 1..j + k];
      k
    else 0
  }

  /** No common block starting at `(i, j)` is longer than the run found there. */
  lemma {:induction false} RunIsLongest(x: string, y: string, i: nat, j: nat, k: nat)
    requires Block(x, y, i, j, k)
    ensures k <= CommonRun(x, y, i, j)
    decreases k
  {
    if k > 0 {
      assert x[i..i + k][0] == x[i] && y[j..j + k][0] == y[j];
      assert x[i + 1..i + k] == x[i..i + k][1..];
      assert y[j + 1..j + k] == y[j..j + k][1..];
      RunIsLongest(x, y, i + 1, j + 1, k - 1);
    }
  }

  /** `(i, j)` comes strictly before `(i', j')` in row-major order. */
  predicate Before(i: int, j: int, i': int, j': int) {
    i < i' || (i == i' && j < j')
  }

  /** `m` is what the row-by-row scan holds once every start position before
      `(i, j)` has been looked at. */
  ghost predicate ScannedBest(x: string, y: string, m: Match, i: int, j: int) {
    && Block(x, y, m.a, m.b, m.size)
    && (forall p, q :: 0 <= p <= |x| && 0 <= q <= |y| && Before(p, q, i, j) ==>
          CommonRun(x, y, p, q) <= m.size)
    && (forall p, q :: 0 <= p <= |x| && 0 <= q <= |y| && Before(p, q, m.a, m.b) ==>
          CommonRun(x, y, p, q) < m.size)
  }

  /** One start position: a strictly longer run replaces the best so far. */
  function Consider(x: string, y: string, i: nat, j: nat, m: Match): (r: Match)
    requires i <= |x| && j <= |y|
    requires ScannedBest(x, y, m, i, j)
    ensures ScannedBest(x, y, r, i, j + 1)
  {
    var k := CommonRun(x, y, i, j);
    if k > m.size then Match(i, j, k) else m
  }

  /** The rest of row `i`, from column `j`. */
  function ScanRow(x: string, y: string, i: nat, j: nat, m: Match): (r: Match)
    requires i <= |x| && j <= |y| + 1
    requires ScannedBest(x, y, m, i, j)
    ensures ScannedBest(x, y, r, i + 1, 0)
    decreases |y| + 1 - j
  {
    if j > |y| then m else ScanRow(x, y, i, j + 1, Consider(x, y, i, j, m))
  }

  /** The rows from `i` on. */
  function ScanRows(x: string, y: string, i: nat, m: Match): (r: Match)
    requires i <= |x| + 1
    requires ScannedBest(x, y, m, i, 0)
    ensures ScannedBest(x, y, r, |x| + 1, 0)
    decreases |x| + 1 - i
  {
    if i > |x| then m else ScanRows(x, y, i + 1, ScanRow(x, y, i, 0, m))
  }

  lemma ScanCompleteIsLongest(x: string, y: string, m: Match)
    requires ScannedBest(x, y, m, |x| + 1, 0)
    ensures IsLongestMatch(x, y, m)
  {
    forall i, j, k | Block(x, y, i, j, k) ensures k <= m.size {
      RunIsLongest(x, y, i, j, k);
    }
    forall i, j | Block(x, y, i, j, m.size) ensures m.a < i || (m.a == i && m.b <= j) {
      RunIsLongest(x, y, i, j, m.size);
    }
  }

  /** `find_longest_match` over the whole of both strings. */
  function LongestMatch(x: string, y: string): (m: Match)
    ensures m.a + m.size <= |x| && m.b + m.size <= |y|
    ensures x[m.a..m.a + m.size] == y[m.b..m.b + m.size]
    ensures m.size == 0 ==> m.a == 0 && m.b == 0
  {
    var m := ScanRows(x, y, 0, Match(0, 0, 0));
    assert Block(x, y, 0, 0, 0);
    assert Block(x, y, m.a, m.b, m.size);
    m
  }

  /** `LongestMatch` meets difflib's contract. */
  lemma LongestMatchIsLongest(x: string, y: string)
    ensures IsLongestMatch(x, y, LongestMatch(x, y))
  {
    assert Block(x, y, 0, 0, 0);
    ScanCompleteIsLongest(x, y, LongestMatch(x, y));
  }

  /** The contract determines the match: there is only one longest match. */
  lemma LongestMatchUnique(x: string, y: string, m: Match, m': Match)
    requires IsLongestMatch(x, y, m) && IsLongestMatch(x, y, m')
    ensures m == m'
  {
    assert m.size <= m'.size && m'.size <= m.size;
  }
}
