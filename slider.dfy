/**
 * The sliding puzzle: an N×N board read in row-major order, with 0 standing
 * for the blank. Covers the solved board, the inversion count, the parity rule
 * for solvability, adjacency of a tile to the blank, the rejection-sampling
 * shuffle and the board/moves state of the game.
 */
module Slider {
  import opened FisherYates

  /** The board width the game uses. */
  const SIZE: int := 3

  // ---------------------------------------------------------------------------
  // Board geometry

  /** `Math.floor(index / size)`; Dafny's division already floors for a positive divisor. */
  function Row(index: int, size: int): (q: int)
    requires size > 0
    ensures q * size <= index < q * size + size
  {
    index / size
  }

  /** `index % size` with JavaScript's remainder, which takes the sign of `index`. */
  function Col(index: int, size: int): (c: int)
    requires size > 0
    ensures index >= 0 ==> 0 <= c < size && index == Row(index, size) * size + c
  {
    if index >= 0 then index % size else -((-index) % size)
  }

  function Abs(x: int): nat { if x < 0 then -x else x }

  /** A tile can slide when its Manhattan distance to the blank is exactly 1. */
  predicate CanMove(tileIndex: int, emptyIndex: int, size: int)
    requires size > 0
  {
    Abs(Row(tileIndex, size) - Row(emptyIndex, size)) + Abs(Col(tileIndex, size) - Col(emptyIndex, size)) == 1
  }

  /** `board.indexOf(x)`: the first position holding x, or -1. */
  function IndexOf(board: seq<int>, x: int): (r: int)
    ensures -1 <= r < |board|
    ensures r == -1 <==> x !in board
    ensures r >= 0 ==> board[r] == x && forall k :: 0 <= k < r ==> board[k] != x
  {
    if board == [] then -1
    else if board[0] == x then 0
    else var r := IndexOf(board[1..], x); if r == -1 then -1 else r + 1
  }

  // ---------------------------------------------------------------------------
  // The solved board

  /** `[1, 2, ..., total-1, 0]`; a total of 0 still yields `[0]`, as the source's loop does. */
  function SolvedSeq(total: nat): (r: seq<int>)
    ensures |r| == if total == 0 then 1 else total
  {
    seq(if total == 0 then 0 else total - 1, k => k + 1) + [0]
  }

  /** Every cell but the last holds its 1-based position, and the last holds the blank. */
  predicate Solved(board: seq<int>) {
    |board| > 0 && board == SolvedSeq(|board|)
  }

  /** `isSolved`: scans for the first misplaced tile. */
  method IsSolved(board: seq<int>) returns (r: bool)
    ensures r == Solved(board)
  {
    var n := |board|;
    var i := 0;
    while i < n - 1
      invariant 0 <= i <= if n == 0 then 0 else n - 1
      invariant forall k :: 0 <= k < i ==> board[k] == k + 1
    {
      if board[i] != i + 1 {
        assert board[i] != SolvedSeq(n)[i];
        return false;
      }
      i := i + 1;
    }
    r := n > 0 && board[n - 1] == 0;
    if r {
      assert forall k :: 0 <= k < n ==> board[k] == SolvedSeq(n)[k];
    } else if n > 0 {
      assert board[n - 1] != SolvedSeq(n)[n - 1];
    }
  }

  /** `makeSolvedBoard`: pushes 1 .. size*size-1 and then the blank. */
  method MakeSolvedBoard(size: int) returns (arr: seq<int>)
    ensures arr == SolvedSeq(size * size)
    ensures Solved(arr)
  {
    var total := size * size;
    arr := [];
    var i := 1;
    while i < total
      invariant 1 <= i <= if total < 1 then 1 else total
      invariant arr == seq(i - 1, k => k + 1)
    {
      arr := arr + [i];
      i := i + 1;
    }
    arr := arr + [0];
  }

  // ---------------------------------------------------------------------------
  // Inversions

  /** `arr.filter(x => x !== 0)`. */
  function NonZero(s: seq<int>): (r: seq<int>)
    ensures |r| <= |s|
  {
    if s == [] then []
    else if s[0] == 0 then NonZero(s[1..])
    else [s[0]] + NonZero(s[1..])
  }

  /** How many entries of `s` are smaller than `x`. */
  function Below(x: int, s: seq<int>): nat {
    if s == [] then 0 else (if x > s[0] then 1 else 0) + Below(x, s[1..])
  }

  /** How many entries of `s` are larger than `x`. */
  function Above(x: int, s: seq<int>): nat {
    if s == [] then 0 else (if x < s[0] then 1 else 0) + Above(x, s[1..])
  }

  /** The number of pairs i < j with nums[i] > nums[j]. */
  function Inversions(nums: seq<int>): nat {
    if nums == [] then 0 else Below(nums[0], nums[1..]) + Inversions(nums[1..])
  }

  lemma {:induction false} BelowAppend(x: int, u: seq<int>, v: seq<int>)
    ensures Below(x, u + v) == Below(x, u) + Below(x, v)
  {
    if u != [] {
      assert (u + v)[1..] == u[1..] + v;
      BelowAppend(x, u[1..], v);
    } else {
      assert u + v == v;
    }
  }

  /** Extending a slice by one entry adds that entry's comparison to the count. */
  lemma BelowExtend(x: int, s: seq<int>, lo: nat, hi: nat)
    requires lo <= hi < |s|
    ensures Below(x, s[lo..hi + 1]) == Below(x, s[lo..hi]) + (if x > s[hi] then 1 else 0)
  {
    assert s[lo..hi + 1] == s[lo..hi] + [s[hi]];
    BelowAppend(x, s[lo..hi], [s[hi]]);
  }

  /** `countInversions`: a nested loop over the non-blank tiles with a mutable counter. */
  method CountInversions(arr: seq<int>) returns (inv: nat)
    ensures inv == Inversions(NonZero(arr))
  {
    var nums := NonZero(arr);
    inv := 0;
    var i := 0;
    while i < |nums|
      invariant 0 <= i <= |nums|
      invariant inv + Inversions(nums[i..]) == Inversions(nums)
    {
      ghost var rest := Inversions(nums[i + 1..]);
      assert nums[i..][1..] == nums[i + 1..];
      var j := i + 1;
      while j < |nums|
        invariant i + 1 <= j <= |nums|
        invariant inv + Below(nums[i], nums[i + 1..]) + rest
               == Inversions(nums) + Below(nums[i], nums[i + 1..j])
      {
        BelowExtend(nums[i], nums, i + 1, j);
        if nums[i] > nums[j] {
          inv := inv + 1;
        }
        j := j + 1;
      }
      assert nums[i + 1..j] == nums[i + 1..];
      i := i + 1;
    }
    assert nums[i..] == [];
  }

  /** Inversions are absent exactly when the sequence is in non-decreasing order. */
  lemma {:induction false} InversionsZeroIffSorted(nums: seq<int>)
    ensures Inversions(nums) == 0 <==> forall i, j :: 0 <= i < j < |nums| ==> nums[i] <= nums[j]
  {
    if nums != [] {
      InversionsZeroIffSorted(nums[1..]);
      BelowZeroIffAllAtLeast(nums[0], nums[1..]);
      if Inversions(nums) == 0 {
        forall i, j | 0 <= i < j < |nums| ensures nums[i] <= nums[j] {
          if i > 0 {
            assert nums[1..][i - 1] <= nums[1..][j - 1];
          } else {
            assert nums[1..][j - 1] == nums[j];
          }
        }
      } else {
        if Below(nums[0], nums[1..]) != 0 {
          var j :| 0 <= j < |nums[1..]| && nums[0] > nums[1..][j];
          assert nums[0] > nums[j + 1];
        } else {
          var i, j :| 0 <= i < j < |nums[1..]| && nums[1..][i] > nums[1..][j];
          assert nums[i + 1] > nums[j + 1];
        }
      }
    }
  }

  lemma {:induction false} BelowZeroIffAllAtLeast(x: int, s: seq<int>)
    ensures Below(x, s) == 0 <==> forall k :: 0 <= k < |s| ==> x <= s[k]
  {
    if s != [] {
      BelowZeroIffAllAtLeast(x, s[1..]);
      assert forall k :: 1 <= k < |s| ==> s[k] == s[1..][k - 1];
    }
  }

  // ---------------------------------------------------------------------------
  // Solvability

  /**
   * `isSolvable`: for odd widths the inversion count must be even; for even
   * widths exactly one of "the blank's 1-based row counted from the bottom is
   * even" and "the inversion count is even" must hold.
   */
  predicate IsSolvable(board: seq<int>, size: int)
    requires size > 0
  {
    var inv := Inversions(NonZero(board));
    var emptyRowFromBottom := size - Row(IndexOf(board, 0), size);
    ParityRule(size, inv, emptyRowFromBottom)
  }

  /** The parity test of `isSolvable` on its three numbers. */
  predicate ParityRule(size: int, inv: int, emptyRowFromBottom: int) {
    if size % 2 == 1 then inv % 2 == 0
    else
      var blankEvenFromBottom := emptyRowFromBottom % 2 == 0;
      var invEven := inv % 2 == 0;
      if blankEvenFromBottom then !invEven else invEven
  }

  /**
   * The parity rule in its usual closed form: on odd widths the inversion
   * count is even; on even widths the inversion count plus the blank's row
   * from the bottom is odd.
   */
  lemma ParityRuleClosedForm(size: int, inv: int, emptyRowFromBottom: int)
    ensures ParityRule(size, inv, emptyRowFromBottom) <==>
      if size % 2 == 1 then inv % 2 == 0 else (inv + emptyRowFromBottom) % 2 == 1
  {
    if size % 2 != 1 {
      var a, b := inv % 2, emptyRowFromBottom % 2;
      assert inv == 2 * (inv / 2) + a && emptyRowFromBottom == 2 * (emptyRowFromBottom / 2) + b;
      assert inv + emptyRowFromBottom == 2 * (inv / 2 + emptyRowFromBottom / 2) + (a + b);
      if a + b == 2 {
        assert (inv + emptyRowFromBottom) % 2 == 0;
      }
    }
  }

  /** `isSolvable` in closed form, on the board's own inversion count and blank row. */
  lemma IsSolvableClosedForm(board: seq<int>, size: int)
    requires size > 0
    ensures var inv, fromBottom := Inversions(NonZero(board)), size - Row(IndexOf(board, 0), size);
      IsSolvable(board, size) <==>
        if size % 2 == 1 then inv % 2 == 0 else (inv + fromBottom) % 2 == 1
  {
    ParityRuleClosedForm(size, Inversions(NonZero(board)), size - Row(IndexOf(board, 0), size));
  }

  // ---------------------------------------------------------------------------
  // Well-formed boards

  /** A board is a rearrangement of the solved board for its width. */
  ghost predicate IsBoard(board: seq<int>, size: int) {
    // the blank is named explicitly so that `indexOf(0)` is known to succeed
    size > 0 && 0 in board && multiset(board) == multiset(SolvedSeq(size * size))
  }

  predicate Distinct(s: seq<int>) {
    forall i, j :: 0 <= i < j < |s| ==> s[i] != s[j]
  }

  lemma {:induction false} SolvedSeqDistinct(total: nat)
    ensures Distinct(SolvedSeq(total))
  {
    var s := SolvedSeq(total);
    forall i, j | 0 <= i < j < |s| ensures s[i] != s[j] {
      if j == |s| - 1 {
        assert s[j] == 0 && s[i] == i + 1;
      }
    }
  }

  lemma {:induction false} DistinctCounts(s: seq<int>)
    requires Distinct(s)
    ensures forall v :: multiset(s)[v] <= 1
  {
    if s != [] {
      assert Distinct(s[1..]) by {
        forall i, j | 0 <= i < j < |s[1..]| ensures s[1..][i] != s[1..][j] {
          assert s[1..][i] == s[i + 1] && s[1..][j] == s[j + 1];
        }
      }
      DistinctCounts(s[1..]);
      assert s == [s[0]] + s[1..];
      assert s[0] !in s[1..] by {
        forall k | 0 <= k < |s[1..]| ensures s[1..][k] != s[0] {
          assert s[1..][k] == s[k + 1];
        }
      }
      assert multiset(s) == multiset{s[0]} + multiset(s[1..]);
    }
  }

  lemma TwoPositions(s: seq<int>, i: nat, j: nat)
    requires i < j < |s| && s[i] == s[j]
    ensures multiset(s)[s[i]] >= 2
  {
    assert s == s[..i] + [s[i]] + s[i + 1..j] + [s[j]] + s[j + 1..];
    assert multiset(s) == multiset(s[..i]) + multiset{s[i]} + multiset(s[i + 1..j])
                          + multiset{s[j]} + multiset(s[j + 1..]);
  }

  /** What a well-formed board guarantees: distinct tiles and exactly one blank. */
  lemma BoardFacts(board: seq<int>, size: int)
    requires IsBoard(board, size)
    ensures Distinct(board)
    ensures multiset(board)[0] == 1
  {
    var solved := SolvedSeq(size * size);
    SolvedSeqDistinct(size * size);
    DistinctCounts(solved);
    forall i, j | 0 <= i < j < |board| ensures board[i] != board[j] {
      if board[i] == board[j] {
        TwoPositions(board, i, j);
      }
    }
    assert solved[|solved| - 1] == 0;
    assert 0 in multiset(solved);
  }

  /** A well-formed board has size² cells. */
  lemma BoardLength(board: seq<int>, size: int)
    requires IsBoard(board, size)
    ensures |board| == size * size
  {
    var solved := SolvedSeq(size * size);
    assert size * size > 0;
    assert |board| == |multiset(board)| == |multiset(solved)| == |solved|;
  }

  lemma SwapDistinct(s: seq<int>, i: nat, j: nat)
    requires Distinct(s) && i < |s| && j < |s|
    ensures Distinct(Swap(s, i, j))
  {
  }

  lemma {:induction false} OnlyBlank(board: seq<int>, e: int)
    requires Distinct(board) && 0 <= e < |board| && board[e] == 0
    ensures IndexOf(board, 0) == e
    ensures forall k :: 0 <= k < |board| && k != e ==> board[k] != 0
  {
  }

  // ---------------------------------------------------------------------------
  // Moves

  /** Integer division by a positive width is determined by quotient and remainder. */
  lemma DivModUnique(n: int, size: int, q: int, r: int)
    requires size > 0 && 0 <= r < size && n == size * q + r
    ensures n / size == q && n % size == r
  {
    var q', r' := n / size, n % size;
    MulDistributes(size, q', q);
    if q' > q {
      MulAtLeast(size, q' - q);
      assert false;
    } else if q' < q {
      MulAtLeast(size, q - q');
      assert false;
    }
  }

  lemma MulDistributes(a: int, b: int, c: int)
    ensures a * b - a * c == a * (b - c)
  {
  }

  lemma MulAtLeast(a: int, k: int)
    requires a > 0 && k >= 1
    ensures a * k >= a
  {
  }

  /** A tile next to the blank is either in the same row one step away, or in the same column one row away. */
  lemma MoveGeometry(t: int, e: int, size: int)
    requires size > 0 && 0 <= t && 0 <= e
    ensures CanMove(t, e, size) <==>
              (Row(t, size) == Row(e, size) && (t == e + 1 || e == t + 1))
              || t == e + size || e == t + size
  {
    var rt, ct, re, ce := Row(t, size), Col(t, size), Row(e, size), Col(e, size);
    if t == e + size {
      DivModUnique(t, size, re + 1, ce);
    } else if e == t + size {
      DivModUnique(e, size, rt + 1, ct);
    } else if rt == re && t == e + 1 {
      assert ct == ce + 1;
    } else if rt == re && e == t + 1 {
      assert ce == ct + 1;
    }
  }

  /** `canMove` holds of no cell with itself. */
  lemma CanMoveIrreflexive(i: int, size: int)
    requires size > 0
    ensures !CanMove(i, i, size)
  {
  }

  /** `canMove` does not depend on which of the two cells holds the blank. */
  lemma CanMoveSymmetric(i: int, j: int, size: int)
    requires size > 0
    ensures CanMove(i, j, size) <==> CanMove(j, i, size)
  {
  }

  /** The click is accepted: the puzzle is unsolved and the tile touches the blank. */
  predicate Legal(board: seq<int>, size: int, tileIndex: int)
    requires size > 0
  {
    !Solved(board) && CanMove(tileIndex, IndexOf(board, 0), size)
  }

  /** The board after `handleTileClick(tileIndex)`. */
  function Click(board: seq<int>, size: int, tileIndex: int): (r: seq<int>)
    requires size > 0 && 0 <= tileIndex < |board| && 0 in board
    ensures multiset(r) == multiset(board)
  {
    if Legal(board, size, tileIndex) then Swap(board, tileIndex, IndexOf(board, 0)) else board
  }

  /** A click on a solved board or on a tile not next to the blank leaves the board as it was. */
  lemma ClickRefused(board: seq<int>, size: int, t: int)
    requires size > 0 && 0 <= t < |board| && 0 in board
    requires !Legal(board, size, t)
    ensures Click(board, size, t) == board
  {
  }

  /** A legal click swaps the tile with the blank and touches no other cell. */
  lemma LegalClick(board: seq<int>, size: int, t: int)
    requires IsBoard(board, size) && 0 <= t < |board|
    requires Legal(board, size, t)
    ensures var e, r := IndexOf(board, 0), Click(board, size, t);
      && t != e && r[t] == 0 && r[e] == board[t]
      && (forall k :: 0 <= k < |board| && k != t && k != e ==> r[k] == board[k])
      && IndexOf(r, 0) == t
      && IsBoard(r, size)
  {
    BoardFacts(board, size);
    var e := IndexOf(board, 0);
    CanMoveIrreflexive(t, size);
    var r := Click(board, size, t);
    BoardFacts(r, size);
    OnlyBlank(r, t);
  }

  /** Clicking the cell the blank came from undoes a legal click that left the puzzle unsolved. */
  lemma ClickUndo(board: seq<int>, size: int, t: int)
    requires IsBoard(board, size) && 0 <= t < |board|
    requires Legal(board, size, t)
    requires !Solved(Click(board, size, t))
    ensures var e := IndexOf(board, 0);
      Legal(Click(board, size, t), size, e)
      && Click(Click(board, size, t), size, e) == board
  {
    var e := IndexOf(board, 0);
    LegalClick(board, size, t);
    CanMoveSymmetric(t, e, size);
    var r := Click(board, size, t);
    assert Swap(r, e, t) == board;
  }

  // ---------------------------------------------------------------------------
  // A legal click keeps the board solvable

  lemma {:induction false} NonZeroAppend(u: seq<int>, v: seq<int>)
    ensures NonZero(u + v) == NonZero(u) + NonZero(v)
  {
    if u == [] {
      assert u + v == v;
    } else {
      assert (u + v)[1..] == u[1..] + v;
      NonZeroAppend(u[1..], v);
    }
  }

  lemma {:induction false} NonZeroWithoutBlank(s: seq<int>)
    requires 0 !in s
    ensures NonZero(s) == s
  {
    if s != [] {
      NonZeroWithoutBlank(s[1..]);
    }
  }

  lemma {:induction false} BelowAboveSum(x: int, m: seq<int>)
    requires x !in m
    ensures Below(x, m) + Above(x, m) == |m|
  {
    if m != [] {
      BelowAboveSum(x, m[1..]);
    }
  }

  lemma InversionsCons(h: int, t: seq<int>)
    ensures Inversions([h] + t) == Below(h, t) + Inversions(t)
  {
    assert ([h] + t)[1..] == t;
  }

  lemma BelowCons(x: int, h: int, t: seq<int>)
    ensures Below(x, [h] + t) == (if x > h then 1 else 0) + Below(x, t)
  {
    assert ([h] + t)[1..] == t;
  }

  /** The order of two entries does not matter to how many of them lie below `z`. */
  lemma BelowPair(z: int, x: int, y: int, d: seq<int>)
    ensures Below(z, [x, y] + d) == Below(z, [y, x] + d)
  {
    assert [x, y] + d == [x] + ([y] + d) && [y, x] + d == [y] + ([x] + d);
    BelowCons(z, x, [y] + d);
    BelowCons(z, y, d);
    BelowCons(z, y, [x] + d);
    BelowCons(z, x, d);
  }

  /** Exchanging two adjacent distinct entries changes the inversion count by exactly one. */
  lemma {:induction false} InversionsSwapAdjacent(c: seq<int>, x: int, y: int, d: seq<int>)
    requires x != y
    ensures Inversions(c + [x, y] + d) == Inversions(c + [y, x] + d) + (if x > y then 1 else -1)
  {
    var xy, yx := [x, y] + d, [y, x] + d;
    if c == [] {
      assert c + [x, y] + d == [x] + ([y] + d) && c + [y, x] + d == [y] + ([x] + d);
      InversionsCons(x, [y] + d);
      InversionsCons(y, d);
      InversionsCons(y, [x] + d);
      InversionsCons(x, d);
      BelowCons(x, y, d);
      BelowCons(y, x, d);
    } else {
      var h, c' := c[0], c[1..];
      assert c + [x, y] + d == [h] + (c' + xy) && c' + [x, y] + d == c' + xy;
      assert c + [y, x] + d == [h] + (c' + yx) && c' + [y, x] + d == c' + yx;
      InversionsSwapAdjacent(c', x, y, d);
      InversionsCons(h, c' + xy);
      InversionsCons(h, c' + yx);
      BelowAppend(h, c', xy);
      BelowAppend(h, c', yx);
      BelowPair(h, x, y, d);
    }
  }

  /** Moving one entry across a block of others changes the inversion count by the block's balance. */
  lemma {:induction false} InversionsMoveAcross(a: seq<int>, x: int, m: seq<int>, b: seq<int>)
    requires x !in m
    decreases |m|
    ensures Inversions(a + [x] + m + b) + Above(x, m) == Inversions(a + m + [x] + b) + Below(x, m)
  {
    if m == [] {
      assert a + [x] + m + b == a + m + [x] + b;
    } else {
      var m' := m[1..];
      assert x !in m';
      InversionsSwapAdjacent(a, x, m[0], m' + b);
      assert a + [x] + m + b == a + [x, m[0]] + (m' + b);
      assert a + [m[0], x] + (m' + b) == (a + [m[0]]) + [x] + m' + b;
      InversionsMoveAcross(a + [m[0]], x, m', b);
      assert (a + [m[0]]) + m' + [x] + b == a + m + [x] + b;
    }
  }

  lemma NonZeroSingle(v: int)
    ensures NonZero([v]) == if v == 0 then [] else [v]
  {
    assert [v][1..] == [];
  }

  lemma NonZeroFive(a: seq<int>, b: seq<int>, c: seq<int>, d: seq<int>, e: seq<int>)
    ensures NonZero(a + b + c + d + e) == NonZero(a) + NonZero(b) + NonZero(c) + NonZero(d) + NonZero(e)
  {
    NonZeroAppend(a + b + c + d, e);
    NonZeroAppend(a + b + c, d);
    NonZeroAppend(a + b, c);
    NonZeroAppend(a, b);
  }

  lemma NonZeroAround(p: seq<int>, m: seq<int>, x: int, q: seq<int>)
    requires 0 !in m && x != 0
    ensures NonZero(p + [0] + m + [x] + q) == NonZero(p) + m + [x] + NonZero(q)
  {
    NonZeroWithoutBlank(m);
    NonZeroSingle(0);
    NonZeroSingle(x);
    NonZeroFive(p, [0], m, [x], q);
    assert NonZero(p) + [] == NonZero(p);
  }

  lemma NonZeroAroundSwapped(p: seq<int>, m: seq<int>, x: int, q: seq<int>)
    requires 0 !in m && x != 0
    ensures NonZero(p + [x] + m + [0] + q) == NonZero(p) + [x] + m + NonZero(q)
  {
    NonZeroWithoutBlank(m);
    NonZeroSingle(0);
    NonZeroSingle(x);
    NonZeroFive(p, [x], m, [0], q);
    assert NonZero(p) + [x] + m + [] == NonZero(p) + [x] + m;
  }

  /**
   * Sliding the tile `size` cells after the blank into the blank moves that tile
   * across `size - 1` other tiles, so the inversion count changes by an amount
   * of the same parity as `size - 1`.
   */
  lemma BlankDownInversions(board: seq<int>, e: nat, t: nat)
    requires Distinct(board) && e < t < |board| && board[e] == 0
    ensures Inversions(NonZero(Swap(board, t, e))) + 2 * Above(board[t], board[e + 1..t])
         == Inversions(NonZero(board)) + (t - e - 1)
  {
    var p, m, x, q := board[..e], board[e + 1..t], board[t], board[t + 1..];
    assert |m| == t - e - 1;
    assert 0 !in m && x !in m && x != 0 by {
      forall k | 0 <= k < |m| ensures m[k] != 0 && m[k] != x { assert m[k] == board[e + 1 + k]; }
    }
    var pz, qz := NonZero(p), NonZero(q);
    assert NonZero(board) == pz + m + [x] + qz by {
      SplitAround(board, e, t);
      NonZeroAround(p, m, x, q);
    }
    assert NonZero(Swap(board, t, e)) == pz + [x] + m + qz by {
      SplitAround(board, e, t);
      NonZeroAroundSwapped(p, m, x, q);
    }
    MoveAcrossBalance(pz, x, m, qz);
  }

  /** Moving `x` back across `m` changes the inversions by |m| minus twice the entries above `x`. */
  lemma MoveAcrossBalance(a: seq<int>, x: int, m: seq<int>, b: seq<int>)
    requires x !in m
    ensures Inversions(a + [x] + m + b) + 2 * Above(x, m) == Inversions(a + m + [x] + b) + |m|
  {
    InversionsMoveAcross(a, x, m, b);
    BelowAboveSum(x, m);
  }

  /** The board cut at the blank `e` and the tile `t`, before and after the two are exchanged. */
  lemma SplitAround(board: seq<int>, e: nat, t: nat)
    requires e < t < |board|
    ensures board == board[..e] + [board[e]] + board[e + 1..t] + [board[t]] + board[t + 1..]
    ensures Swap(board, t, e) == board[..e] + [board[t]] + board[e + 1..t] + [board[e]] + board[t + 1..]
  {
    var r := board[..e] + [board[t]] + board[e + 1..t] + [board[e]] + board[t + 1..];
    assert |r| == |board|;
    forall k | 0 <= k < |r| ensures r[k] == Swap(board, t, e)[k] {
      if k < e {
      } else if k == e {
      } else if k < t {
        assert r[k] == board[e + 1..t][k - e - 1];
      } else if k == t {
      } else {
        assert r[k] == board[t + 1..][k - t - 1];
      }
    }
  }

  /** Exchanging the blank with any tile keeps the board a rearrangement of the solved one. */
  lemma SwapKeepsBoard(board: seq<int>, size: int, i: nat, j: nat)
    requires IsBoard(board, size) && i < |board| && j < |board| && board[j] == 0
    ensures IsBoard(Swap(board, i, j), size)
  {
    assert Swap(board, i, j)[i] == 0;
  }

  /** The blank moving down one row (the tile below it moving up) keeps the solvability verdict. */
  lemma BlankDownKeepsSolvable(board: seq<int>, size: int, t: nat)
    requires size > 0 && Distinct(board) && 0 in board
    requires t == IndexOf(board, 0) + size && t < |board|
    ensures IsSolvable(Swap(board, t, IndexOf(board, 0)), size) <==> IsSolvable(board, size)
  {
    var inv, inv', k, fromBottom := BlankDownParts(board, size, t);
    ParityRuleShift(size, inv', inv, k, fromBottom);
  }

  /**
   * The numbers behind the verdicts before and after the blank moves down:
   * the inversion counts differ by size - 1 minus an even amount, and the
   * blank's row from the bottom drops by one.
   */
  lemma BlankDownParts(board: seq<int>, size: int, t: nat) returns (inv: int, inv': int, k: int, fromBottom: int)
    requires size > 0 && Distinct(board) && 0 in board
    requires t == IndexOf(board, 0) + size && t < |board|
    ensures inv' + 2 * k == inv + (size - 1)
    ensures IsSolvable(board, size) == ParityRule(size, inv, fromBottom)
    ensures IsSolvable(Swap(board, t, IndexOf(board, 0)), size) == ParityRule(size, inv', fromBottom - 1)
  {
    var e := IndexOf(board, 0);
    var after := Swap(board, t, e);
    inv, inv' := Inversions(NonZero(board)), Inversions(NonZero(after));
    k := Above(board[t], board[e + 1..t]);
    fromBottom := size - Row(e, size);
    assert inv' + 2 * k == inv + (size - 1) by {
      BlankDownInversions(board, e, t);
    }
    assert IsSolvable(board, size) == ParityRule(size, inv, fromBottom) by {
      SolvableFromParts(board, size, inv, fromBottom);
    }
    assert IsSolvable(after, size) == ParityRule(size, inv', fromBottom - 1) by {
      assert IndexOf(after, 0) == t by {
        SwapDistinct(board, t, e);
        OnlyBlank(after, t);
      }
      assert Row(t, size) == Row(e, size) + 1 by {
        RowStep(e, t, size);
      }
      SolvableFromParts(after, size, inv', fromBottom - 1);
    }
  }

  /** `isSolvable` is the parity rule applied to the board's inversion count and the blank's row from the bottom. */
  lemma SolvableFromParts(board: seq<int>, size: int, inv: int, fromBottom: int)
    requires size > 0 && inv == Inversions(NonZero(board))
    requires fromBottom == size - Row(IndexOf(board, 0), size)
    ensures IsSolvable(board, size) == ParityRule(size, inv, fromBottom)
  {
  }

  /** One row further down the board is one more in `rowFromIndex`. */
  lemma RowStep(e: int, t: int, size: int)
    requires e >= 0 && size > 0 && t == e + size
    ensures Row(t, size) == Row(e, size) + 1
  {
    var q, r := e / size, e % size;
    MulDistributes(size, q + 1, q);
    DivModUnique(e + size, size, q + 1, r);
  }

  /**
   * If the inversion count moves by size-1 plus an even amount and the blank
   * moves one row, the parity rule gives the same verdict.
   */
  lemma ParityRuleShift(size: int, inv': int, inv: int, k: int, fromBottom: int)
    requires inv' + 2 * k == inv + (size - 1)
    ensures ParityRule(size, inv', fromBottom - 1) == ParityRule(size, inv, fromBottom)
  {
  }

  /** The blank moving up one row is the reverse of the blank moving down. */
  lemma BlankUpKeepsSolvable(board: seq<int>, size: int, t: nat)
    requires size > 0 && Distinct(board) && 0 in board
    requires t + size == IndexOf(board, 0)
    ensures IsSolvable(Swap(board, t, IndexOf(board, 0)), size) <==> IsSolvable(board, size)
  {
    var e := t + size;
    var r := Swap(board, t, e);
    SwapDistinct(board, t, e);
    OnlyBlank(r, t);
    BlankDownKeepsSolvable(r, size, e);
    SwapTwice(board, t, e);
  }

  lemma SwapTwice(s: seq<int>, i: nat, j: nat)
    requires i < |s| && j < |s|
    ensures Swap(Swap(s, i, j), j, i) == s
  {
    var r := Swap(Swap(s, i, j), j, i);
    assert forall k :: 0 <= k < |s| ==> r[k] == s[k];
  }

  /** Sliding a tile sideways keeps the blank's row and the non-blank order. */
  lemma SidewaysKeepsSolvable(board: seq<int>, size: int, t: nat)
    requires size > 0 && Distinct(board) && 0 in board
    requires t < |board| && Row(t, size) == Row(IndexOf(board, 0), size)
    requires t == IndexOf(board, 0) + 1 || t + 1 == IndexOf(board, 0)
    ensures IsSolvable(Swap(board, t, IndexOf(board, 0)), size) <==> IsSolvable(board, size)
  {
    var e := IndexOf(board, 0);
    var r := Swap(board, t, e);
    assert IndexOf(r, 0) == t by {
      SwapDistinct(board, t, e);
      OnlyBlank(r, t);
    }
    assert NonZero(r) == NonZero(board) by {
      var i := if t < e then t else e;
      assert r == Swap(board, i, i + 1);
      NonZeroSwapNeighbour(board, i);
    }
    SameSolvability(r, board, size);
  }

  /** Solvability depends only on the non-blank order and the blank's row. */
  lemma SameSolvability(a: seq<int>, b: seq<int>, size: int)
    requires size > 0 && NonZero(a) == NonZero(b)
    requires Row(IndexOf(a, 0), size) == Row(IndexOf(b, 0), size)
    ensures IsSolvable(a, size) == IsSolvable(b, size)
  {
  }

  /** A legal click turns a solvable board into a solvable board. */
  lemma ClickKeepsSolvable(board: seq<int>, size: int, t: int)
    requires IsBoard(board, size) && IsSolvable(board, size) && 0 <= t < |board|
    ensures IsBoard(Click(board, size, t), size) && IsSolvable(Click(board, size, t), size)
  {
    if Legal(board, size, t) {
      var e := IndexOf(board, 0);
      SwapKeepsBoard(board, size, t, e);
      MoveGeometry(t, e, size);
      BoardFacts(board, size);
      if t == e + size {
        BlankDownKeepsSolvable(board, size, t);
      } else if e == t + size {
        BlankUpKeepsSolvable(board, size, t);
      } else {
        SidewaysKeepsSolvable(board, size, t);
      }
    }
  }

  lemma NonZeroSwapNeighbour(board: seq<int>, i: nat)
    requires i + 1 < |board| && (board[i] == 0 || board[i + 1] == 0)
    ensures NonZero(Swap(board, i, i + 1)) == NonZero(board)
  {
    var p, q := board[..i], board[i + 2..];
    var x, y := board[i], board[i + 1];
    assert board == p + [x, y] + q;
    assert Swap(board, i, i + 1) == p + [y, x] + q;
    NonZeroAppend(p + [x, y], q);
    NonZeroAppend(p + [y, x], q);
    NonZeroAppend(p, [x, y]);
    NonZeroAppend(p, [y, x]);
    assert [x, y][1..] == [y];
    assert [y, x][1..] == [x];
    assert [x][1..] == [] && [y][1..] == [];
  }

  // ---------------------------------------------------------------------------
  // The solved board is solvable

  lemma SolvedBlankRow(size: int)
    requires size > 0
    ensures Row(size * size - 1, size) == size - 1
  {
    MulDistributes(size, size, 1);
    DivModUnique(size * size - 1, size, size - 1, size - 1);
  }

  /** The solved board is a well-formed, solved and solvable board with no inversions. */
  lemma SolvedBoardSolvable(size: int)
    requires size > 0
    ensures var b := SolvedSeq(size * size);
      IsBoard(b, size) && Solved(b) && Inversions(NonZero(b)) == 0 && IsSolvable(b, size)
  {
    var n := size * size;
    assert n > 0;
    var b := SolvedSeq(n);
    var tiles := seq(n - 1, k => k + 1);
    assert NonZero(b) == tiles by {
      assert b == tiles + [0];
      assert 0 !in tiles;
      NonZeroAppend(tiles, [0]);
      NonZeroSingle(0);
      NonZeroWithoutBlank(tiles);
    }
    assert Inversions(tiles) == 0 by {
      InversionsZeroIffSorted(tiles);
    }
    assert IndexOf(b, 0) == n - 1 && Distinct(b) by {
      SolvedSeqDistinct(n);
      OnlyBlank(b, n - 1);
    }
    assert IsSolvable(b, size) by {
      SolvedBlankRow(size);
      assert ParityRule(size, 0, 1);
    }
    assert IsBoard(b, size) && Solved(b) by {
      assert b[n - 1] == 0;
    }
  }

  // ---------------------------------------------------------------------------
  // Generating a board

  /** A board the generator may hand out: solvable and not already solved. */
  predicate Acceptable(board: seq<int>, size: int)
    requires size > 0
  {
    IsSolvable(board, size) && !Solved(board)
  }

  /**
   * The random draws `shuffleSolvable` consumes: one Fisher–Yates draw sequence
   * per attempt, at least one of which yields an acceptable board. The source
   * retries without bound; this is the condition under which its loop returns.
   */
  predicate Supplies(size: int, attempts: seq<seq<nat>>)
  {
    && size > 0
    && (forall k :: 0 <= k < |attempts| ==> ValidRolls(attempts[k], |SolvedSeq(size * size)|))
    && exists k :: 0 <= k < |attempts| && Acceptable(Shuffled(SolvedSeq(size * size), attempts[k]), size)
  }

  /** Any shuffle of the solved board is a well-formed board. */
  lemma ShuffledIsBoard(size: int, rolls: seq<nat>)
    requires size > 0 && ValidRolls(rolls, |SolvedSeq(size * size)|)
    ensures var b := Shuffled(SolvedSeq(size * size), rolls);
      IsBoard(b, size) && multiset(b)[0] == 1
  {
    var b := Shuffled(SolvedSeq(size * size), rolls);
    SolvedBoardSolvable(size);
    assert multiset(b) == multiset(SolvedSeq(size * size));
    assert 0 in multiset(b);
    BoardFacts(b, size);
  }

  /** One attempt of `shuffleSolvable`: shuffle a copy of `solved` and test it. */
  method TryShuffle(solved: seq<int>, size: int, rolls: seq<nat>) returns (cand: seq<int>, ok: bool)
    requires size > 0 && ValidRolls(rolls, |solved|)
    ensures cand == Shuffled(solved, rolls)
    ensures ok <==> Acceptable(cand, size)
  {
    var a := new int[|solved|](i requires 0 <= i < |solved| => solved[i]);
    assert a[..] == solved;
    ShuffleInPlace(a, rolls);
    cand := a[..];
    var done := IsSolved(cand);
    ok := IsSolvable(cand, size) && !done;
  }

  /** `shuffleSolvable`: shuffle the solved board until it is solvable and unsolved. */
  method ShuffleSolvable(size: int, attempts: seq<seq<nat>>) returns (board: seq<int>)
    requires Supplies(size, attempts)
    ensures IsBoard(board, size) && multiset(board)[0] == 1
    ensures IsSolvable(board, size) && !Solved(board)
  {
    var solved := MakeSolvedBoard(size);
    ghost var w :| 0 <= w < |attempts| && Acceptable(Shuffled(solved, attempts[w]), size);
    var k := 0;
    while true
      invariant 0 <= k <= w
      decreases w - k
    {
      var cand, ok := TryShuffle(solved, size, attempts[k]);
      if ok {
        ShuffledIsBoard(size, attempts[k]);
        return cand;
      }
      k := k + 1;
    }
  }

  // ---------------------------------------------------------------------------
  // The game component's state

  /** The `board` and `moves` state cells of the puzzle component. */
  class Game {
    const size: int
    var board: seq<int>
    var moves: nat

    ghost predicate Valid()
      reads this
    {
      size == SIZE && IsBoard(board, size) && IsSolvable(board, size)
    }

    /** `useMemo(() => isSolved(board))`. */
    predicate Won()
      reads this
    {
      Solved(board)
    }

    /** The initial state: a freshly generated board and no moves. */
    constructor (attempts: seq<seq<nat>>)
      requires Supplies(SIZE, attempts)
      ensures Valid() && moves == 0 && !Won()
    {
      var b := ShuffleSolvable(SIZE, attempts);
      size := SIZE;
      board := b;
      moves := 0;
    }

    /** `reset`: a fresh board and the move counter back to zero. */
    method Reset(attempts: seq<seq<nat>>)
      requires Valid() && Supplies(size, attempts)
      modifies this
      ensures Valid() && moves == 0 && !Won()
    {
      board := ShuffleSolvable(size, attempts);
      moves := 0;
    }

    /** `handleTileClick`: slide the clicked tile into the blank when that is allowed. */
    method HandleTileClick(tileIndex: int)
      requires Valid() && 0 <= tileIndex < |board|
      modifies this
      ensures Valid()
      ensures board == Click(old(board), size, tileIndex)
      ensures moves == if Legal(old(board), size, tileIndex) then old(moves) + 1 else old(moves)
    {
      ClickKeepsSolvable(board, size, tileIndex);
      var won := IsSolved(board);
      if won {
        return;
      }
      var emptyIndex := IndexOf(board, 0);
      if !CanMove(tileIndex, emptyIndex, size) {
        return;
      }
      board := Swap(board, tileIndex, emptyIndex);
      moves := moves + 1;
    }
  }
}
