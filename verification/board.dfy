/**
  The board: the shuffled sequence of values 1..9 and the placement of one
  button per value on a 6 x 3 grid.
 */
module Board {
  import opened Wrappers
  import opened LangUtils

  const MaxValue: int := 9
  const NRows: int := 6
  const NCols: int := 3

  datatype Cell = Cell(row: int, col: int)

  /**
    A number button: the value it stands for, where it sits, the text it
    shows, and whether its touch listener is still attached.
   */
  datatype Button = Button(value: int, cell: Cell, text: string, active: bool)

  predicate InGrid(c: Cell) {
    0 <= c.row < NRows && 0 <= c.col < NCols
  }

  /** The m-th cell of the grid in row-major order. */
  function CellAt(m: int): (c: Cell) {
    Cell(m / NCols, m % NCols)
  }

  predicate Distinct<T(==)>(s: seq<T>) {
    forall a, b :: 0 <= a < b < |s| ==> s[a] != s[b]
  }

  // ---------------------------------------------------------------------
  // The sequence and its shuffle
  // ---------------------------------------------------------------------

  /** The sequence as the activity creates it: 1, 2, ..., 9. */
  const InitialSequence: seq<int> := [1, 2, 3, 4, 5, 6, 7, 8, 9]

  /** A permutation of 1..9: each value exactly once, nothing else. */
  predicate IsPermutation(s: seq<int>) {
    && |s| == MaxValue
    && (forall k :: 0 <= k < |s| ==> 1 <= s[k] <= MaxValue)
    && (forall v :: 1 <= v <= MaxValue ==> v in s)
    && Distinct(s)
  }

  lemma InitialIsPermutation()
    ensures IsPermutation(InitialSequence)
  {
    forall v | 1 <= v <= MaxValue
      ensures v in InitialSequence
    {
      assert InitialSequence[v - 1] == v;
    }
  }

  /** A rearrangement of a permutation of 1..9 is one too. */
  lemma RearrangedPermutation(s: seq<int>, r: seq<int>)
    requires IsPermutation(s)
    requires multiset(r) == multiset(s) && Distinct(r)
    ensures IsPermutation(r)
  {
    assert |r| == |multiset(r)| == |multiset(s)| == |s|;
    forall k | 0 <= k < |r|
      ensures 1 <= r[k] <= MaxValue
    {
      assert r[k] in multiset(r);
      assert r[k] in multiset(s);
    }
    forall v | 1 <= v <= MaxValue
      ensures v in r
    {
      assert v in s;
      assert v in multiset(s);
      assert v in multiset(r);
    }
  }

  function Swap(s: seq<int>, i: int, j: int): (r: seq<int>)
    requires 0 <= i < |s| && 0 <= j < |s|
    ensures |r| == |s|
    ensures multiset(r) == multiset(s)
    ensures Distinct(s) ==> Distinct(r)
  {
    s[i := s[j]][j := s[i]]
  }

  /**
    The random picks a backward swap shuffle of `n` elements draws: the t-th
    pick chooses the partner of position n-1-t among positions 0..n-1-t.
   */
  predicate ValidPicks(n: nat, picks: seq<int>) {
    && |picks| == (if n < 2 then 0 else n - 1)
    && forall t :: 0 <= t < |picks| ==> 0 <= picks[t] < n - t
  }

  /**
    Collections.shuffle: for i from the size down to 2, swap position i-1
    with a uniformly drawn position below i. The draws are supplied.
   */
  function ShuffleDown(s: seq<int>, i: nat, picks: seq<int>): (r: seq<int>)
    requires i <= |s|
    requires ValidPicks(i, picks)
    ensures |r| == |s|
    ensures multiset(r) == multiset(s)
    ensures Distinct(s) ==> Distinct(r)
    decreases i
  {
    if i < 2 then s
    else ShuffleDown(Swap(s, i - 1, picks[0]), i - 1, picks[1..])
  }

  function Shuffle(s: seq<int>, picks: seq<int>): (r: seq<int>)
    requires ValidPicks(|s|, picks)
    ensures multiset(r) == multiset(s)
    ensures IsPermutation(s) ==> IsPermutation(r)
  {
    var r := ShuffleDown(s, |s|, picks);
    if IsPermutation(s) then RearrangedPermutation(s, r); r else r
  }

  // ---------------------------------------------------------------------
  // Placement
  // ---------------------------------------------------------------------

  /** Every coin says "accept". */
  predicate AllAccept(coins: seq<bool>) {
    AcceptUpTo(coins, |coins|)
  }

  /** The first n coins all say "accept". */
  predicate AcceptUpTo(coins: seq<bool>, n: int)
    requires n <= |coins|
  {
    forall t :: 0 <= t < n ==> !coins[t]
  }

  /** The button createButtons makes for the k-th sequence value at a cell. */
  function NewButton(sequence: seq<int>, k: int, language: int, c: Cell): (b: Button)
    requires 0 <= k < |sequence|
    requires 0 <= sequence[k] <= MaxValue
    ensures b.value == sequence[k] && b.cell == c && b.active
    ensures 1 <= sequence[k] ==> b.text != "" && b.text != "?"
  {
    var b := Button(sequence[k], c, GetTranslation(language, sequence[k]), true);
    if 1 <= sequence[k] then LabelsDistinguishable(language, sequence[k], sequence[k]); b else b
  }

  /**
    A finished board: exactly nine buttons, the k-th carrying sequence[k]
    with its glyph and a live listener, each in its own cell of the grid.
   */
  predicate Placed(bs: seq<Button>, sequence: seq<int>, language: int)
    requires |sequence| == MaxValue
    requires forall k :: 0 <= k < |sequence| ==> 1 <= sequence[k] <= MaxValue
  {
    && |bs| == MaxValue
    && (forall k :: 0 <= k < |bs| ==> bs[k] == NewButton(sequence, k, language, bs[k].cell))
    && (forall k :: 0 <= k < |bs| ==> InGrid(bs[k].cell))
    && (forall a, b :: 0 <= a < b < |bs| ==> bs[a].cell != bs[b].cell)
  }

  /**
    A board under construction: the first |bs| values placed in order, each
    button in the cell recorded for it in `taken`, no cell used twice.
   */
  predicate Partial(bs: seq<Button>, taken: seq<Cell>, sequence: seq<int>, language: int)
    requires |sequence| == MaxValue
    requires forall k :: 0 <= k < |sequence| ==> 1 <= sequence[k] <= MaxValue
  {
    && |bs| == |taken| <= MaxValue
    && (forall m :: 0 <= m < |bs| ==> bs[m] == NewButton(sequence, m, language, taken[m]))
    && (forall m :: 0 <= m < |taken| ==> InGrid(taken[m]))
    && Distinct(taken)
  }

  /** The cells taken so far are the first ones in row-major order. */
  predicate RowMajorPrefix(taken: seq<Cell>) {
    forall m :: 0 <= m < |taken| ==> taken[m] == CellAt(m)
  }

  /**
    One visit of cell (i, j) with a coin already drawn: a "skip" coin or a
    taken cell leaves the board as it is; otherwise the cell receives the
    next button.
   */
  function Visit(bs: seq<Button>, taken: seq<Cell>, sequence: seq<int>, language: int,
                 i: int, j: int, skip: bool): (r: (seq<Button>, seq<Cell>))
    requires |sequence| == MaxValue
    requires forall k :: 0 <= k < |sequence| ==> 1 <= sequence[k] <= MaxValue
    requires Partial(bs, taken, sequence, language)
    requires |bs| < MaxValue
    requires InGrid(Cell(i, j))
    ensures Partial(r.0, r.1, sequence, language)
    ensures |r.1| == |taken| || |r.1| == |taken| + 1
    ensures skip || Cell(i, j) in taken ==> r == (bs, taken)
    ensures !skip && Cell(i, j) !in taken ==> r.1 == taken + [Cell(i, j)]
    ensures !skip && RowMajorPrefix(taken) && NCols * i + j == |taken| ==>
              |r.1| == |taken| + 1 && RowMajorPrefix(r.1)
  {
    if !skip && Cell(i, j) !in taken then
      (bs + [NewButton(sequence, |bs|, language, Cell(i, j))], taken + [Cell(i, j)])
    else
      (bs, taken)
  }

  /** The buttons sit in the first cells of the grid, in row-major order. */
  predicate FirstCells(bs: seq<Button>) {
    forall k :: 0 <= k < |bs| ==> bs[k].cell == CellAt(k)
  }

  /**
    createButtons: scan the grid in row-major order, again and again; at each
    cell stop once nine buttons exist, otherwise draw a coin, and on
    "accept" place the next value there unless the cell is taken. A coin
    `true` says "skip this cell" (the random draw exceeded one half),
    `false` says "accept". The coins
    are supplied; r is None when they run out before nine buttons exist
    (the scan has not finished yet). `used` counts the coins drawn.
   */
  method CreateButtons(sequence: seq<int>, language: int, coins: seq<bool>)
    returns (r: Option<seq<Button>>, used: nat)
    requires |sequence| == MaxValue
    requires forall k :: 0 <= k < |sequence| ==> 1 <= sequence[k] <= MaxValue
    ensures used <= |coins|
    ensures r.None? ==> used == |coins|
    ensures r.Some? ==> Placed(r.value, sequence, language)
    ensures AllAccept(coins) && |coins| >= MaxValue ==>
              used == MaxValue && r.Some? && FirstCells(r.value)
  {
    var taken: seq<Cell> := [];
    var bs: seq<Button> := [];
    used := 0;
    while true
      invariant used <= |coins|
      invariant used % (NRows * NCols) == 0
      invariant Partial(bs, taken, sequence, language)
      invariant AcceptUpTo(coins, used) ==> used == 0 && |taken| == 0
      decreases |coins| - used
    {
      ghost var used0 := used;
      var i := 0;
      while i < NRows
        invariant 0 <= i <= NRows
        invariant used == used0 + NCols * i <= |coins|
        invariant Partial(bs, taken, sequence, language)
        invariant AcceptUpTo(coins, used) ==> used0 == 0 && |taken| == used && RowMajorPrefix(taken)
      {
        var j := 0;
        while j < NCols
          invariant 0 <= j <= NCols
          invariant used == used0 + NCols * i + j <= |coins|
          invariant Partial(bs, taken, sequence, language)
          invariant AcceptUpTo(coins, used) ==> used0 == 0 && |taken| == used && RowMajorPrefix(taken)
        {
          if |bs| >= MaxValue {
            return Some(bs), used;
          }
          if used == |coins| {
            return None, used;
          }
          var skip := coins[used];
          used := used + 1;
          var next := Visit(bs, taken, sequence, language, i, j, skip);
          bs, taken := next.0, next.1;
          j := j + 1;
        }
        i := i + 1;
      }
    }
  }
}
