/**
 * The generation step of `sendCellularAutomataStepsImage`: a row of 0/1 cells
 * on a ring is updated cell by cell from a snapshot of the previous row, and
 * every cell that becomes 1 is drawn as a black pixel in the row of the image
 * that belongs to the step.
 */
module Automaton {
  import opened RuleCode

  /** The index of the left neighbour of cell c on a ring of n cells. */
  function LeftOf(c: nat, n: nat): (l: nat)
    requires c < n
    ensures l < n
  {
    if c != 0 then c - 1 else n - 1
  }

  /** The index of the right neighbour of cell c on a ring of n cells. */
  function RightOf(c: nat, n: nat): (r: nat)
    requires c < n
    ensures r < n
  {
    if c + 1 != n then c + 1 else 0
  }

  /** The right neighbour is `(c + 1) % n`, as wolfram_ca.php:49 computes it. */
  lemma RightOfIsModulo(c: nat, n: nat)
    requires c < n
    ensures RightOf(c, n) == (c + 1) % n
  {
    if c + 1 != n {
      DivModUnique(c + 1, n, 0, c + 1);
    } else {
      DivModUnique(n, n, 1, 0);
    }
  }

  /** Going left then right, or right then left, comes back to the same cell. */
  lemma NeighboursInverse(c: nat, n: nat)
    requires c < n
    ensures RightOf(LeftOf(c, n), n) == c
    ensures LeftOf(RightOf(c, n), n) == c
  {
  }

  /** The row turned one cell to the right: cell c holds old cell c - 1, cell 0 the last one. */
  function RotateRight(row: seq<Cell>): (r: seq<Cell>)
    requires |row| >= 1
    ensures |r| == |row|
  {
    [row[|row| - 1]] + row[..|row| - 1]
  }

  /** The row turned one cell to the left: cell c holds old cell c + 1, the last cell old cell 0. */
  function RotateLeft(row: seq<Cell>): (r: seq<Cell>)
    requires |row| >= 1
    ensures |r| == |row|
  {
    row[1..] + [row[0]]
  }

  /** Turned right, cell c holds its left neighbour; turned left, its right neighbour. */
  lemma RotateAt(row: seq<Cell>, c: nat)
    requires c < |row|
    ensures RotateRight(row)[c] == row[LeftOf(c, |row|)]
    ensures RotateLeft(row)[c] == row[RightOf(c, |row|)]
  {
  }

  /**
   * The new value of cell c: bit `(left << 2) | (self << 1) | right` of the
   * rule, where left is the old cell before c (the last cell when c is 0) and
   * right the old cell after it (cell 0 for the last cell; that is
   * `(c + 1) % n`, by RightOfIsModulo).
   */
  function NewCell(rule: int, row: seq<Cell>, c: nat): Cell
    requires c < |row|
  {
    Apply(rule, row[LeftOf(c, |row|)], row[c], row[RightOf(c, |row|)])
  }

  /** The first k cells of the next row, each computed from the old row only. */
  function NextPrefix(rule: int, row: seq<Cell>, k: nat): (r: seq<Cell>)
    requires k <= |row|
    ensures |r| == k
  {
    if k == 0 then [] else NextPrefix(rule, row, k - 1) + [NewCell(rule, row, k - 1)]
  }

  /** The row after one update. */
  function Next(rule: int, row: seq<Cell>): (r: seq<Cell>)
    ensures |r| == |row|
  {
    NextPrefix(rule, row, |row|)
  }

  lemma {:induction false} NextPrefixAt(rule: int, row: seq<Cell>, k: nat, c: nat)
    requires c < k <= |row|
    ensures NextPrefix(rule, row, k)[c] == NewCell(rule, row, c)
    decreases k
  {
    if c < k - 1 {
      NextPrefixAt(rule, row, k - 1, c);
    }
  }

  /** Cell c of the next row is the new value of cell c, computed from the old row. */
  lemma NextAt(rule: int, row: seq<Cell>, c: nat)
    requires c < |row|
    ensures Next(rule, row)[c]
            == Bit(rule, Code(row[LeftOf(c, |row|)], row[c], row[RightOf(c, |row|)]))
  {
    NextPrefixAt(rule, row, |row|, c);
  }

  /** The rule applied column by column to three rows holding left neighbours, cells and right neighbours. */
  function Combine(rule: int, lefts: seq<Cell>, selves: seq<Cell>, rights: seq<Cell>): (r: seq<Cell>)
    requires |lefts| == |selves| == |rights|
    ensures |r| == |selves|
  {
    if selves == [] then []
    else [Apply(rule, lefts[0], selves[0], rights[0])]
         + Combine(rule, lefts[1..], selves[1..], rights[1..])
  }

  lemma {:induction false} CombineAt(rule: int, lefts: seq<Cell>, selves: seq<Cell>, rights: seq<Cell>, c: nat)
    requires |lefts| == |selves| == |rights|
    requires c < |selves|
    ensures Combine(rule, lefts, selves, rights)[c] == Apply(rule, lefts[c], selves[c], rights[c])
    decreases c
  {
    if c > 0 {
      CombineAt(rule, lefts[1..], selves[1..], rights[1..], c - 1);
    }
  }

  /**
   * A second, whole-row definition of the update: the rule applied to the row
   * turned right (each cell's left neighbour), the row itself and the row
   * turned left (each cell's right neighbour).
   */
  function NextByRotation(rule: int, row: seq<Cell>): (r: seq<Cell>)
    ensures |r| == |row|
  {
    if row == [] then [] else Combine(rule, RotateRight(row), row, RotateLeft(row))
  }

  /** The cell-by-cell update with wrap-around indices is the whole-row update by rotation. */
  lemma {:induction false} NextByRotationIsNext(rule: int, row: seq<Cell>)
    ensures NextByRotation(rule, row) == Next(rule, row)
  {
    forall c | 0 <= c < |row|
      ensures NextByRotation(rule, row)[c] == Next(rule, row)[c]
    {
      RotateAt(row, c);
      CombineAt(rule, RotateRight(row), row, RotateLeft(row), c);
      NextPrefixAt(rule, row, |row|, c);
    }
  }

  /** The row after k updates. */
  function Generation(rule: int, row: seq<Cell>, k: nat): (r: seq<Cell>)
    ensures |r| == |row|
  {
    if k == 0 then row else Next(rule, Generation(rule, row, k - 1))
  }

  /** Updating j times and then k times is updating j + k times. */
  lemma {:induction false} GenerationAdd(rule: int, row: seq<Cell>, j: nat, k: nat)
    ensures Generation(rule, Generation(rule, row, j), k) == Generation(rule, row, j + k)
    decreases k
  {
    if k > 0 {
      GenerationAdd(rule, row, j, k - 1);
    }
  }

  /** Rules with the same table update every row alike. */
  lemma SameTableSameNext(rule1: int, rule2: int, row: seq<Cell>)
    requires RuleTable(rule1) == RuleTable(rule2)
    ensures Next(rule1, row) == Next(rule2, row)
  {
    forall c | 0 <= c < |row|
      ensures Next(rule1, row)[c] == Next(rule2, row)[c]
    {
      NextAt(rule1, row, c);
      NextAt(rule2, row, c);
      var code := Code(row[LeftOf(c, |row|)], row[c], row[RightOf(c, |row|)]);
      assert RuleTable(rule1)[code] == RuleTable(rule2)[code];
    }
  }

  /** Only bits 0 to 7 of the rule matter: rules equal modulo 256 evolve every row alike. */
  lemma {:induction false} GenerationLowByte(rule1: int, rule2: int, row: seq<Cell>, k: nat)
    requires rule1 % 256 == rule2 % 256
    ensures Generation(rule1, row, k) == Generation(rule2, row, k)
    decreases k
  {
    if k > 0 {
      GenerationLowByte(rule1, rule2, row, k - 1);
      SameTableIffSameLowByte(rule1, rule2);
      SameTableSameNext(rule1, rule2, Generation(rule1, row, k - 1));
    }
  }

  /** A three-cell row whose middle cell sees neighbourhood n. */
  function Probe(n: nat): (row: seq<Cell>)
    requires n < 8
    ensures |row| == 3
  {
    [Bit(n, 2), Bit(n, 1), Bit(n, 0)]
  }

  /** Every bit 0..7 of the rule is observable as the update of some cell. */
  lemma ProbeReadsRuleBit(rule: int, n: nat)
    requires n < 8
    ensures Next(rule, Probe(n))[1] == Bit(rule, n)
  {
    NextAt(rule, Probe(n), 1);
    CodeBits(n);
  }

  /** Two rules give the same update on every three-cell row exactly when they agree modulo 256. */
  lemma SameUpdateIffSameLowByte(rule1: int, rule2: int)
    ensures (forall n | 0 <= n < 8 :: Next(rule1, Probe(n)) == Next(rule2, Probe(n)))
            <==> rule1 % 256 == rule2 % 256
  {
    SameTableIffSameLowByte(rule1, rule2);
    if forall n | 0 <= n < 8 :: Next(rule1, Probe(n)) == Next(rule2, Probe(n)) {
      forall n | 0 <= n < 8
        ensures RuleTable(rule1)[n] == RuleTable(rule2)[n]
      {
        ProbeReadsRuleBit(rule1, n);
        ProbeReadsRuleBit(rule2, n);
      }
      assert RuleTable(rule1) == RuleTable(rule2);
    }
    if rule1 % 256 == rule2 % 256 {
      forall n | 0 <= n < 8
        ensures Next(rule1, Probe(n)) == Next(rule2, Probe(n))
      {
        SameTableSameNext(rule1, rule2, Probe(n));
      }
    }
  }

  /** The update does not depend on where the ring starts: turning the row commutes with updating it. */
  lemma NextRotateLeft(rule: int, row: seq<Cell>)
    requires |row| >= 1
    ensures Next(rule, RotateLeft(row)) == RotateLeft(Next(rule, row))
  {
    var n := |row|;
    var s := RotateLeft(row);
    forall c | 0 <= c < n
      ensures Next(rule, s)[c] == RotateLeft(Next(rule, row))[c]
    {
      var d := RightOf(c, n);
      NeighboursInverse(c, n);
      NeighboursInverse(d, n);
      RotateAt(row, c);
      RotateAt(row, LeftOf(c, n));
      RotateAt(row, d);
      NextAt(rule, s, c);
      NextAt(rule, row, d);
    }
  }

  /** Every cell of the row holds v. */
  predicate Constant(row: seq<Cell>, v: Cell)
  {
    forall c | 0 <= c < |row| :: row[c] == v
  }

  /**
   * Every cell of a constant row sees neighbourhood v v v, whose code is
   * 7 * v (0 or 7), so every cell of the next row takes that one rule bit.
   */
  lemma NextOfConstant(rule: int, row: seq<Cell>, v: Cell)
    requires Constant(row, v)
    ensures Constant(Next(rule, row), Bit(rule, 7 * v))
  {
    forall c | 0 <= c < |row|
      ensures Next(rule, row)[c] == Bit(rule, 7 * v)
    {
      NextAt(rule, row, c);
    }
  }

  /**
   * Every cell of the all-zero row sees neighbourhood 0, so the row becomes
   * all zero when bit 0 of the rule (`rule & 1`) is 0 and all one otherwise.
   */
  lemma NextOfZeros(rule: int, row: seq<Cell>)
    requires |row| >= 1 && Constant(row, 0)
    ensures Constant(Next(rule, row), Bit(rule, 0))
    ensures Constant(Next(rule, row), 0) <==> Bit(rule, 0) == 0
    ensures Constant(Next(rule, row), 1) <==> Bit(rule, 0) == 1
  {
    NextOfConstant(rule, row, 0);
    assert Next(rule, row)[0] == Bit(rule, 0);
  }

  /**
   * Every cell of the all-one row sees neighbourhood 7, so the row stays all
   * one when bit 7 of the rule is 1 and becomes all zero otherwise.
   */
  lemma NextOfOnes(rule: int, row: seq<Cell>)
    requires |row| >= 1 && Constant(row, 1)
    ensures Constant(Next(rule, row), Bit(rule, 7))
    ensures Constant(Next(rule, row), 1) <==> Bit(rule, 7) == 1
  {
    NextOfConstant(rule, row, 1);
    assert Next(rule, row)[0] == Bit(rule, 7);
  }

  /** When bit 0 of the rule is 0, the all-zero row stays all zero forever. */
  lemma {:induction false} ZerosStayZeros(rule: int, row: seq<Cell>, k: nat)
    requires |row| >= 1 && Constant(row, 0) && Bit(rule, 0) == 0
    ensures Constant(Generation(rule, row, k), 0)
    decreases k
  {
    if k > 0 {
      ZerosStayZeros(rule, row, k - 1);
      NextOfZeros(rule, Generation(rule, row, k - 1));
    }
  }

  /** With a single cell both neighbours are the cell itself: code 0 or 7, so bit 0 or bit 7 of the rule. */
  lemma SingleCell(rule: int, row: seq<Cell>)
    requires |row| == 1
    ensures Next(rule, row) == [if row[0] == 0 then Bit(rule, 0) else Bit(rule, 7)]
  {
    NextAt(rule, row, 0);
  }

  /** Rule 110 on the row 010: the three cells see codes 1, 2 and 4, and bits 1, 2, 4 of 110 are 1, 1, 0. */
  lemma Rule110Example(row: seq<Cell>)
    requires row == [0, 1, 0]
    ensures Next(110, row) == [1, 1, 0]
  {
    var r := Next(110, row);
    assert r[0] == 1 by {
      NextAt(110, row, 0);
    }
    assert r[1] == 1 by {
      NextAt(110, row, 1);
    }
    assert r[2] == 0 by {
      NextAt(110, row, 2);
    }
  }

  /** The rows after 1, 2, ..., k updates: the picture the step loop draws. */
  function Evolution(rule: int, row: seq<Cell>, k: nat): (rows: seq<seq<Cell>>)
    ensures |rows| == k
    ensures forall y | 0 <= y < k :: |rows[y]| == |row|
  {
    if k == 0 then [] else Evolution(rule, row, k - 1) + [Generation(rule, row, k)]
  }

  /** Row y of the picture is the state after y + 1 updates, the update of the state after y. */
  lemma {:induction false} EvolutionAt(rule: int, row: seq<Cell>, k: nat, y: nat)
    requires y < k
    ensures Evolution(rule, row, k)[y] == Generation(rule, row, y + 1)
    ensures Evolution(rule, row, k)[y] == Next(rule, Generation(rule, row, y))
    decreases k
  {
    if y < k - 1 {
      EvolutionAt(rule, row, k - 1, y);
    }
  }

  /**
   * One pass of the step loop: the cells are snapshot, then overwritten one
   * by one from the snapshot, and every cell that becomes 1 is drawn black in
   * image row `step`. Rows other than `step` are left as they were.
   */
  method UpdateCells(rule: int, cells: array<Cell>, image: array2<bool>, step: nat)
    requires cells.Length >= 1
    requires step < image.Length0 && image.Length1 == cells.Length
    requires forall x | 0 <= x < cells.Length :: !image[step, x]
    modifies cells, image
    ensures cells[..] == Next(rule, old(cells[..]))
    ensures forall y, x | 0 <= y < image.Length0 && 0 <= x < image.Length1 ::
              image[y, x] == if y == step then cells[x] == 1 else old(image[y, x])
  {
    var numberOfCells := cells.Length;
    var oldCells := cells[..];
    ghost var next := Next(rule, oldCells);
    for c := 0 to numberOfCells
      invariant forall x | 0 <= x < numberOfCells :: cells[x] == if x < c then next[x] else oldCells[x]
      invariant forall y, x | 0 <= y < image.Length0 && 0 <= x < numberOfCells ::
                  image[y, x] == if y == step then x < c && next[x] == 1 else old(image[y, x])
    {
      var leftNeighbor := if c != 0 then c - 1 else numberOfCells - 1;
      var left := oldCells[leftNeighbor];
      var rightNeighbor := (c + 1) % numberOfCells;
      var right := oldCells[rightNeighbor];
      var neighborhoodValue := Code(left, oldCells[c], right);
      RightOfIsModulo(c, numberOfCells);
      NextAt(rule, oldCells, c);
      cells[c] := Bit(rule, neighborhoodValue);
      if cells[c] != 0 {
        image[step, c] := true;
      }
    }
  }

  /**
   * `sendCellularAutomataStepsImage` without its headers and PNG encoding.
   * The image starts white (false); pixel [step, c] is black (true) exactly
   * when cell c is 1 after update step + 1, so the initial row is not drawn.
   * The cells are a copy of the initial state, which is left alone.
   */
  method CellularAutomataStepsImage(cellsInitialState: seq<Cell>, rule: int, numberOfSteps: nat)
    returns (image: array2<bool>)
    requires |cellsInitialState| >= 1 && numberOfSteps >= 1
    ensures fresh(image)
    ensures image.Length0 == numberOfSteps && image.Length1 == |cellsInitialState|
    ensures forall step, c | 0 <= step < numberOfSteps && 0 <= c < |cellsInitialState| ::
              image[step, c] <==> Generation(rule, cellsInitialState, step + 1)[c] == 1
  {
    var numberOfCells := |cellsInitialState|;
    // The rows the image is to show: row y is the state after y + 1 updates.
    ghost var rows := Evolution(rule, cellsInitialState, numberOfSteps);
    var cells := new Cell[numberOfCells](i requires 0 <= i < numberOfCells => cellsInitialState[i]);
    image := new bool[numberOfSteps, numberOfCells]((y, x) => false);
    for step := 0 to numberOfSteps
      invariant cells[..] == Generation(rule, cellsInitialState, step)
      invariant forall y, x | 0 <= y < numberOfSteps && 0 <= x < numberOfCells ::
                  image[y, x] == (y < step && rows[y][x] == 1)
    {
      EvolutionAt(rule, cellsInitialState, numberOfSteps, step);
      UpdateCells(rule, cells, image, step);
    }
    forall y | 0 <= y < numberOfSteps
      ensures rows[y] == Generation(rule, cellsInitialState, y + 1)
    {
      EvolutionAt(rule, cellsInitialState, numberOfSteps, y);
    }
  }
}
