/**
 * The initial row of the automaton (wolfram_ca.php:81-101): the `initial`
 * parameter, when it passes the pattern check, is repeated from left to
 * right until every cell has a value; otherwise the cells come from the
 * pseudo-random generator, which here is a row of 0/1 cells handed in by the
 * caller.
 */
module InitialRow {
  import opened RuleCode

  /** A string of binary digits. */
  predicate IsBinary(s: string)
  {
    forall i | 0 <= i < |s| :: s[i] == '0' || s[i] == '1'
  }

  /** The `initial` request parameter: not set, or the text it carries. */
  datatype Parameter = Absent | Given(text: string)

  /**
   * `preg_match('/^[01]+$/', $s)`: one or more binary digits. Without the `D`
   * modifier, PCRE's `$` also matches just before a final newline, so one
   * trailing "\n" after the digits is accepted too.
   */
  predicate MatchesPattern(s: string)
  {
    var digits := if |s| >= 1 && s[|s| - 1] == '\n' then s[..|s| - 1] else s;
    |digits| >= 1 && IsBinary(digits)
  }

  /**
   * The strings the pattern accepts, character by character: a binary digit
   * first, binary digits up to the last character, and a last character that
   * is a binary digit or the newline.
   */
  lemma {:induction false} PatternCharacters(s: string)
    ensures MatchesPattern(s) <==>
              |s| >= 1 && (s[0] == '0' || s[0] == '1') &&
              (forall i | 0 <= i < |s| - 1 :: s[i] == '0' || s[i] == '1') &&
              (s[|s| - 1] == '0' || s[|s| - 1] == '1' || s[|s| - 1] == '\n')
  {
    if |s| >= 1 && s[|s| - 1] == '\n' {
      var digits := s[..|s| - 1];
      assert forall i | 0 <= i < |digits| :: digits[i] == s[i];
    }
  }

  /** One newline at the end at most, and at least one digit: "\n", "101\n\n" and "" are rejected, "0" and "101\n" accepted. */
  lemma PatternBoundaries()
    ensures MatchesPattern("0") && MatchesPattern("101\n")
    ensures !MatchesPattern("") && !MatchesPattern("\n") && !MatchesPattern("101\n\n")
  {
    PatternCharacters("\n");
    PatternCharacters("101\n\n");
    assert "101\n\n"[3] == '\n';
    assert "101\n"[..3] == "101";
  }

  /** The initial string of wolfram_ca.php:81-84: the parameter when it is set and matches the pattern, "" otherwise. */
  function AcceptedInitial(initial: Parameter): (s: string)
    ensures s == "" || MatchesPattern(s)
    ensures s == "" || (initial.Given? && s == initial.text)
    ensures s != "" <==> initial.Given? && MatchesPattern(initial.text)
  {
    if initial.Given? && MatchesPattern(initial.text) then initial.text else ""
  }

  /** `intval('1' == ch)`: 1 for the digit one, 0 for anything else. */
  function CellValue(ch: char): (v: Cell)
    ensures v == 1 <==> ch == '1'
  {
    if '1' == ch then 1 else 0
  }

  /** The digit that spells a cell. */
  function CellDigit(v: Cell): (ch: char)
    ensures ch == '0' || ch == '1'
  {
    if v == 1 then '1' else '0'
  }

  /** Reading the digit of a cell gives the cell back; writing the value of a binary digit gives the digit back. */
  lemma DigitRoundTrip(v: Cell, ch: char)
    ensures CellValue(CellDigit(v)) == v
    ensures ch == '0' || ch == '1' ==> CellDigit(CellValue(ch)) == ch
  {
  }

  /** The cells spelled by a string repeated over numberOfCells cells: cell i reads digit i mod |s|. */
  function Tiled(s: string, numberOfCells: nat): (cells: seq<Cell>)
    requires |s| >= 1
    ensures |cells| == numberOfCells
  {
    seq(numberOfCells, i requires 0 <= i < numberOfCells => CellValue(s[i % |s|]))
  }

  /** The row spelled out as a string of binary digits. */
  function Spelled(cells: seq<Cell>): (s: string)
    ensures |s| == |cells|
    ensures IsBinary(s)
  {
    seq(|cells|, i requires 0 <= i < |cells| => CellDigit(cells[i]))
  }

  /**
   * The tiling loop of wolfram_ca.php:90-93. PHP arrays are values, so the
   * array being filled index by index from 0 is a sequence that grows by one
   * cell per iteration.
   */
  method Tile(initialString: string, numberOfCells: nat) returns (cells: seq<Cell>)
    requires |initialString| >= 1
    ensures |cells| == numberOfCells
    ensures forall i | 0 <= i < numberOfCells :: cells[i] == 1 <==> initialString[i % |initialString|] == '1'
    ensures cells == Tiled(initialString, numberOfCells)
  {
    cells := [];
    var length := |initialString|;
    for i := 0 to numberOfCells
      invariant cells == Tiled(initialString, i)
    {
      cells := cells + [CellValue(initialString[i % length])];
    }
  }

  /** The tiled row repeats with the length of the string as its period. */
  lemma TiledPeriodic(s: string, numberOfCells: nat, i: nat)
    requires |s| >= 1 && i + |s| < numberOfCells
    ensures Tiled(s, numberOfCells)[i + |s|] == Tiled(s, numberOfCells)[i]
  {
    DivModUnique(i + |s|, |s|, i / |s| + 1, i % |s|);
  }

  /** A binary string exactly as long as the row is the row spelled out: tiling then spelling gives the string back. */
  lemma TiledRoundTrip(s: string)
    requires |s| >= 1 && IsBinary(s)
    ensures Spelled(Tiled(s, |s|)) == s
  {
    forall i | 0 <= i < |s|
      ensures Spelled(Tiled(s, |s|))[i] == s[i]
    {
      DivModUnique(i, |s|, 0, i);
      DigitRoundTrip(0, s[i]);
    }
  }

  /** Spelling a row and tiling the spelling over the same number of cells gives the row back. */
  lemma SpelledRoundTrip(cells: seq<Cell>)
    requires |cells| >= 1
    ensures Tiled(Spelled(cells), |cells|) == cells
  {
    forall i | 0 <= i < |cells|
      ensures Tiled(Spelled(cells), |cells|)[i] == cells[i]
    {
      DivModUnique(i, |cells|, 0, i);
      DigitRoundTrip(cells[i], '0');
    }
  }

  /** A string longer than the row is cut off: only its first numberOfCells digits are read. */
  lemma TiledTruncates(s: string, numberOfCells: nat)
    requires 1 <= numberOfCells <= |s|
    ensures Tiled(s, numberOfCells) == Tiled(s[..numberOfCells], numberOfCells)
  {
    forall i | 0 <= i < numberOfCells
      ensures Tiled(s, numberOfCells)[i] == Tiled(s[..numberOfCells], numberOfCells)[i]
    {
      DivModUnique(i, |s|, 0, i);
      DivModUnique(i, numberOfCells, 0, i);
    }
  }

  /** "10" over five cells gives 1, 0, 1, 0, 1. */
  lemma TiledExample(s: string)
    requires s == "10"
    ensures Tiled(s, 5) == [1, 0, 1, 0, 1]
  {
    var t := Tiled(s, 5);
    assert t[0] == CellValue(s[0]);
    assert t[1] == CellValue(s[1]);
    assert t[2] == CellValue(s[0]) by { DivModUnique(2, 2, 1, 0); }
    assert t[3] == CellValue(s[1]) by { DivModUnique(3, 2, 1, 1); }
    assert t[4] == CellValue(s[0]) by { DivModUnique(4, 2, 2, 0); }
  }

  /** PHP's truth value of a string: every string except "" and "0" is true. */
  predicate Truthy(s: string)
  {
    s != "" && s != "0"
  }

  /**
   * The choice of initial row as wolfram_ca.php:89-101 writes it:
   * `if ($initialString)` tiles the string when it is true in PHP, and
   * otherwise falls back to the random cells. The string "0" passes the
   * pattern check at line 82 but is false in PHP, so it is dropped.
   * Strings that the pattern lets through with a trailing newline are tiled
   * newline included (NewlineReadsAsZero).
   */
  function InitialCellsAsWritten(initialString: string, numberOfCells: nat, randomCells: seq<Cell>): (cells: seq<Cell>)
    requires |randomCells| == numberOfCells
    ensures |cells| == numberOfCells
    ensures Truthy(initialString) ==> forall i | 0 <= i < numberOfCells ::
              cells[i] == 1 <==> initialString[i % |initialString|] == '1'
    ensures !Truthy(initialString) ==> cells == randomCells
  {
    if Truthy(initialString) then Tiled(initialString, numberOfCells) else randomCells
  }

  /**
   * The request `initial=0` passes the pattern check, and the row as written
   * is then the random row, not the all-zero row the page promises for a
   * provided initial value: whenever the random generator draws a one, the
   * two differ.
   */
  lemma ZeroStringIgnored(numberOfCells: nat, randomCells: seq<Cell>, c: nat)
    requires |randomCells| == numberOfCells
    requires c < numberOfCells && randomCells[c] == 1
    ensures MatchesPattern("0") && AcceptedInitial(Given("0")) == "0"
    ensures InitialCellsAsWritten(AcceptedInitial(Given("0")), numberOfCells, randomCells) == randomCells
    ensures InitialCellsAsWritten(AcceptedInitial(Given("0")), numberOfCells, randomCells) != Tiled("0", numberOfCells)
  {
    assert Tiled("0", numberOfCells)[c] == 0;
  }

  /**
   * The initial row as the page describes it: a provided (non-empty)
   * initial string is repeated over the cells; with none the random cells
   * are used.
   */
  function InitialCells(initialString: string, numberOfCells: nat, randomCells: seq<Cell>): (cells: seq<Cell>)
    requires |randomCells| == numberOfCells
    ensures |cells| == numberOfCells
    ensures initialString != "" ==> forall i | 0 <= i < numberOfCells ::
              cells[i] == 1 <==> initialString[i % |initialString|] == '1'
    ensures initialString == "" ==> cells == randomCells
  {
    if initialString != "" then Tiled(initialString, numberOfCells) else randomCells
  }

  /** The corrected choice differs from the written one only for the string "0", which it tiles as all zeros. */
  lemma InitialCellsCorrected(initialString: string, numberOfCells: nat, randomCells: seq<Cell>)
    requires |randomCells| == numberOfCells
    ensures initialString != "0" ==>
              InitialCells(initialString, numberOfCells, randomCells)
              == InitialCellsAsWritten(initialString, numberOfCells, randomCells)
    ensures initialString == "0" ==>
              forall i | 0 <= i < numberOfCells :: InitialCells(initialString, numberOfCells, randomCells)[i] == 0
  {
  }

  /** The choice of wolfram_ca.php:88-101 as written, with the tiling loop: the string is tiled when PHP holds it true. */
  method ChooseInitialCells(initialString: string, numberOfCells: nat, randomCells: seq<Cell>) returns (cells: seq<Cell>)
    requires |randomCells| == numberOfCells
    ensures cells == InitialCellsAsWritten(initialString, numberOfCells, randomCells)
  {
    if Truthy(initialString) {
      cells := Tile(initialString, numberOfCells);
    } else {
      cells := randomCells;
    }
  }

  /**
   * A digit string followed by the newline the pattern lets through is tiled
   * as if the newline were one more 0 digit: `'1' == "\n"` is false.
   */
  lemma NewlineReadsAsZero(digits: string, numberOfCells: nat)
    requires |digits| >= 1
    ensures Tiled(digits + "\n", numberOfCells) == Tiled(digits + "0", numberOfCells)
  {
    var s, t := digits + "\n", digits + "0";
    forall i | 0 <= i < numberOfCells
      ensures Tiled(s, numberOfCells)[i] == Tiled(t, numberOfCells)[i]
    {
      var k := i % |s|;
      if k < |digits| {
        assert s[k] == digits[k] == t[k];
      } else {
        assert s[k] == '\n' && t[k] == '0';
      }
    }
  }

  /** "101" with a trailing newline passes the pattern check, is true in PHP, and over four cells gives 1, 0, 1, 0. */
  lemma NewlineExample(s: string)
    requires s == "101\n"
    ensures MatchesPattern(s) && Truthy(s)
    ensures InitialCellsAsWritten(s, 4, [0, 0, 0, 0]) == [1, 0, 1, 0]
  {
    assert s[..3] == "101";
    var t := Tiled(s, 4);
    assert t[0] == CellValue(s[0]) by { DivModUnique(0, 4, 0, 0); }
    assert t[1] == CellValue(s[1]) by { DivModUnique(1, 4, 0, 1); }
    assert t[2] == CellValue(s[2]) by { DivModUnique(2, 4, 0, 2); }
    assert t[3] == CellValue(s[3]) by { DivModUnique(3, 4, 0, 3); }
  }
}
