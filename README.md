# Elementary cellular automaton (wolfram_ca.php), modelled in Dafny

`wolfram_ca.php` draws the evolution of a one-dimensional, two-state cellular
automaton in the rule-number coding of Wolfram's *A New Kind of Science*
(page 24). A row of 0/1 cells lies on a ring. At each step every cell takes
bit `(left << 2) | (self << 1) | right` of the rule number, computed from a
snapshot of the previous row. Every cell that becomes 1 is drawn as a black
pixel in the image row for that step. The initial row comes from the `initial`
parameter, repeated across the cells, or otherwise from the pseudo-random
generator. The page under the image describes the rule in a sentence such as
`Rule 110 maps 000&nbsp;to&nbsp;0, 001&nbsp;to&nbsp;1, …, and 111&nbsp;to&nbsp;0.`

The project has five modules, one per file:

- `rule_code.dfy`, **RuleCode**: the rule-number coding. It covers
  `(rule >> n) & 1`, the neighbourhood code, and which bits of the rule are
  ever read.
- `automaton.dfy`, **Automaton**: the step loop of
  `sendCellularAutomataStepsImage`. It is imperative, over an `array<Cell>`
  and an `array2<bool>` image, and is proved against the functions
  `Next` / `Generation` and their properties.
- `initial_row.dfy`, **InitialRow**: tiling the `initial` string over the
  cells, with its loop, and the choice between that string and random cells.
- `rule_description.dfy`, **RuleDescription**: `printRuleDescriptionHtml`.
  Each `echo` appends to a string, and the method is proved against the
  sentence function `Description`.
- `image_request.dfy`, **ImageRequest**: the `image=yes` branch, which
  chooses the initial row and then draws.

The rule is an unbounded `int`. PHP's `>>` is an arithmetic shift, i.e.
division by 2 rounding down, and `& 1` takes the parity of the two's-complement
value. These are Dafny's Euclidean `/ 2` and `% 2`, so negative rules read the
same bits as in PHP. The pixel grid is indexed `[step, cell]`. `true` is black
and `false` is the white background.

## Model

| member | source | states |
|---|---|---|
| RuleCode.Bit | wolfram_ca.php:28 | `($rule >> $n) & 1`, one halving per shifted position and then the parity; its result is a cell (0 or 1), and BitByPow2 states its value |
| RuleCode.BitByPow2 | wolfram_ca.php:53 | `(rule >> n) & 1` is the parity of the rule divided, rounding down, by 2 to the n, for every integer rule including negative ones |
| RuleCode.Code | wolfram_ca.php:52 | the bitwise or of the shifted left, own and right cells, computed on bit vectors, is the number 4·left + 2·self + right, and is below 8 |
| RuleCode.Apply | wolfram_ca.php:52-53 | the new value of a cell with neighbourhood (left, self, right); ApplyIsCode states that it is bit `Code(left, self, right)` of the rule |
| RuleCode.ApplyIsCode | wolfram_ca.php:52-53 | the new value of a cell is the rule bit selected by the shift-and-or code of its neighbourhood |
| RuleCode.CodeRoundTrip | wolfram_ca.php:52 | bits 2, 1 and 0 of a neighbourhood code give back the left, own and right cell; every number 0..7 is the code of the neighbourhood its bits spell |
| RuleCode.CodeInjective | wolfram_ca.php:52 | different neighbourhoods have different codes |
| RuleCode.LowBitsValue | wolfram_ca.php:53 | bits 0..k-1 of the rule, as read by `(rule >> n) & 1`, spell the rule modulo 2 to the k |
| RuleCode.RuleTableValue | wolfram_ca.php:53 | the eight bits the update can read spell the rule modulo 256 |
| RuleCode.SameTableIffSameLowByte | wolfram_ca.php:53 | two rules have the same eight update bits if and only if they are equal modulo 256 |
| Automaton.LeftOf | wolfram_ca.php:46 | the left neighbour index is a valid index of the ring |
| Automaton.RightOf | wolfram_ca.php:49 | the right neighbour index is a valid index of the ring |
| Automaton.RightOfIsModulo | wolfram_ca.php:49 | the right neighbour is `(c + 1) % numberOfCells`: the next cell, and cell 0 after the last |
| Automaton.NeighboursInverse | wolfram_ca.php:46-50 | the left neighbour of the right neighbour, and the right neighbour of the left one, is the cell itself |
| Automaton.NewCell | wolfram_ca.php:46-53 | the new value of cell c, read from the old row only: the rule bit for its wrapped left neighbour, itself and its wrapped right neighbour |
| Automaton.Next | wolfram_ca.php:45-57 | one update of the whole row keeps its length; NextAt states each cell, NextByRotationIsNext the whole row |
| Automaton.NextAt | wolfram_ca.php:46-53 | cell c of the next row is bit `Code(left, self, right)` of the rule, where the neighbours are taken with wrap-around from the old row |
| Automaton.NextByRotationIsNext | wolfram_ca.php:43-58 | the cell-by-cell update equals an independent whole-row definition that applies the rule to the row turned right, the row, and the row turned left |
| Automaton.NextRotateLeft | wolfram_ca.php:46-53 | the update does not depend on where the ring starts: turning the row then updating is updating then turning |
| Automaton.Generation | wolfram_ca.php:43-58 | the row after k updates has as many cells as the initial row |
| Automaton.GenerationAdd | wolfram_ca.php:43-58 | j updates followed by k updates are j + k updates |
| Automaton.ProbeReadsRuleBit | wolfram_ca.php:52-53 | each of the eight rule bits is what the middle cell of some three-cell row becomes |
| Automaton.SameUpdateIffSameLowByte | wolfram_ca.php:52-53 | two rules update every three-cell row alike if and only if they agree modulo 256 |
| Automaton.GenerationLowByte | wolfram_ca.php:53 | rules equal modulo 256 produce the same rows after any number of steps; bits above 7 are never read |
| Automaton.NextOfConstant | wolfram_ca.php:52-53 | a row with every cell v becomes a row with every cell equal to bit 7·v of the rule |
| Automaton.NextOfZeros | wolfram_ca.php:52-53 | the all-zero row becomes all zero if and only if `rule & 1` is 0, and all one if and only if it is 1 |
| Automaton.NextOfOnes | wolfram_ca.php:52-53 | the all-one row becomes the constant row of rule bit 7; it stays all one if and only if that bit is 1 |
| Automaton.ZerosStayZeros | wolfram_ca.php:43-58 | when `rule & 1` is 0, the all-zero row stays all zero at every step |
| Automaton.SingleCell | wolfram_ca.php:46-53 | with one cell both neighbours are the cell itself, so it becomes bit 0 of the rule if it was 0 and bit 7 if it was 1 |
| Automaton.Rule110Example | wolfram_ca.php:52-53 | rule 110 turns the row 010 into 110: the cells see codes 1, 2 and 4, and bit 4 of 110 is 0 |
| Automaton.EvolutionAt | wolfram_ca.php:43-58 | image row y shows the state after y + 1 updates, which is one update of the state after y; the initial row is not drawn |
| Automaton.UpdateCells | wolfram_ca.php:44-57 | one step: the new cells are the update of the snapshot `$oldCells`, so cells already overwritten in this step do not feed later ones; image row `step` is black exactly where the new cell is 1; other rows are unchanged |
| Automaton.CellularAutomataStepsImage | wolfram_ca.php:34-58 | the image has numberOfSteps rows and numberOfCells columns; pixel [step, c] is black if and only if cell c is 1 after step + 1 updates |
| InitialRow.CellValue | wolfram_ca.php:92 | `intval('1' == ch)` is 1 exactly for the digit one |
| InitialRow.DigitRoundTrip | wolfram_ca.php:92 | writing a cell as a digit and reading it back gives the cell; a binary digit read and written back gives the digit |
| InitialRow.Tiled | wolfram_ca.php:92 | the string repeated over the cells has exactly numberOfCells cells; Tile and TiledPeriodic state their contents |
| InitialRow.Tile | wolfram_ca.php:90-93 | the tiling loop yields numberOfCells cells, and cell i is 1 if and only if digit i mod length of the string is '1' |
| InitialRow.TiledPeriodic | wolfram_ca.php:91-93 | the tiled row repeats with the string's length as its period |
| InitialRow.TiledRoundTrip | wolfram_ca.php:91-93 | a binary string tiled over exactly its own length and written out again gives the string back |
| InitialRow.SpelledRoundTrip | wolfram_ca.php:91-93 | a row written as digits and tiled back over the same number of cells gives the row back |
| InitialRow.TiledTruncates | wolfram_ca.php:91-93 | a string at least as long as the row contributes only its first numberOfCells digits |
| InitialRow.TiledExample | wolfram_ca.php:91-93 | "10" over five cells gives 1, 0, 1, 0, 1 |
| InitialRow.MatchesPattern | wolfram_ca.php:82 | `preg_match('/^[01]+$/', …)`: one or more binary digits, optionally followed by one newline, which PCRE's `$` admits without the `D` modifier; PatternCharacters and PatternBoundaries state which strings it accepts |
| InitialRow.PatternCharacters | wolfram_ca.php:82 | a string passes the pattern if and only if it is non-empty, starts with a binary digit, has binary digits up to its last character, and ends in a binary digit or a newline |
| InitialRow.PatternBoundaries | wolfram_ca.php:82 | "0" and "101" plus a newline pass; the empty string, a lone newline and a digit string with two newlines are rejected |
| InitialRow.AcceptedInitial | wolfram_ca.php:81-84 | the initial string is either "" or the parameter's text unchanged, and it is the text exactly when the parameter is set and passes the pattern; a non-empty result always passes the pattern |
| InitialRow.NewlineReadsAsZero | wolfram_ca.php:82-93 | a digit string with the trailing newline the pattern lets through is tiled as if the newline were one more 0 digit |
| InitialRow.NewlineExample | wolfram_ca.php:82-93 | "101" followed by a newline passes the pattern, is true in PHP, and over four cells gives 1, 0, 1, 0 |
| InitialRow.Truthy | wolfram_ca.php:89 | PHP's truth value of a string: false exactly for "" and "0"; InitialCellsAsWritten and ZeroStringIgnored state its effect |
| InitialRow.InitialCellsAsWritten | wolfram_ca.php:89-101 | as written, for any string that PHP holds true cell i is 1 if and only if character i mod length is '1'; any other string (the empty one and "0") selects the random cells |
| InitialRow.ZeroStringIgnored | wolfram_ca.php:82-101 | the request `initial=0` passes the pattern check and keeps "0" as its initial string, yet the written choice gives the random row, which differs from the all-zero tiling whenever a random cell is 1 |
| InitialRow.InitialCells | wolfram_ca.php:88-101 | corrected choice: any provided binary string is tiled (cell i is 1 if and only if digit i mod length is '1'); with no string the random cells are used |
| InitialRow.InitialCellsCorrected | wolfram_ca.php:89 | the corrected choice agrees with the written one on every string except "0", which it tiles as all zeros |
| InitialRow.ChooseInitialCells | wolfram_ca.php:88-101 | the branch as written, with its tiling loop: it yields the written choice, tiling the string exactly when PHP holds it true |
| ImageRequest.DrawImage | wolfram_ca.php:81-102 | the image for a request is the evolution of the initial row chosen as written from the checked `initial` parameter: pixel [step, c] is black if and only if that cell is 1 after step + 1 updates |
| RuleDescription.Digit | wolfram_ca.php:19 | each digit 0..9 becomes the character whose distance from '0' is the digit |
| RuleDescription.NatToString | wolfram_ca.php:27 | `decbin` (base 2) and decimal rendering (base 10) give a non-empty string of digits; NatRoundTrip states that it spells the number and NoLeadingZero that it has no leading zero |
| RuleDescription.NoLeadingZero | wolfram_ca.php:27 | the rendering has no leading zero: it starts with '0' if and only if the number is 0, which is written "0" |
| RuleDescription.NatRoundTrip | wolfram_ca.php:27 | reading a number formatted in base 2 (`decbin`) or base 10 gives the number back |
| RuleDescription.IntToString | wolfram_ca.php:19 | the interpolation of `$rule` is non-empty; IntRoundTrip states that it spells the rule, sign included |
| RuleDescription.IntRoundTrip | wolfram_ca.php:19 | reading back the decimal rendering of the rule, with a minus sign for negative rules, gives the rule |
| RuleDescription.PadLeft | wolfram_ca.php:27 | `str_pad(…, STR_PAD_LEFT)` reaches the width or keeps a longer string; the padding comes first and the string last, unchanged |
| RuleDescription.SmallBinary | wolfram_ca.php:27 | `decbin` of 0..7 has one, two or three digits, the binary digits of the number |
| RuleDescription.PadToThree | wolfram_ca.php:27 | a one- to three-character string padded to width 3 with zeros has the zeros in front |
| RuleDescription.NeighbourhoodString | wolfram_ca.php:27 | `str_pad(decbin($neighborhood), 3, '0', STR_PAD_LEFT)`; NeighbourhoodDigits and NeighbourhoodRoundTrip state its three digits |
| RuleDescription.NeighbourhoodDigits | wolfram_ca.php:27 | neighbourhood n is written as the digits of its left, own and right cell, in that order |
| RuleDescription.NeighbourhoodRoundTrip | wolfram_ca.php:20-27 | each neighbourhood string has three binary digits that read back as n, so the eight are listed as 0 to 7 in ascending order |
| RuleDescription.Item | wolfram_ca.php:27-29 | the string `"$neighborhoodString&nbsp;to&nbsp;$value"`; ItemLayout states its 18 characters |
| RuleDescription.Separator | wolfram_ca.php:21-26 | what precedes item n: nothing for the first, ", " for the others, and ", and " for the last; DescriptionLayout states the result |
| RuleDescription.DescriptionPrefix | wolfram_ca.php:19-30 | the text echoed after the loop has run for neighbourhoods 0 to k - 1; PrefixKept states that it always starts with the rule's heading |
| RuleDescription.Description | wolfram_ca.php:18-32 | the whole sentence, the loop's text followed by "."; DescriptionLayout, ItemLayout and DescriptionReadsRule state its content |
| RuleDescription.DescribeRule | wolfram_ca.php:18-32 | the text echoed by the loop is exactly the rule's description sentence |
| RuleDescription.DescriptionLayout | wolfram_ca.php:19-31 | the sentence is "Rule ", the rule, " maps ", the eight items for 0..7 separated by ", " with "and " before the last, then "." |
| RuleDescription.ItemLayout | wolfram_ca.php:27-29 | each item is 18 characters: the three neighbourhood digits, "&nbsp;to&nbsp;", and the digit of `(rule >> n) & 1` |
| RuleDescription.PrefixKept | wolfram_ca.php:19-30 | the loop only appends: the text always starts with "Rule ", the rule and " maps " |
| RuleDescription.DescriptionReadsRule | wolfram_ca.php:19 | the rule number can be read back from the sentence, between "Rule " and " maps " |

## Left out

- get_param.php is not part of this model. It reads `$_GET` and clamps the
  cell and step counts to 1..1000 through floats. The model takes
  `numberOfCells >= 1` and `numberOfSteps >= 1` as preconditions and does not
  impose the upper bound of 1000, which the step logic does not depend on.
- The rule is an unbounded integer. A PHP integer is 64 bits wide, but only
  bits 0 to 7 are read, and `>>` by at most 7 on a 64-bit value reads the
  same bits as on the unbounded value. Producing the 64-bit value from the
  request is get_param.php's concern.
- `mt_srand` / `mt_rand` (wolfram_ca.php:95-100) are a foreign
  pseudo-random generator. The random branch takes a caller-supplied row of
  numberOfCells 0/1 cells, so the `seed` parameter is not modelled.
- The GD calls (`imageCreate`, `imageColorAllocate`, `imageSetPixel`,
  `imagePNG`, `imageDestroy`) become a `bool` grid that starts white (false)
  and has pixels set black (true). PNG encoding and the palette are not
  modelled.
- The HTTP headers (lines 60, 71, 104) and the HTML page and form
  (lines 105-145) are output only and are not modelled. The page's
  description sentence is modelled through `RuleDescription.DescribeRule`, as
  a returned string instead of `echo`.
- The `image` parameter test (line 87) is not modelled as a value. The
  `image=yes` branch is `ImageRequest.DrawImage` and the page branch is the
  description.
- The pattern check of line 82 is modelled for its one pattern
  (`InitialRow.MatchesPattern`). General regular-expression matching is not
  modelled.

## Findings

| source | as written | input that shows it | evidently intended | confidence | as-written member | corrected member |
|---|---|---|---|---|---|---|
| wolfram_ca.php:89 | `if ($initialString)` uses PHP string truthiness, and the string "0" is false, so a valid initial value of a single 0 falls through to the random branch | `initial=0&image=yes` with any random draw containing a 1 | a provided initial value, including "0", is repeated over the cells, giving an all-zero row, as the page's own help text says ("If no initial value is provided, the cells are set to random values") | high (PHP's documented string-to-boolean conversion); not executed | InitialRow.ZeroStringIgnored | InitialRow.InitialCells |

The program and `ImageRequest.DrawImage` keep the written behaviour.
`InitialRow.InitialCells` is the corrected choice, and
`InitialRow.InitialCellsCorrected` proves that it differs from the written
one only for "0".

Rule 110 turns 010 into 110. The last cell sees code 4 (left neighbour 1, own
value 0, right neighbour cell 0 = 0), and bit 4 of 110 is 0
(`Automaton.Rule110Example`).
