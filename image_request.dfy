/**
 * The `image=yes` branch of the page (wolfram_ca.php:81-102): the `initial`
 * parameter is checked, the initial row is chosen, then the automaton is run
 * and drawn. The cell and step counts arrive already clamped (at least one
 * of each), and the pseudo-random row is supplied by the caller.
 */
module ImageRequest {
  import opened RuleCode
  import opened Automaton
  import opened InitialRow

  /**
   * Pixel [step, c] is black exactly when cell c of the initial row chosen
   * as wolfram_ca.php:81-101 chooses it is 1 after step + 1 updates.
   */
  method DrawImage(initial: Parameter, numberOfCells: nat, numberOfSteps: nat, rule: int, randomCells: seq<Cell>)
    returns (image: array2<bool>)
    requires numberOfCells >= 1 && numberOfSteps >= 1
    requires |randomCells| == numberOfCells
    ensures fresh(image)
    ensures image.Length0 == numberOfSteps && image.Length1 == numberOfCells
    ensures forall step, c | 0 <= step < numberOfSteps && 0 <= c < numberOfCells ::
              image[step, c]
              <==> Generation(rule, InitialCellsAsWritten(AcceptedInitial(initial), numberOfCells, randomCells), step + 1)[c] == 1
  {
    var initialString := AcceptedInitial(initial);
    var cells := ChooseInitialCells(initialString, numberOfCells, randomCells);
    image := CellularAutomataStepsImage(cells, rule, numberOfSteps);
  }
}
