/** The colour themes and the arrow-key cycling through them. */
module Themes {

  /** The CSS class of each theme, in the order the arrow keys walk them. */
  const Themes: seq<string> := ["biscay", "sky-blue", "tangerine", "gin", "slate", "charcoal", "frost"]

  /** The name shown in the theme pill, index for index. */
  const ThemeNames: seq<string> := ["Biscay", "Sky Blue", "Tangerine", "Gin", "Slate", "Charcoal", "Frost"]

  /** Sky blue is selected until a stored choice is loaded. */
  const DefaultThemeIndex: int := 1

  /** Before a stored choice is loaded the page shows a real theme, sky
      blue, and every theme has a name for the pill. */
  lemma DefaultTheme()
    ensures InRange(DefaultThemeIndex)
    ensures Themes[DefaultThemeIndex] == "sky-blue" && ThemeNames[DefaultThemeIndex] == "Sky Blue"
    ensures |ThemeNames| == |Themes|
  {
  }

  predicate InRange(i: int) {
    0 <= i < |Themes|
  }

  /** The right arrow: one theme forward, from the last back to the first.
      An index that is already outside the table (a corrupt stored value) is
      not brought back into it. */
  function NextTheme(i: int): (r: int)
    ensures InRange(i) ==> InRange(r) && r == (i + 1) % |Themes|
    ensures i == |Themes| - 1 ==> r == 0
    ensures i >= |Themes| ==> r == i + 1
  {
    if i == |Themes| - 1 then 0 else i + 1
  }

  /** The left arrow: one theme back, from the first round to the last. */
  function PrevTheme(i: int): (r: int)
    ensures InRange(i) ==> InRange(r) && r == (i - 1) % |Themes|
    ensures i == 0 ==> r == |Themes| - 1
    ensures i < 0 ==> r == i - 1
  {
    if i == 0 then |Themes| - 1 else i - 1
  }

  /** Left undoes right and right undoes left. */
  lemma PrevUndoesNext(i: int)
    requires InRange(i)
    ensures PrevTheme(NextTheme(i)) == i
    ensures NextTheme(PrevTheme(i)) == i
  {
  }

  /** The index after `k` presses of the right arrow. */
  function PressRight(i: int, k: nat): int
  {
    if k == 0 then i else NextTheme(PressRight(i, k - 1))
  }

  /** The index after `k` presses of the left arrow. */
  function PressLeft(i: int, k: nat): int
  {
    if k == 0 then i else PrevTheme(PressLeft(i, k - 1))
  }

  /** One step round the table from a reduced index is one step from the
      unreduced one. */
  lemma StepRound(x: int, d: int)
    ensures (x % |Themes| + d) % |Themes| == (x + d) % |Themes|
  {
    var q := x / |Themes|;
    assert x == |Themes| * q + x % |Themes|;
    assert x + d == (x % |Themes| + d) + |Themes| * q;
  }

  /** Pressing the right arrow `k` times moves `k` places round the table. */
  lemma {:induction false} PressRightMoves(i: int, k: nat)
    requires InRange(i)
    ensures InRange(PressRight(i, k)) && PressRight(i, k) == (i + k) % |Themes|
  {
    if k > 0 {
      PressRightMoves(i, k - 1);
      StepRound(i + k - 1, 1);
    }
  }

  /** Pressing the left arrow `k` times moves `k` places back round the table. */
  lemma {:induction false} PressLeftMoves(i: int, k: nat)
    requires InRange(i)
    ensures InRange(PressLeft(i, k)) && PressLeft(i, k) == (i - k) % |Themes|
  {
    if k > 0 {
      PressLeftMoves(i, k - 1);
      StepRound(i - k + 1, -1);
    }
  }

  /** Seven presses in either direction come back to the starting theme.
      The count is a parameter so that the verifier reasons through the two
      lemmas above rather than unfolding seven presses. */
  lemma FullCycle(i: int, k: nat)
    requires InRange(i) && k == |Themes|
    ensures PressRight(i, k) == i && PressLeft(i, k) == i
  {
    PressRightMoves(i, k);
    PressLeftMoves(i, k);
  }
}
