/** The colour themes and their rotation (src/core/themes.ts): a list of
    two themes, the index of the current one, and the current theme itself,
    kept as module-level state that `rotateTheme` updates in place. */
module Themes {

  /** The colours of one theme. */
  datatype Theme = Theme(
    bg: string,
    line: string,
    titleFont: string,
    font: string,
    firstLevelFont: string,
    selected: string,
    gridPoint: string,
    filledCircle: string,
    centerColor: string)

  const Dark := Theme(
    bg := "#1E1E1E",
    line := "#373B42",
    titleFont := "#FFFFFF",
    font := "#CBCBCB",
    firstLevelFont := "#FFFFFF",
    selected := "#73C991",
    gridPoint := "#3C413D",
    filledCircle := "#D1D2D3",
    centerColor := "#2C392F")

  const Light := Theme(
    bg := "#FAF9F7",
    line := "#D3D3D3",
    titleFont := "#000000",
    font := "#3F4254",
    firstLevelFont := "#000000",
    selected := "#065fd4",
    gridPoint := "#D3D3D3",
    filledCircle := "#A39E93",
    centerColor := "#EAEAEA")

  /** `themesOrder`. */
  const ThemesOrder: seq<Theme> := [Dark, Light]

  /** The index after `i` among `n` themes: one on, and back to the first
      once it passes the last. */
  function Rotated(i: int, n: nat): (r: int)
    requires 0 <= i < n
    ensures 0 <= r < n
    ensures r == 0 <==> i == n - 1
    ensures r != 0 ==> r == i + 1
  {
    if i + 1 > n - 1 then 0 else i + 1
  }

  /** `k` rotations from index `i`. */
  function RotatedTimes(i: int, n: nat, k: nat): (r: int)
    requires 0 <= i < n
    ensures 0 <= r < n
    decreases k
  {
    if k == 0 then i else RotatedTimes(Rotated(i, n), n, k - 1)
  }

  /** `a` rotations and then `b` more are `a + b` rotations. */
  lemma {:induction false} RotatedTimesCompose(i: int, n: nat, a: nat, b: nat)
    requires 0 <= i < n
    ensures RotatedTimes(i, n, a + b) == RotatedTimes(RotatedTimes(i, n, a), n, b)
    decreases a
  {
    if a > 0 {
      RotatedTimesCompose(Rotated(i, n), n, a - 1, b);
    }
  }

  /** Short of the end of the list, `k` rotations move `k` places on. */
  lemma {:induction false} RotatedTimesAhead(i: int, n: nat, k: nat)
    requires 0 <= i && i + k < n
    ensures RotatedTimes(i, n, k) == i + k
    decreases k
  {
    if k > 0 {
      RotatedTimesAhead(i + 1, n, k - 1);
    }
  }

  /** From index `i`, `n - i` rotations reach the first theme again. */
  lemma RotatedTimesWrap(i: int, n: nat)
    requires 0 <= i < n
    ensures RotatedTimes(i, n, n - i) == 0
  {
    RotatedTimesCompose(i, n, n - 1 - i, 1);
    RotatedTimesAhead(i, n, n - 1 - i);
  }

  /** As many rotations as there are themes come back to the start. */
  lemma FullCycle(i: int, n: nat)
    requires 0 <= i < n
    ensures RotatedTimes(i, n, n) == i
  {
    RotatedTimesCompose(i, n, n - i, i);
    RotatedTimesWrap(i, n);
    RotatedTimesAhead(0, n, i);
  }

  /** The module's state: `currentTheme` and `theme`, over `themesOrder`. */
  class Themes {
    const themesOrder: seq<Theme>
    var currentTheme: int
    var theme: Theme

    /** The index is on the list and `theme` is the theme it names. */
    ghost predicate Valid()
      reads this
    {
      0 <= currentTheme < |themesOrder| && theme == themesOrder[currentTheme]
    }

    /** The module's initial state: the first theme, `dark`. */
    constructor ()
      ensures Valid()
      ensures themesOrder == ThemesOrder
      ensures currentTheme == 0 && theme == Dark
    {
      themesOrder := ThemesOrder;
      currentTheme := 0;
      theme := Dark;
    }

    /** `rotateTheme`: the next theme, back to the first after the last. */
    method RotateTheme()
      requires Valid()
      modifies this
      ensures Valid()
      ensures currentTheme == Rotated(old(currentTheme), |themesOrder|)
      ensures theme == themesOrder[currentTheme]
    {
      currentTheme := currentTheme + 1;
      if currentTheme > |themesOrder| - 1 {
        currentTheme := 0;
      }
      theme := themesOrder[currentTheme];
    }
  }

  /** With the two themes, rotating once gives the other one (`between`), and
      rotating twice gives back the theme one started from. */
  method RotateTwice(t: Themes) returns (between: Theme)
    requires t.Valid() && t.themesOrder == ThemesOrder
    modifies t
    ensures between != old(t.theme)
    ensures t.Valid() && t.theme == old(t.theme) && t.currentTheme == old(t.currentTheme)
  {
    var start := t.currentTheme;
    t.RotateTheme();
    between := t.theme;
    t.RotateTheme();
    FullCycle(start, 2);
  }
}
