/** One raw contest record and the per-row derivations that read its two corners:
    admission by outcome, winner-side selection and the winner-minus-loser age gap. */
module Contest {
  import opened Options

  /** The two corners of a contest. */
  datatype Corner = Red | Blue

  /** The opposite corner. */
  function Other(c: Corner): Corner {
    match c
    case Red => Blue
    case Blue => Red
  }

  /** The text the outcome column uses for a win by corner `c`. */
  function Label(c: Corner): string {
    match c
    case Red => "Red"
    case Blue => "Blue"
  }

  /** The corner an outcome cell names, if it names one. */
  function CornerOf(winner: Option<string>): (c: Option<Corner>)
    ensures c.Some? <==> winner == Some("Red") || winner == Some("Blue")
    ensures c.Some? ==> winner == Some(Label(c.value))
  {
    if winner == Some("Red") then Some(Red)
    else if winner == Some("Blue") then Some(Blue)
    else None
  }

  /** The value of a two-sided attribute for corner `c`: the reference meaning of
      "the winner's value" once the winner is known. */
  function Pick<T>(c: Corner, red: T, blue: T): T {
    match c
    case Red => red
    case Blue => blue
  }

  /** A parsed calendar date; the text parsing itself is not modelled. */
  datatype Date = Date(year: int, month: int, day: int)

  /** One input row restricted to the desired columns. A missing cell is None. */
  datatype RawRow = RawRow(
    date: Option<Date>,
    winner: Option<string>,
    weightClass: Option<string>,
    gender: Option<string>,
    finish: Option<string>,
    redFighter: Option<string>,
    blueFighter: Option<string>,
    redHeight: Option<int>,
    blueHeight: Option<int>,
    redReach: Option<int>,
    blueReach: Option<int>,
    redAge: Option<int>,
    blueAge: Option<int>,
    finishRound: Option<int>,
    totalFightTime: Option<int>,
    redStrikes: Option<real>,
    blueStrikes: Option<real>,
    redTakedowns: Option<real>,
    blueTakedowns: Option<real>,
    redOdds: Option<int>,
    blueOdds: Option<int>)

  /** A row is kept only when its outcome is a win by one of the two corners. */
  predicate Admitted(r: RawRow)
    ensures Admitted(r) <==> CornerOf(r.winner).Some?
  {
    r.winner == Some("Red") || r.winner == Some("Blue")
  }

  /** The year of the contest date; missing when the date is. */
  function Year(d: Option<Date>): (y: Option<int>)
    ensures y.Some? <==> d.Some?
    ensures d.Some? ==> y.value == d.value.year
  {
    match d
    case Some(dt) => Some(dt.year)
    case None => None
  }

  /** The winner's value of a two-sided attribute: the red value when the outcome reads
      "Red", the blue value otherwise (including, as written, for a non-decisive outcome). */
  function WinnerStat<T>(winner: Option<string>, red: T, blue: T): (v: T)
    ensures CornerOf(winner).Some? ==> v == Pick(CornerOf(winner).value, red, blue)
    ensures CornerOf(winner).None? ==> v == blue
  {
    if winner == Some("Red") then red else blue
  }

  /** Subtraction of two cells; a missing operand makes the difference missing. */
  function Minus(a: Option<int>, b: Option<int>): (d: Option<int>)
    ensures d.Some? <==> a.Some? && b.Some?
    ensures d.Some? ==> d.value + b.value == a.value
  {
    if a.Some? && b.Some? then Some(a.value - b.value) else None
  }

  /** Winner's age minus loser's age, with the same side resolution as WinnerStat. */
  function AgeDiff(winner: Option<string>, redAge: Option<int>, blueAge: Option<int>): (d: Option<int>)
    ensures d.None? <==> redAge.None? || blueAge.None?
    ensures d.Some? && CornerOf(winner).Some? ==>
      var c := CornerOf(winner).value;
      d.value == Pick(c, redAge, blueAge).value - Pick(Other(c), redAge, blueAge).value
  {
    if winner == Some("Red") then Minus(redAge, blueAge) else Minus(blueAge, redAge)
  }

  /** The age gap is the winner's age minus the age WinnerStat would report for the
      loser, for every outcome value, decisive or not. */
  lemma AgeDiffIsWinnerMinusLoser(winner: Option<string>, redAge: Option<int>, blueAge: Option<int>)
    ensures AgeDiff(winner, redAge, blueAge) ==
            Minus(WinnerStat(winner, redAge, blueAge), WinnerStat(winner, blueAge, redAge))
  {
  }

  /** Exchanging the ages of the two corners, same winner, negates the gap. */
  lemma AgeDiffAntisymmetric(winner: Option<string>, redAge: Option<int>, blueAge: Option<int>)
    ensures AgeDiff(winner, blueAge, redAge).Some? <==> AgeDiff(winner, redAge, blueAge).Some?
    ensures AgeDiff(winner, redAge, blueAge).Some? ==>
            AgeDiff(winner, blueAge, redAge).value == -AgeDiff(winner, redAge, blueAge).value
  {
  }

  /** Names the opposite corner in a decisive outcome; other outcomes are unchanged. */
  function SwapOutcome(winner: Option<string>): (w: Option<string>)
    ensures CornerOf(w).Some? <==> CornerOf(winner).Some?
    ensures CornerOf(winner).Some? ==> CornerOf(w) == Some(Other(CornerOf(winner).value))
  {
    if winner == Some("Red") then Some("Blue")
    else if winner == Some("Blue") then Some("Red")
    else winner
  }

  /** The same contest recorded with the fighters in the opposite corners. */
  function SwapCorners(r: RawRow): (s: RawRow)
    ensures Admitted(s) <==> Admitted(r)
  {
    r.(winner := SwapOutcome(r.winner),
       redFighter := r.blueFighter, blueFighter := r.redFighter,
       redHeight := r.blueHeight, blueHeight := r.redHeight,
       redReach := r.blueReach, blueReach := r.redReach,
       redAge := r.blueAge, blueAge := r.redAge,
       redStrikes := r.blueStrikes, blueStrikes := r.redStrikes,
       redTakedowns := r.blueTakedowns, blueTakedowns := r.redTakedowns,
       redOdds := r.blueOdds, blueOdds := r.redOdds)
  }

  /** On a decisive row, the winner's value does not depend on which corner the winner
      was recorded in. */
  lemma WinnerStatCornerSymmetric<T>(winner: Option<string>, red: T, blue: T)
    requires CornerOf(winner).Some?
    ensures WinnerStat(SwapOutcome(winner), blue, red) == WinnerStat(winner, red, blue)
  {
  }

  /** On a decisive row, the age gap does not depend on which corner the winner was
      recorded in. */
  lemma AgeDiffCornerSymmetric(winner: Option<string>, redAge: Option<int>, blueAge: Option<int>)
    requires CornerOf(winner).Some?
    ensures AgeDiff(SwapOutcome(winner), blueAge, redAge) == AgeDiff(winner, redAge, blueAge)
  {
  }
}
