/** The market-efficiency label: did the contest go to the betting favourite? */
module Market {
  import opened Options
  import opened Contest

  /** The four labels the classifier produces. */
  datatype Bet = Unknown | PickEm | Favorite | Underdog

  /** The corner with strictly lower odds, if the odds differ. */
  function Favored(redOdds: int, blueOdds: int): (c: Option<Corner>)
    ensures c.None? <==> redOdds == blueOdds
    ensures c.Some? ==>
      Pick(c.value, redOdds, blueOdds) < Pick(Other(c.value), redOdds, blueOdds)
  {
    if redOdds < blueOdds then Some(Red)
    else if blueOdds < redOdds then Some(Blue)
    else None
  }

  /** Classifies a contest from its outcome cell and the two odds cells. */
  function Classify(winner: Option<string>, redOdds: Option<int>, blueOdds: Option<int>): (b: Bet)
    ensures b == Unknown <==> redOdds.None? || blueOdds.None?
    ensures b == PickEm <==> redOdds.Some? && blueOdds.Some? && redOdds.value == blueOdds.value
    ensures b == Favorite <==>
      && redOdds.Some? && blueOdds.Some?
      && exists c: Corner :: winner == Some(Label(c)) &&
           Pick(c, redOdds.value, blueOdds.value) < Pick(Other(c), redOdds.value, blueOdds.value)
    ensures b == Underdog <==>
      && redOdds.Some? && blueOdds.Some? && redOdds.value != blueOdds.value
      && !exists c: Corner :: winner == Some(Label(c)) &&
           Pick(c, redOdds.value, blueOdds.value) < Pick(Other(c), redOdds.value, blueOdds.value)
  {
    if redOdds.None? || blueOdds.None? then Unknown
    else
      match Favored(redOdds.value, blueOdds.value)
      case None => PickEm
      case Some(fav) => if winner == Some(Label(fav)) then Favorite else Underdog
  }

  /** On a decisive row, the label does not depend on which corner the winner was
      recorded in. */
  lemma ClassifyCornerSymmetric(winner: Option<string>, redOdds: Option<int>, blueOdds: Option<int>)
    requires CornerOf(winner).Some?
    ensures Classify(SwapOutcome(winner), blueOdds, redOdds) == Classify(winner, redOdds, blueOdds)
  {
  }

  /** With both odds known and different, exactly one of the two possible winners is
      the favourite: one decisive outcome is labelled Favorite, the other Underdog. */
  lemma FavoriteExactlyOneCorner(c: Corner, redOdds: int, blueOdds: int)
    requires redOdds != blueOdds
    ensures Classify(Some(Label(c)), Some(redOdds), Some(blueOdds)) in {Favorite, Underdog}
    ensures Classify(Some(Label(c)), Some(redOdds), Some(blueOdds)) == Favorite <==>
            Classify(Some(Label(Other(c))), Some(redOdds), Some(blueOdds)) == Underdog
  {
  }
}
