/** The whole cleaning pass: keep the needed columns, admit decisive contests, derive the
    winner-perspective and market columns, and drop rows missing a critical value. */
module Pipeline {
  import opened Options
  import opened Seqs
  import opened Columns
  import opened Contest
  import opened Market

  /** An admitted row together with the columns the script adds to it. */
  datatype CleanRow = CleanRow(
    raw: RawRow,
    year: Option<int>,
    winnerHeight: Option<int>,
    winnerReach: Option<int>,
    winnerAvgStrikes: Option<real>,
    winnerAvgTD: Option<real>,
    winnerAge: Option<int>,
    winnerAgeDiff: Option<int>,
    bettingResult: Bet)

  /** The input as loaded: its header and its rows. */
  datatype Table = Table(columns: seq<string>, rows: seq<RawRow>)

  /** The cleaned output: its header and its rows. */
  datatype CleanTable = CleanTable(columns: seq<string>, rows: seq<CleanRow>)

  /** Why no output is written. */
  datatype PipelineError =
    | LoadFailed
    | MissingColumns(names: seq<string>)

  /** Every derived column of one row, each computed from that row alone. On a decisive
      row the winner columns are the winning corner's values. */
  function Derive(r: RawRow): (c: CleanRow)
    ensures c.raw == r
    ensures c.year == Year(r.date)
    ensures c.bettingResult == Classify(r.winner, r.redOdds, r.blueOdds)
    ensures Admitted(r) ==>
      var w := CornerOf(r.winner).value;
      && c.winnerHeight == Pick(w, r.redHeight, r.blueHeight)
      && c.winnerReach == Pick(w, r.redReach, r.blueReach)
      && c.winnerAvgStrikes == Pick(w, r.redStrikes, r.blueStrikes)
      && c.winnerAvgTD == Pick(w, r.redTakedowns, r.blueTakedowns)
      && c.winnerAge == Pick(w, r.redAge, r.blueAge)
      && (c.winnerAgeDiff.Some? <==> r.redAge.Some? && r.blueAge.Some?)
      && (c.winnerAgeDiff.Some? ==>
            c.winnerAgeDiff.value == c.winnerAge.value - Pick(Other(w), r.redAge, r.blueAge).value)
  {
    var w := r.winner;
    CleanRow(
      r,
      Year(r.date),
      WinnerStat(w, r.redHeight, r.blueHeight),
      WinnerStat(w, r.redReach, r.blueReach),
      WinnerStat(w, r.redStrikes, r.blueStrikes),
      WinnerStat(w, r.redTakedowns, r.blueTakedowns),
      WinnerStat(w, r.redAge, r.blueAge),
      AgeDiff(w, r.redAge, r.blueAge),
      Classify(w, r.redOdds, r.blueOdds))
  }

  /** A derived row is complete when winner height, reach and age are known. The betting
      label is also a critical column, but the classifier always yields one of its four
      labels, so it is never missing. For a derived decisive row this asks that the
      winning corner's height, reach and age cells be present. */
  predicate Critical(c: CleanRow)
    ensures Admitted(c.raw) && c == Derive(c.raw) ==>
      var r, w := c.raw, CornerOf(c.raw.winner).value;
      (Critical(c) <==>
         && Pick(w, r.redHeight, r.blueHeight).Some?
         && Pick(w, r.redReach, r.blueReach).Some?
         && Pick(w, r.redAge, r.blueAge).Some?)
  {
    c.winnerHeight.Some? && c.winnerReach.Some? && c.winnerAge.Some?
  }

  /** The rows with a decisive outcome, in input order. */
  function Admit(rows: seq<RawRow>): (r: seq<RawRow>)
    ensures forall i :: 0 <= i < |r| ==> Admitted(r[i])
    ensures forall x :: x in r <==> x in rows && Admitted(x)
    ensures IsSubseq(r, rows)
    ensures forall x :: multiset(r)[x] == if Admitted(x) then multiset(rows)[x] else 0
  {
    FilterIsSubseq(Admitted, rows);
    FilterMembers(Admitted, rows);
    FilterMultiplicity(Admitted, rows);
    Filter(Admitted, rows)
  }

  /** The input row behind a cleaned row. */
  function RawOf(c: CleanRow): RawRow {
    c.raw
  }

  /** Derivation, then the critical-value filter, over the admitted rows. */
  function CleanRows(rows: seq<RawRow>): (out: seq<CleanRow>)
    ensures |out| <= |Admit(rows)| <= |rows|
    ensures forall i :: 0 <= i < |out| ==>
      && Critical(out[i]) && Admitted(out[i].raw) && out[i] == Derive(out[i].raw)
      && out[i].raw in rows
    ensures forall x :: x in rows && Admitted(x) && Critical(Derive(x)) ==> Derive(x) in out
  {
    SubseqLength(Admit(rows), rows);
    Filter(Critical, Map(Derive, Admit(rows)))
  }

  /** The cleaned rows are the admitted, complete input rows in their input order: no
      row is reordered or duplicated. */
  lemma CleanRowsKeepInputOrder(rows: seq<RawRow>)
    ensures IsSubseq(Map(RawOf, CleanRows(rows)), rows)
  {
    var admitted := Admit(rows);
    var derived := Map(Derive, admitted);
    var out := Filter(Critical, derived);
    FilterIsSubseq(Critical, derived);
    MapSubseq(RawOf, out, derived);
    assert Map(RawOf, derived) == admitted;
    SubseqTransitive(Map(RawOf, out), admitted, rows);
  }

  /** Each row is cleaned independently: cleaning a concatenation cleans each part. */
  lemma CleanRowsRowIndependent(a: seq<RawRow>, b: seq<RawRow>)
    ensures CleanRows(a + b) == CleanRows(a) + CleanRows(b)
  {
    FilterAppend(Admitted, a, b);
    MapAppend(Derive, Admit(a), Admit(b));
    FilterAppend(Critical, Map(Derive, Admit(a)), Map(Derive, Admit(b)));
  }

  /** A decisive row's derived values are the same whichever corner the winner was
      recorded in, and so is its fate under the critical-value filter. */
  lemma DeriveCornerSymmetric(r: RawRow)
    requires Admitted(r)
    ensures var c, s := Derive(r), Derive(SwapCorners(r));
      && s.winnerHeight == c.winnerHeight && s.winnerReach == c.winnerReach
      && s.winnerAvgStrikes == c.winnerAvgStrikes && s.winnerAvgTD == c.winnerAvgTD
      && s.winnerAge == c.winnerAge && s.winnerAgeDiff == c.winnerAgeDiff
      && s.bettingResult == c.bettingResult && s.year == c.year
      && (Critical(s) <==> Critical(c))
  {
    AgeDiffCornerSymmetric(r.winner, r.redAge, r.blueAge);
    ClassifyCornerSymmetric(r.winner, r.redOdds, r.blueOdds);
  }

  /** The whole script: a failed load or a column the later steps need but the input
      lacks stops it with no output; otherwise it yields the cleaned table. */
  function CleanData(loaded: Option<Table>): (res: Result<CleanTable, PipelineError>)
    ensures res == Failure(LoadFailed) <==> loaded.None?
    ensures res.Failure? && res.error.MissingColumns? <==>
      loaded.Some? && exists c :: c in Referenced && c !in loaded.value.columns
    ensures res.Failure? && res.error.MissingColumns? ==>
      forall c :: c in res.error.names <==> c in Referenced && c !in loaded.value.columns
    ensures res.Success? ==>
      && res.value.columns == OutputColumns(loaded.value.columns)
      && res.value.rows == CleanRows(loaded.value.rows)
  {
    match loaded
    case None => Failure(LoadFailed)
    case Some(t) =>
      var missing := MissingReferenced(t.columns);
      if |missing| > 0 then Failure(MissingColumns(missing))
      else Success(CleanTable(OutputColumns(t.columns), CleanRows(t.rows)))
  }
}
