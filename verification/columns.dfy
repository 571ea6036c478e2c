/** Column bookkeeping of the cleaning script: which input columns are kept, which of
    them the later steps read by name, and which columns the script adds. */
module Columns {
  import opened Seqs

  /** The attribute columns the script wants, in the order it lists them. */
  const Desired: seq<string> := [
    "Date", "Winner", "WeightClass", "Gender", "Finish", "RedFighter", "BlueFighter",
    "RedHeightCms", "BlueHeightCms", "RedReachCms", "BlueReachCms",
    "RedAge", "BlueAge", "FinishRound", "TotalFightTimeSecs",
    "RedAvgSigStrLanded", "BlueAvgSigStrLanded",
    "RedAvgTDLanded", "BlueAvgTDLanded",
    "RedOdds", "BlueOdds"
  ]

  /** The kept columns that later steps index by name; an absent one is a lookup error.
      The label columns (WeightClass, Gender, Finish, fighter names) are only carried. */
  const Referenced: seq<string> := [
    "Date", "Winner",
    "RedHeightCms", "BlueHeightCms", "RedReachCms", "BlueReachCms",
    "RedAvgSigStrLanded", "BlueAvgSigStrLanded", "RedAvgTDLanded", "BlueAvgTDLanded",
    "RedAge", "BlueAge", "RedOdds", "BlueOdds",
    "TotalFightTimeSecs", "FinishRound"
  ]

  /** The columns the script appends, in the order it creates them. */
  const Derived: seq<string> := [
    "Year", "WinnerHeight", "WinnerReach", "WinnerAvgStrikes", "WinnerAvgTD",
    "WinnerAge", "WinnerAgeDiff", "BettingResult"
  ]

  /** The desired list names no column twice. */
  lemma DesiredDistinct()
    ensures Distinct(Desired)
  {
  }

  /** The columns of `wanted` that occur in the header `present`, in the order of
      `wanted`. An absent column is skipped, never an error. */
  function KeepPresent(wanted: seq<string>, present: seq<string>): (r: seq<string>)
    ensures forall c :: c in r <==> c in wanted && c in present
    ensures IsSubseq(r, wanted)
  {
    var keep := (c: string) => c in present;
    FilterIsSubseq(keep, wanted);
    FilterMembers(keep, wanted);
    Filter(keep, wanted)
  }

  /** Over a duplicate-free wanted list, keeping the present columns is the only
      order-preserving choice of exactly those columns. */
  lemma KeepPresentIsUnique(wanted: seq<string>, present: seq<string>, r: seq<string>)
    requires Distinct(wanted) && IsSubseq(r, wanted)
    requires forall c :: c in r <==> c in wanted && c in present
    ensures r == KeepPresent(wanted, present)
  {
    SubseqDeterminedByMembers(r, KeepPresent(wanted, present), wanted);
  }

  /** Which columns are kept depends only on which columns are present, not on their
      order or repetition in the input header. */
  lemma KeepPresentIgnoresHeaderOrder(wanted: seq<string>, present1: seq<string>, present2: seq<string>)
    requires Distinct(wanted)
    requires forall c :: c in present1 <==> c in present2
    ensures KeepPresent(wanted, present1) == KeepPresent(wanted, present2)
  {
    KeepPresentIsUnique(wanted, present2, KeepPresent(wanted, present1));
  }

  /** Keeping again from an already kept header changes nothing. */
  lemma KeepPresentIdempotent(wanted: seq<string>, present: seq<string>)
    requires Distinct(wanted)
    ensures KeepPresent(wanted, KeepPresent(wanted, present)) == KeepPresent(wanted, present)
  {
    var once := KeepPresent(wanted, present);
    KeepPresentIsUnique(wanted, once, once);
  }

  /** An input carrying every wanted column keeps all of them, in the wanted order. */
  lemma KeepPresentAll(wanted: seq<string>, present: seq<string>)
    requires Distinct(wanted)
    requires forall c :: c in wanted ==> c in present
    ensures KeepPresent(wanted, present) == wanted
  {
    SubseqReflexive(wanted);
    KeepPresentIsUnique(wanted, present, wanted);
  }

  /** The columns the script keeps from an input whose header is `present`. */
  function Select(present: seq<string>): (r: seq<string>)
    ensures forall c :: c in r <==> c in Desired && c in present
    ensures IsSubseq(r, Desired)
    ensures Distinct(r)
  {
    DesiredDistinct();
    SubseqDistinct(KeepPresent(Desired, present), Desired);
    KeepPresent(Desired, present)
  }

  /** Every referenced column is one of the desired ones. */
  lemma ReferencedAreDesired()
    ensures forall c :: c in Referenced ==> c in Desired
  {
  }

  /** The referenced columns that the selection does not provide, in program order. */
  function MissingReferenced(present: seq<string>): (m: seq<string>)
    ensures forall c :: c in m <==> c in Referenced && c !in present
    ensures |m| == 0 <==> forall c :: c in Referenced ==> c in present
  {
    var kept := Select(present);
    var absent := (c: string) => c !in kept;
    ReferencedAreDesired();
    FilterMembers(absent, Referenced);
    var m := Filter(absent, Referenced);
    assert |m| > 0 ==> m[0] in m;
    m
  }

  /** The header of the cleaned table: the kept columns followed by the derived ones. */
  function OutputColumns(present: seq<string>): (r: seq<string>)
    ensures |r| == |Select(present)| + |Derived|
    ensures forall i :: 0 <= i < |Select(present)| ==> r[i] == Select(present)[i]
    ensures forall j :: 0 <= j < |Derived| ==> r[|Select(present)| + j] == Derived[j]
    ensures forall c :: c in r <==> (c in Desired && c in present) || c in Derived
  {
    Select(present) + Derived
  }
}
