/** What the spreadsheet export writes for one indicator sheet: one row per
    industry of the indicator's dictionary, in dictionary order, holding the
    industry, its state label and its rank. */
module SheetExport {
  import opened Lists
  import opened PyStrings
  import opened OrderedDicts
  import opened RankBuilder
  import opened ParagraphProcessor

  /** The state label written next to a rank. */
  function StateLabel(rank: int): (state: string)
    ensures state == "Growth" <==> rank > 0
    ensures state == "Neutral" <==> rank == 0
    ensures state == "Contraction" <==> rank < 0
  {
    if rank > 0 then "Growth"
    else if rank == 0 then "Neutral"
    else "Contraction"
  }

  /** The rows of one sheet: (industry, state label, rank) per entry. Row k
      belongs to the k-th key of the dictionary and holds its rank, and its
      label gives the rank's sign. */
  function SheetRows(ranks: OrderedDict<int>): (rows: seq<(string, string, int)>)
    ensures |rows| == |ranks|
    ensures forall k :: 0 <= k < |rows| ==> rows[k].0 == Keys(ranks)[k] && rows[k].2 == ranks[k].1
    ensures forall k :: 0 <= k < |rows| ==>
      && (rows[k].1 == "Growth" <==> rows[k].2 > 0)
      && (rows[k].1 == "Neutral" <==> rows[k].2 == 0)
      && (rows[k].1 == "Contraction" <==> rows[k].2 < 0)
  {
    seq(|ranks|, k requires 0 <= k < |ranks| => (ranks[k].0, StateLabel(ranks[k].1), ranks[k].1))
  }

  /** For a paragraph whose reported lists are duplicate-free and share no
      name, each row's label tells the list its industry came from:
      "Growth" exactly for growing industries, "Contraction" exactly for
      decreasing ones, "Neutral" for the rest. */
  lemma SheetLabels(growth: seq<string>, decrease: seq<string>, k: nat)
    requires NoDup(growth + decrease)
    requires k < |Ranks(growth, NeutralIndustries(growth, decrease), decrease)|
    ensures var row := SheetRows(Ranks(growth, NeutralIndustries(growth, decrease), decrease))[k];
      && (row.1 == "Growth" <==> row.0 in growth)
      && (row.1 == "Contraction" <==> row.0 in decrease)
      && (row.1 == "Neutral" <==> row.0 !in growth && row.0 !in decrease)
  {
    var neutral := NeutralIndustries(growth, decrease);
    var ranks := Ranks(growth, neutral, decrease);
    NeutralDisjoint(growth, decrease);
    RanksKeys(growth, neutral, decrease);
    var x := ranks[k].0;
    assert x == Keys(ranks)[k];
    GetAt(ranks, k);
    RankSigns(growth, neutral, decrease, x);
  }
}
