/** The rank builder: one indicator's ordered industry -> rank dictionary
    from its growth, neutral and decrease lists. */
module RankBuilder {
  import opened Lists
  import opened OrderedDicts

  /** The growth assignments: the k-th growth industry gets `|growth| - k`. */
  function GrowthEntries(growth: seq<string>): seq<(string, int)> {
    seq(|growth|, k requires 0 <= k < |growth| => (growth[k], |growth| - k))
  }

  /** The neutral assignments: every neutral industry gets 0. */
  function NeutralEntries(neutral: seq<string>): seq<(string, int)> {
    seq(|neutral|, k requires 0 <= k < |neutral| => (neutral[k], 0))
  }

  /** The decrease assignments: the k-th decrease industry gets `-(k + 1)`. */
  function DecreaseEntries(decrease: seq<string>): seq<(string, int)> {
    seq(|decrease|, k requires 0 <= k < |decrease| => (decrease[k], -(k + 1)))
  }

  /** All assignments, in the order the three loops perform them. */
  function RankWrites(growth: seq<string>, neutral: seq<string>, decrease: seq<string>): seq<(string, int)> {
    GrowthEntries(growth) + NeutralEntries(neutral) + DecreaseEntries(decrease)
  }

  /** The dictionary the rank builder produces: the assignments performed in
      order on an empty ordered dictionary. */
  function Ranks(growth: seq<string>, neutral: seq<string>, decrease: seq<string>): OrderedDict<int> {
    AssignAll([], RankWrites(growth, neutral, decrease))
  }

  /** Whatever the lists hold, the keys are duplicate-free and are exactly
      the names of the three lists. */
  lemma RanksKeys(growth: seq<string>, neutral: seq<string>, decrease: seq<string>)
    ensures NoDup(Keys(Ranks(growth, neutral, decrease)))
    ensures forall x :: x in Keys(Ranks(growth, neutral, decrease)) <==> x in growth || x in neutral || x in decrease
  {
    var ws := RankWrites(growth, neutral, decrease);
    AssignAllNoDup([], ws);
    assert Keys(ws) == growth + neutral + decrease;
    forall x ensures x in Keys(AssignAll([], ws)) <==> x in Keys(ws) {
      AssignAllKeys([], ws, x);
    }
  }

  /** The dictionary is built in three stages: the growth assignments on the
      empty dictionary, then the neutral ones, then the decrease ones. */
  lemma RanksInStages(growth: seq<string>, neutral: seq<string>, decrease: seq<string>)
    ensures Ranks(growth, neutral, decrease) ==
      AssignAll(AssignAll(AssignAll([], GrowthEntries(growth)), NeutralEntries(neutral)), DecreaseEntries(decrease))
  {
    var g := GrowthEntries(growth);
    var gn := g + NeutralEntries(neutral);
    var ws := gn + DecreaseEntries(decrease);
    AssignAllSplit([], ws, |gn|);
    assert ws[..|gn|] == gn && ws[|gn|..] == DecreaseEntries(decrease);
    AssignAllSplit([], gn, |g|);
    assert gn[..|g|] == g && gn[|g|..] == NeutralEntries(neutral);
  }

  /** `create_dict_of_industries`: three loops assign into an ordered
      dictionary, the growth counter running down from the list's length and
      the decrease counter from -1. */
  method CreateDictOfIndustries(listGrowth: seq<string>, listNeutral: seq<string>, listDecrease: seq<string>)
    returns (industriesDict: OrderedDict<int>)
    ensures industriesDict == Ranks(listGrowth, listNeutral, listDecrease)
  {
    industriesDict := [];
    var growthIndex := |listGrowth|;
    for i := 0 to |listGrowth|
      invariant growthIndex == |listGrowth| - i
      invariant industriesDict == AssignAll([], GrowthEntries(listGrowth)[..i])
    {
      GrowthStep(industriesDict, listGrowth, i);
      industriesDict := Assign(industriesDict, listGrowth[i], growthIndex);
      growthIndex := growthIndex - 1;
    }
    ghost var afterGrowth := industriesDict;
    assert afterGrowth == AssignAll([], GrowthEntries(listGrowth)) by {
      assert GrowthEntries(listGrowth)[..|listGrowth|] == GrowthEntries(listGrowth);
    }

    for i := 0 to |listNeutral|
      invariant industriesDict == AssignAll(afterGrowth, NeutralEntries(listNeutral)[..i])
    {
      NeutralStep(afterGrowth, industriesDict, listNeutral, i);
      industriesDict := Assign(industriesDict, listNeutral[i], 0);
    }
    ghost var afterNeutral := industriesDict;
    assert afterNeutral == AssignAll(afterGrowth, NeutralEntries(listNeutral)) by {
      assert NeutralEntries(listNeutral)[..|listNeutral|] == NeutralEntries(listNeutral);
    }

    var decreaseIndex := -1;
    for i := 0 to |listDecrease|
      invariant decreaseIndex == -(i + 1)
      invariant industriesDict == AssignAll(afterNeutral, DecreaseEntries(listDecrease)[..i])
    {
      DecreaseStep(afterNeutral, industriesDict, listDecrease, i);
      industriesDict := Assign(industriesDict, listDecrease[i], decreaseIndex);
      decreaseIndex := decreaseIndex - 1;
    }
    assert DecreaseEntries(listDecrease)[..|listDecrease|] == DecreaseEntries(listDecrease);
    RanksInStages(listGrowth, listNeutral, listDecrease);
  }

  /** Helper: one pass of the growth loop performs the next growth assignment. */
  lemma GrowthStep(d: OrderedDict<int>, growth: seq<string>, i: nat)
    requires i < |growth| && d == AssignAll([], GrowthEntries(growth)[..i])
    ensures Assign(d, growth[i], |growth| - i) == AssignAll([], GrowthEntries(growth)[..i + 1])
  {
    AssignAllStep([], GrowthEntries(growth), i);
  }

  /** Helper: one pass of the neutral loop performs the next neutral assignment. */
  lemma NeutralStep(start: OrderedDict<int>, d: OrderedDict<int>, neutral: seq<string>, i: nat)
    requires i < |neutral| && d == AssignAll(start, NeutralEntries(neutral)[..i])
    ensures Assign(d, neutral[i], 0) == AssignAll(start, NeutralEntries(neutral)[..i + 1])
  {
    AssignAllStep(start, NeutralEntries(neutral), i);
  }

  /** Helper: one pass of the decrease loop performs the next decrease
      assignment. */
  lemma DecreaseStep(start: OrderedDict<int>, d: OrderedDict<int>, decrease: seq<string>, i: nat)
    requires i < |decrease| && d == AssignAll(start, DecreaseEntries(decrease)[..i])
    ensures Assign(d, decrease[i], -(i + 1)) == AssignAll(start, DecreaseEntries(decrease)[..i + 1])
  {
    AssignAllStep(start, DecreaseEntries(decrease), i);
  }

  /** The names written, in order, are the three lists one after another. */
  lemma RankWritesKeys(growth: seq<string>, neutral: seq<string>, decrease: seq<string>)
    ensures Keys(RankWrites(growth, neutral, decrease)) == growth + neutral + decrease
  {
    var ws := RankWrites(growth, neutral, decrease);
    var all := growth + neutral + decrease;
    forall i | 0 <= i < |ws| ensures Keys(ws)[i] == all[i] {
      if i < |growth| {
      } else if i < |growth| + |neutral| {
      } else {
      }
    }
  }

  /** The k-th assignment writes the k-th growth name with `|growth| - k`. */
  lemma WriteAtGrowth(growth: seq<string>, neutral: seq<string>, decrease: seq<string>, k: nat)
    requires k < |growth|
    ensures k < |RankWrites(growth, neutral, decrease)|
    ensures RankWrites(growth, neutral, decrease)[k] == (growth[k], |growth| - k)
  {
    var front := GrowthEntries(growth) + NeutralEntries(neutral);
    assert RankWrites(growth, neutral, decrease)[k] == front[k];
  }

  /** Assignment `|growth| + k` writes the k-th neutral name with 0. */
  lemma WriteAtNeutral(growth: seq<string>, neutral: seq<string>, decrease: seq<string>, k: nat)
    requires k < |neutral|
    ensures |growth| + k < |RankWrites(growth, neutral, decrease)|
    ensures RankWrites(growth, neutral, decrease)[|growth| + k] == (neutral[k], 0)
  {
    var front := GrowthEntries(growth) + NeutralEntries(neutral);
    assert RankWrites(growth, neutral, decrease)[|growth| + k] == front[|growth| + k];
  }

  /** Assignment `|growth| + |neutral| + k` writes the k-th decrease name
      with `-(k + 1)`. */
  lemma WriteAtDecrease(growth: seq<string>, neutral: seq<string>, decrease: seq<string>, k: nat)
    requires k < |decrease|
    ensures |growth| + |neutral| + k < |RankWrites(growth, neutral, decrease)|
    ensures RankWrites(growth, neutral, decrease)[|growth| + |neutral| + k] == (decrease[k], -(k + 1))
  {
    var front := GrowthEntries(growth) + NeutralEntries(neutral);
    assert RankWrites(growth, neutral, decrease) == front + DecreaseEntries(decrease);
    assert RankWrites(growth, neutral, decrease)[|front| + k] == DecreaseEntries(decrease)[k];
  }

  /** The assignment at each position of the write sequence. */
  lemma RankWritesAt(growth: seq<string>, neutral: seq<string>, decrease: seq<string>)
    ensures var ws := RankWrites(growth, neutral, decrease);
      && |ws| == |growth| + |neutral| + |decrease|
      && (forall k :: 0 <= k < |growth| ==> ws[k] == (growth[k], |growth| - k))
      && (forall k :: 0 <= k < |neutral| ==> ws[|growth| + k] == (neutral[k], 0))
      && (forall k :: 0 <= k < |decrease| ==> ws[|growth| + |neutral| + k] == (decrease[k], -(k + 1)))
  {
    forall k | 0 <= k < |growth| ensures RankWrites(growth, neutral, decrease)[k] == (growth[k], |growth| - k) {
      WriteAtGrowth(growth, neutral, decrease, k);
    }
    forall k | 0 <= k < |neutral| ensures RankWrites(growth, neutral, decrease)[|growth| + k] == (neutral[k], 0) {
      WriteAtNeutral(growth, neutral, decrease, k);
    }
    forall k | 0 <= k < |decrease|
      ensures RankWrites(growth, neutral, decrease)[|growth| + |neutral| + k] == (decrease[k], -(k + 1))
    {
      WriteAtDecrease(growth, neutral, decrease, k);
    }
  }

  /** With three duplicate-free, pairwise disjoint lists nothing is
      overwritten: the dictionary holds growth, then neutral, then decrease
      entries, one per name, the k-th growth name at `|growth| - k`, every
      neutral name at 0 and the k-th decrease name at `-(k + 1)`. */
  lemma {:induction false} RanksOfDisjoint(growth: seq<string>, neutral: seq<string>, decrease: seq<string>)
    requires NoDup(growth + neutral + decrease)
    ensures Ranks(growth, neutral, decrease) == RankWrites(growth, neutral, decrease)
    ensures |Ranks(growth, neutral, decrease)| == |growth| + |neutral| + |decrease|
    ensures forall k :: 0 <= k < |growth| ==> Ranks(growth, neutral, decrease)[k] == (growth[k], |growth| - k)
    ensures forall k :: 0 <= k < |neutral| ==> Ranks(growth, neutral, decrease)[|growth| + k] == (neutral[k], 0)
    ensures forall k :: 0 <= k < |decrease| ==>
      Ranks(growth, neutral, decrease)[|growth| + |neutral| + k] == (decrease[k], -(k + 1))
  {
    var ws := RankWrites(growth, neutral, decrease);
    RankWritesKeys(growth, neutral, decrease);
    assert Keys<int>([]) + Keys(ws) == Keys(ws);
    AssignAllFresh([], ws);
    assert [] + ws == ws;
    RankWritesAt(growth, neutral, decrease);
  }

  /** Under the same conditions the sign of a rank tells the list a name came
      from, and the magnitudes stay within the list lengths: growth ranks lie
      in 1..|growth|, neutral ones are 0, decrease ranks lie in -|decrease|..-1. */
  lemma RankSigns(growth: seq<string>, neutral: seq<string>, decrease: seq<string>, x: string)
    requires NoDup(growth + neutral + decrease)
    requires x in growth || x in neutral || x in decrease
    ensures Get(Ranks(growth, neutral, decrease), x).Some?
    ensures var rank := Get(Ranks(growth, neutral, decrease), x).value;
      (rank > 0 <==> x in growth) && (rank == 0 <==> x in neutral) && (rank < 0 <==> x in decrease)
      && (x in growth ==> rank <= |growth|) && (x in decrease ==> -|decrease| <= rank)
  {
    NoDupSplit(growth + neutral, decrease);
    NoDupSplit(growth, neutral);
    if x in growth {
      assert x in growth + neutral;
      var k := IndexOf(growth, x);
      RanksGetGrowth(growth, neutral, decrease);
    } else if x in neutral {
      assert x in growth + neutral;
      RanksGetNeutral(growth, neutral, decrease);
    } else {
      var k := IndexOf(decrease, x);
      RanksGetDecrease(growth, neutral, decrease);
    }
  }

  /** Under the same conditions, a growth name is ranked `|growth| - k`,
      where k is its position in the growth list. */
  lemma RanksGetGrowth(growth: seq<string>, neutral: seq<string>, decrease: seq<string>)
    requires NoDup(growth + neutral + decrease)
    ensures forall x {:trigger IndexOf(growth, x)} :: x in growth ==>
      Get(Ranks(growth, neutral, decrease), x) == Some(|growth| - IndexOf(growth, x))
  {
    forall x {:trigger IndexOf(growth, x)} | x in growth
      ensures Get(Ranks(growth, neutral, decrease), x) == Some(|growth| - IndexOf(growth, x))
    {
      RankOfGrowthName(growth, neutral, decrease, x);
    }
  }

  /** Helper: the rank of one growth name. */
  lemma RankOfGrowthName(growth: seq<string>, neutral: seq<string>, decrease: seq<string>, x: string)
    requires NoDup(growth + neutral + decrease) && x in growth
    ensures Get(Ranks(growth, neutral, decrease), x) == Some(|growth| - IndexOf(growth, x))
  {
    var k := IndexOf(growth, x);
    WriteAtGrowth(growth, neutral, decrease, k);
    RanksGetAt(growth, neutral, decrease, k);
  }

  /** Under the same conditions, a neutral name is ranked 0. */
  lemma RanksGetNeutral(growth: seq<string>, neutral: seq<string>, decrease: seq<string>)
    requires NoDup(growth + neutral + decrease)
    ensures forall x :: x in neutral ==> Get(Ranks(growth, neutral, decrease), x) == Some(0)
  {
    forall x | x in neutral ensures Get(Ranks(growth, neutral, decrease), x) == Some(0) {
      var k := IndexOf(neutral, x);
      WriteAtNeutral(growth, neutral, decrease, k);
      RanksGetAt(growth, neutral, decrease, |growth| + k);
    }
  }

  /** Under the same conditions, a decrease name is ranked `-(k + 1)`, where
      k is its position in the decrease list. */
  lemma RanksGetDecrease(growth: seq<string>, neutral: seq<string>, decrease: seq<string>)
    requires NoDup(growth + neutral + decrease)
    ensures forall x {:trigger IndexOf(decrease, x)} :: x in decrease ==>
      Get(Ranks(growth, neutral, decrease), x) == Some(-(IndexOf(decrease, x) + 1))
  {
    forall x {:trigger IndexOf(decrease, x)} | x in decrease
      ensures Get(Ranks(growth, neutral, decrease), x) == Some(-(IndexOf(decrease, x) + 1))
    {
      var k := IndexOf(decrease, x);
      WriteAtDecrease(growth, neutral, decrease, k);
      RanksGetAt(growth, neutral, decrease, |growth| + |neutral| + k);
    }
  }

  /** Helper: with no name repeated, each assignment's value is what the
      dictionary holds for its name. */
  lemma RanksGetAt(growth: seq<string>, neutral: seq<string>, decrease: seq<string>, i: nat)
    requires NoDup(growth + neutral + decrease)
    requires i < |RankWrites(growth, neutral, decrease)|
    ensures Get(Ranks(growth, neutral, decrease), RankWrites(growth, neutral, decrease)[i].0)
      == Some(RankWrites(growth, neutral, decrease)[i].1)
  {
    RankWritesKeys(growth, neutral, decrease);
    FreshGet(RankWrites(growth, neutral, decrease), i);
  }

  /** Whatever the other lists hold, a duplicate-free growth list is the
      start of the key order: a name keeps the position of its first
      assignment, even when a later loop writes it again. */
  lemma RanksGrowthPrefix(growth: seq<string>, neutral: seq<string>, decrease: seq<string>)
    requires NoDup(growth)
    ensures growth <= Keys(Ranks(growth, neutral, decrease))
  {
    var ws := RankWrites(growth, neutral, decrease);
    var g := GrowthEntries(growth);
    assert ws[..|growth|] == g;
    assert Keys(g) == growth;
    assert Keys<int>([]) + Keys(g) == growth;
    AssignAllFresh([], g);
    assert AssignAll([], g) == g;
    KeyPositionStable(ws, |growth|);
  }

  /** Whatever the other lists hold, a name of a duplicate-free decrease list
      ends with its decrease rank: the last value written wins, so a name
      reported both as growing and as decreasing is ranked as decreasing. */
  lemma RanksDecreaseWins(growth: seq<string>, neutral: seq<string>, decrease: seq<string>, x: string)
    requires NoDup(decrease) && x in decrease
    ensures Get(Ranks(growth, neutral, decrease), x) == Some(-(IndexOf(decrease, x) + 1))
  {
    var ws := RankWrites(growth, neutral, decrease);
    var m := |growth| + |neutral| + IndexOf(decrease, x);
    WriteAtDecrease(growth, neutral, decrease, IndexOf(decrease, x));
    NoLaterWrite(growth, neutral, decrease, x);
    LastWins(ws, m, x);
    assert Ranks(growth, neutral, decrease) == AssignAll([], ws);
  }

  /** Helper: no assignment after the one of a decrease name writes that
      name again, when the decrease list is duplicate-free. */
  lemma NoLaterWrite(growth: seq<string>, neutral: seq<string>, decrease: seq<string>, x: string)
    requires NoDup(decrease) && x in decrease
    ensures forall j :: |growth| + |neutral| + IndexOf(decrease, x) < j < |RankWrites(growth, neutral, decrease)| ==>
      RankWrites(growth, neutral, decrease)[j].0 != x
  {
    var ws := RankWrites(growth, neutral, decrease);
    var base := |growth| + |neutral|;
    var d := IndexOf(decrease, x);
    assert |ws| == |growth| + |neutral| + |decrease|;
    forall j | base + d < j < |ws| ensures ws[j].0 != x {
      WriteAtDecrease(growth, neutral, decrease, j - base);
      assert decrease[j - base] != decrease[d];
    }
  }
}
