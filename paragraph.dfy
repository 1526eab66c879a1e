/** The paragraph processor: one indicator's paragraph becomes its ordered
    industry -> rank dictionary. The first "."-separated sentence reports the
    growing industries, the second the decreasing ones; every other reference
    industry is neutral. */
module ParagraphProcessor {
  import opened Lists
  import opened PyStrings
  import opened OrderedDicts
  import opened ReferenceLists
  import opened SentenceClassifier
  import opened RankBuilder

  /** Whether a reference industry is in neither reported list. */
  function NotListed(growth: seq<string>, decrease: seq<string>): string -> bool {
    industry => industry !in growth && industry !in decrease
  }

  /** The neutral list: the reference industries, in reference order, that
      are neither growing nor decreasing. */
  function NeutralIndustries(growth: seq<string>, decrease: seq<string>): seq<string> {
    Filter(Industries, NotListed(growth, decrease))
  }

  /** The neutral list holds exactly the reference industries missing from
      both reported lists, each once, in reference order. */
  lemma NeutralExactly(growth: seq<string>, decrease: seq<string>)
    ensures forall x :: x in NeutralIndustries(growth, decrease) <==>
      x in Industries && x !in growth && x !in decrease
    ensures NoDup(NeutralIndustries(growth, decrease))
    ensures forall i, j :: 0 <= i < j < |NeutralIndustries(growth, decrease)| ==>
      IndexOf(Industries, NeutralIndustries(growth, decrease)[i]) <
      IndexOf(Industries, NeutralIndustries(growth, decrease)[j])
  {
    IndustriesDistinct();
    FilterNoDup(Industries, NotListed(growth, decrease));
    FilterOrder(Industries, NotListed(growth, decrease));
  }

  /** The growth sentence: the text before the paragraph's first ".". */
  function GrowthSentence(paraText: string): string {
    Split(paraText, ".")[0]
  }

  /** The decrease sentence: the text between the first and second ".". */
  function DecreaseSentence(paraText: string): string
    requires Contains(paraText, ".")
  {
    Split(paraText, ".")[1]
  }

  /** `process_paragraph`: classify the first two sentences, derive the
      neutral list and build the ranks. It fails exactly when the paragraph
      has no "." (there is no second sentence), and on success every
      reference industry is a key, whatever the classifier returned. */
  function ProcessParagraph(paraText: string): (r: Outcome<OrderedDict<int>>)
    ensures r.Ok? <==> Contains(paraText, ".")
    ensures r.Ok? ==> forall x :: x in Industries ==> x in Keys(r.value)
  {
    var sentences := Split(paraText, ".");
    if |sentences| < 2 then IndexError
    else
      var growth := IndustriesInSentence(sentences[0]);
      var decrease := IndustriesInSentence(sentences[1]);
      var neutral := NeutralIndustries(growth, decrease);
      RanksKeys(growth, neutral, decrease);
      NeutralExactly(growth, decrease);
      Ok(Ranks(growth, neutral, decrease))
  }

  /** When both sentences name only reference industries (always so for
      sentences without a colon), the dictionary has exactly the 18 reference
      industries as keys, each exactly once. */
  lemma ParagraphCoversReference(paraText: string)
    requires Contains(paraText, ".")
    requires forall x :: x in IndustriesInSentence(GrowthSentence(paraText)) ==> x in Industries
    requires forall x :: x in IndustriesInSentence(DecreaseSentence(paraText)) ==> x in Industries
    ensures |ProcessParagraph(paraText).value| == 18
    ensures NoDup(Keys(ProcessParagraph(paraText).value))
    ensures (set x | x in Keys(ProcessParagraph(paraText).value)) == set x | x in Industries
  {
    var growth := IndustriesInSentence(GrowthSentence(paraText));
    var decrease := IndustriesInSentence(DecreaseSentence(paraText));
    var neutral := NeutralIndustries(growth, decrease);
    var keys := Keys(ProcessParagraph(paraText).value);
    RanksKeys(growth, neutral, decrease);
    NeutralExactly(growth, decrease);
    assert (set x | x in keys) == set x | x in Industries;
    NoDupCardinality(keys);
    IndustriesDistinct();
    NoDupCardinality(Industries);
  }

  /** With duplicate-free reported lists that share no name, the growth,
      neutral and decrease lists together repeat no name. */
  lemma NeutralDisjoint(growth: seq<string>, decrease: seq<string>)
    requires NoDup(growth + decrease)
    ensures NoDup(growth + NeutralIndustries(growth, decrease) + decrease)
  {
    var neutral := NeutralIndustries(growth, decrease);
    NoDupSplit(growth, decrease);
    NeutralExactly(growth, decrease);
    NoDupConcat(growth, neutral);
    NoDupConcat(growth + neutral, decrease);
  }

  /** The dictionary for two duplicate-free reported lists that share no
      name: the growth entries, then the neutral entries, then the decrease
      entries, one per name, nothing overwritten. */
  lemma ReportedLayout(growth: seq<string>, decrease: seq<string>)
    requires NoDup(growth + decrease)
    ensures Ranks(growth, NeutralIndustries(growth, decrease), decrease) ==
      GrowthEntries(growth) + NeutralEntries(NeutralIndustries(growth, decrease)) + DecreaseEntries(decrease)
  {
    NeutralDisjoint(growth, decrease);
    RanksOfDisjoint(growth, NeutralIndustries(growth, decrease), decrease);
  }

  /** The ranks the report assigns, read off two reported lists: the k-th
      growth industry is ranked `|growth| - k`, the k-th decreasing industry
      `-(k + 1)`, and every other reference industry 0. */
  predicate RankedAsReported(growth: seq<string>, decrease: seq<string>, report: OrderedDict<int>) {
    && (forall x {:trigger IndexOf(growth, x)} :: x in growth ==>
          Get(report, x) == Some(|growth| - IndexOf(growth, x)))
    && (forall x {:trigger IndexOf(decrease, x)} :: x in decrease ==>
          Get(report, x) == Some(-(IndexOf(decrease, x) + 1)))
    && (forall x :: x in Industries && x !in growth && x !in decrease ==> Get(report, x) == Some(0))
  }

  /** For two duplicate-free reported lists that share no name, the built
      dictionary ranks every industry as the report does. */
  lemma ReportedRanks(growth: seq<string>, decrease: seq<string>)
    requires NoDup(growth + decrease)
    ensures RankedAsReported(growth, decrease, Ranks(growth, NeutralIndustries(growth, decrease), decrease))
  {
    var neutral := NeutralIndustries(growth, decrease);
    NeutralDisjoint(growth, decrease);
    RanksGetGrowth(growth, neutral, decrease);
    RanksGetDecrease(growth, neutral, decrease);
    assert forall x :: x in Industries && x !in growth && x !in decrease ==>
      Get(Ranks(growth, neutral, decrease), x) == Some(0) by {
      RanksGetNeutral(growth, neutral, decrease);
      NeutralExactly(growth, decrease);
    }
  }

  /** When the two reported lists are duplicate-free and share no name, the
      paragraph's dictionary is the growth entries, then the neutral entries,
      then the decrease entries. */
  lemma ParagraphLayout(paraText: string)
    requires Contains(paraText, ".")
    requires NoDup(IndustriesInSentence(GrowthSentence(paraText)) + IndustriesInSentence(DecreaseSentence(paraText)))
    ensures var growth := IndustriesInSentence(GrowthSentence(paraText));
      var decrease := IndustriesInSentence(DecreaseSentence(paraText));
      ProcessParagraph(paraText).value ==
        GrowthEntries(growth) + NeutralEntries(NeutralIndustries(growth, decrease)) + DecreaseEntries(decrease)
  {
    var growth := IndustriesInSentence(GrowthSentence(paraText));
    var decrease := IndustriesInSentence(DecreaseSentence(paraText));
    assert ProcessParagraph(paraText) == Ok(Ranks(growth, NeutralIndustries(growth, decrease), decrease));
    ReportedLayout(growth, decrease);
  }

  /** When the two reported lists are duplicate-free and share no name, the
      paragraph's dictionary ranks every industry as the paragraph reports. */
  lemma ParagraphRanks(paraText: string)
    requires Contains(paraText, ".")
    requires NoDup(IndustriesInSentence(GrowthSentence(paraText)) + IndustriesInSentence(DecreaseSentence(paraText)))
    ensures RankedAsReported(IndustriesInSentence(GrowthSentence(paraText)),
      IndustriesInSentence(DecreaseSentence(paraText)), ProcessParagraph(paraText).value)
  {
    var growth := IndustriesInSentence(GrowthSentence(paraText));
    var decrease := IndustriesInSentence(DecreaseSentence(paraText));
    assert ProcessParagraph(paraText) == Ok(Ranks(growth, NeutralIndustries(growth, decrease), decrease));
    ReportedRanks(growth, decrease);
  }
}
