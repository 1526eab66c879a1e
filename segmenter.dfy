/** The report segmenter: the extracted report text is cut at the indicator
    headings, in order, and from the text before each heading the paragraph
    of the previous indicator is taken and processed. The result is an
    ordered dictionary from indicator label to that indicator's ranks. */
module ReportSegmenter {
  import opened Lists
  import opened PyStrings
  import opened OrderedDicts
  import opened ReferenceLists
  import opened ParagraphProcessor

  /** The value of `previous_text` once the heading at index `i` has been
      cut: the first split is at heading 0, each later one splits the text
      after the previous heading (piece 1) at the next heading. Indexing
      piece 1 of a split that found no heading raises IndexError. */
  function Pieces(text: string, i: nat): Outcome<seq<string>>
    requires i < |Indicators|
  {
    IndicatorsDistinct();
    if i == 0 then Ok(Split(text, Indicators[0]))
    else
      match Pieces(text, i - 1)
      case IndexError => IndexError
      case Ok(previous) =>
        if |previous| < 2 then IndexError else Ok(Split(previous[1], Indicators[i]))
  }

  /** How far from the end the paragraph sits among the ".\n"-separated
      chunks before heading `i`: second to last, or third to last before the
      final heading. */
  function Back(i: nat): nat {
    if i == |Indicators| - 1 then 3 else 2
  }

  /** The paragraph of indicator `i - 1`: among the ".\n"-separated chunks of
      the text between heading `i - 1` and heading `i`, the one `Back(i)`
      from the end (Python's negative index), or IndexError when there are
      fewer chunks than that. */
  function ParagraphAt(text: string, i: nat): Outcome<string>
    requires 1 <= i < |Indicators|
  {
    match Pieces(text, i)
    case IndexError => IndexError
    case Ok(pieces) =>
      var chunks := Split(pieces[0], ".\n");
      if |chunks| < Back(i) then IndexError else Ok(chunks[|chunks| - Back(i)])
  }

  /** What processing the paragraph of indicator `j - 1` gives: its ranks,
      or IndexError when the paragraph cannot be picked or processed. */
  function StepResult(text: string, j: nat): Outcome<OrderedDict<int>>
    requires 1 <= j < |Indicators|
  {
    match ParagraphAt(text, j)
    case IndexError => IndexError
    case Ok(paragraph) => ProcessParagraph(paragraph)
  }

  /** The results of the ten steps, one per indicator but the last. */
  function StepResults(text: string): seq<Outcome<OrderedDict<int>>> {
    seq(|Indicators| - 1, k requires 0 <= k < |Indicators| - 1 => StepResult(text, k + 1))
  }

  /** Storing step results under their labels, in order, into an empty
      ordered dictionary; the first failing step fails the whole run. */
  function Sheets<V>(labels: seq<string>, results: seq<Outcome<V>>): Outcome<OrderedDict<V>>
    requires |labels| == |results|
  {
    if results == [] then Ok([])
    else
      var n := |results| - 1;
      match Sheets(labels[..n], results[..n])
      case IndexError => IndexError
      case Ok(sheets) =>
        match results[n]
        case IndexError => IndexError
        case Ok(v) => Ok(Assign(sheets, labels[n], v))
  }

  /** The dictionary the main program builds from the report text. */
  function Report(text: string): Outcome<OrderedDict<OrderedDict<int>>> {
    Sheets(Indicators[..|Indicators| - 1], StepResults(text))
  }

  /** Once the steps of a prefix have failed, the whole run has. */
  lemma {:induction false} SheetsFailurePersists<V>(labels: seq<string>, results: seq<Outcome<V>>, n: nat)
    requires |labels| == |results| && n <= |results|
    requires Sheets(labels[..n], results[..n]).IndexError?
    ensures Sheets(labels, results).IndexError?
    decreases |results|
  {
    if n < |results| {
      var m := |results| - 1;
      assert labels[..m][..n] == labels[..n] && results[..m][..n] == results[..n];
      SheetsFailurePersists(labels[..m], results[..m], n);
    } else {
      assert labels[..n] == labels && results[..n] == results;
    }
  }

  /** One more successful step: its value is stored under its label. */
  lemma SheetsAppend<V>(labels: seq<string>, results: seq<Outcome<V>>, n: nat, sheets: OrderedDict<V>, v: V)
    requires |labels| == |results| && n < |results|
    requires Sheets(labels[..n], results[..n]) == Ok(sheets) && results[n] == Ok(v)
    ensures Sheets(labels[..n + 1], results[..n + 1]) == Ok(Assign(sheets, labels[n], v))
  {
    assert labels[..n + 1][..n] == labels[..n] && results[..n + 1][..n] == results[..n];
  }

  /** A failing step fails the whole run. */
  lemma SheetsStepFails<V>(labels: seq<string>, results: seq<Outcome<V>>, n: nat)
    requires |labels| == |results| && n < |results| && results[n].IndexError?
    ensures Sheets(labels, results).IndexError?
  {
    assert labels[..n + 1][..n] == labels[..n] && results[..n + 1][..n] == results[..n];
    assert results[..n + 1][n] == results[n];
    SheetsFailurePersists(labels, results, n + 1);
  }

  /** With distinct labels the run succeeds exactly when every step does,
      and then the dictionary holds one entry per label, in order, each
      holding its step's value. */
  lemma {:induction false} SheetsContents<V>(labels: seq<string>, results: seq<Outcome<V>>)
    requires |labels| == |results| && NoDup(labels)
    ensures Sheets(labels, results).Ok? <==> forall k :: 0 <= k < |results| ==> results[k].Ok?
    ensures Sheets(labels, results).Ok? ==>
      && |Sheets(labels, results).value| == |labels|
      && forall k :: 0 <= k < |labels| ==> Sheets(labels, results).value[k] == (labels[k], results[k].value)
    decreases |results|
  {
    if results != [] {
      var n := |results| - 1;
      assert labels == labels[..n] + [labels[n]];
      NoDupSplit(labels[..n], [labels[n]]);
      SheetsContents(labels[..n], results[..n]);
      match Sheets(labels[..n], results[..n])
      case IndexError =>
        var k :| 0 <= k < n && !results[..n][k].Ok?;
        assert !results[k].Ok?;
      case Ok(sheets) =>
        if results[n].Ok? {
          assert results == results[..n] + [Ok(results[n].value)];
          SheetsGrow(labels[..n], results[..n], sheets, labels[n], results[n].value);
        }
    }
  }

  /** Helper: one more successful step after earlier steps that all
      succeeded and stored one entry per label (`li` and `ri` are the
      earlier labels and results, `x` and `v` the new label and value). */
  lemma SheetsGrow<V>(li: seq<string>, ri: seq<Outcome<V>>, sheets: OrderedDict<V>, x: string, v: V)
    requires |li| == |ri| && x !in li
    requires forall k :: 0 <= k < |ri| ==> ri[k].Ok?
    requires |sheets| == |li| && forall k :: 0 <= k < |li| ==> sheets[k] == (li[k], ri[k].value)
    ensures forall k :: 0 <= k < |ri| + 1 ==> (ri + [Ok(v)])[k].Ok?
    ensures Assign(sheets, x, v) == sheets + [(x, v)]
    ensures forall k :: 0 <= k < |li| + 1 ==> (sheets + [(x, v)])[k] == ((li + [x])[k], (ri + [Ok(v)])[k].value)
  {
    assert Keys(sheets) == li;
    AssignKeys(sheets, x, v);
  }

  /** One cut of the segmentation loop: split the text after the previous
      heading at heading `i` and pick the paragraph from the chunks before
      it. Returns the paragraph and the new `previous_text`. */
  method CutAt(ghost text: string, previousText: seq<string>, i: nat) returns (r: Outcome<(string, seq<string>)>)
    requires 1 <= i < |Indicators| && Pieces(text, i - 1) == Ok(previousText)
    ensures r.IndexError? <==> ParagraphAt(text, i).IndexError?
    ensures r.Ok? ==> ParagraphAt(text, i) == Ok(r.value.0) && Pieces(text, i) == Ok(r.value.1)
  {
    if |previousText| < 2 {
      return IndexError;
    }
    IndicatorsDistinct();
    var splittedText := Split(previousText[1], Indicators[i]);
    assert Pieces(text, i) == Ok(splittedText);
    var chunks := Split(splittedText[0], ".\n");
    var paragraph: string;
    if i == |Indicators| - 1 {
      if |chunks| < 3 {
        return IndexError;
      }
      paragraph := chunks[|chunks| - 3];
    } else {
      if |chunks| < 2 {
        return IndexError;
      }
      paragraph := chunks[|chunks| - 2];
    }
    r := Ok((paragraph, splittedText));
  }

  /** The segmentation loop of the main program: `previous_text` is cut at
      each heading in turn, the paragraph is picked, processed and stored
      under the previous heading's label. Any IndexError ends the run. */
  method Segment(text: string) returns (r: Outcome<OrderedDict<OrderedDict<int>>>)
    ensures r == Report(text)
  {
    IndicatorsDistinct();
    ghost var labels := Indicators[..|Indicators| - 1];
    ghost var results := StepResults(text);
    var industriesDict: OrderedDict<OrderedDict<int>> := [];
    var previousText := Split(text, Indicators[0]);
    for i := 1 to |Indicators|
      invariant Pieces(text, i - 1) == Ok(previousText)
      invariant Sheets(labels[..i - 1], results[..i - 1]) == Ok(industriesDict)
    {
      assert results[i - 1] == StepResult(text, i);
      var cut := CutAt(text, previousText, i);
      if cut.IndexError? {
        SheetsStepFails(labels, results, i - 1);
        return IndexError;
      }
      var paragraph := cut.value.0;
      previousText := cut.value.1;
      var processedParagraph := ProcessParagraph(paragraph);
      assert results[i - 1] == processedParagraph;
      if processedParagraph.IndexError? {
        SheetsStepFails(labels, results, i - 1);
        return IndexError;
      }
      SheetsAppend(labels, results, i - 1, industriesDict, processedParagraph.value);
      industriesDict := Assign(industriesDict, Indicators[i - 1], processedParagraph.value);
    }
    assert labels[..|Indicators| - 1] == labels && results[..|Indicators| - 1] == results;
    r := Ok(industriesDict);
  }

  /** The whole run: it succeeds exactly when each of the ten steps does
      (step k picks and processes the paragraph before heading k + 1), and
      then there is one sheet per indicator except the last heading, which
      only ends the text of the one before it; each sheet holds its
      paragraph's ranks. */
  lemma SegmentSheets(text: string)
    ensures Report(text).Ok? <==> forall k :: 0 <= k < 10 ==> StepResults(text)[k].Ok?
    ensures Report(text).Ok? ==>
      && |Report(text).value| == 10
      && Keys(Report(text).value) == Indicators[..10]
      && "BUYING POLICY" !in Keys(Report(text).value)
      && forall k :: 0 <= k < 10 ==> Report(text).value[k].1 == StepResults(text)[k].value
  {
    IndicatorsDistinct();
    var labels := Indicators[..10];
    assert labels + Indicators[10..] == Indicators;
    NoDupSplit(labels, Indicators[10..]);
    SheetsContents(labels, StepResults(text));
    if Report(text).Ok? {
      assert Keys(Report(text).value) == labels;
      assert Indicators[10] == "BUYING POLICY";
      assert Indicators[10] in Indicators[10..];
    }
  }

  /** A missing first heading: the first split has one piece, so the first
      cut, which indexes piece 1, raises IndexError. */
  lemma FirstHeadingMissing(text: string)
    requires !Contains(text, Indicators[0])
    ensures Pieces(text, 0) == Ok([text])
    ensures Pieces(text, 1).IndexError?
  {
    IndicatorsDistinct();
    SplitAbsent(text, Indicators[0]);
    OnePieceCutFails(text, 0);
  }

  /** A heading missing from the text after the previous one is not an
      error by itself: that cut yields the whole text as its only piece. */
  lemma HeadingMissing(text: string, i: nat)
    requires 1 <= i < |Indicators| && Pieces(text, i - 1).Ok? && |Pieces(text, i - 1).value| >= 2
    requires !Contains(Pieces(text, i - 1).value[1], Indicators[i])
    ensures Pieces(text, i) == Ok([Pieces(text, i - 1).value[1]])
  {
    SplitAbsent(Pieces(text, i - 1).value[1], Indicators[i]);
  }

  /** A heading missing among the first ten makes the next cut fail, as it
      indexes piece 1 of a one-piece split; `CutFailureEndsRun` then ends
      the run with IndexError. */
  lemma NextCutFails(text: string, i: nat)
    requires 1 <= i < |Indicators| - 1 && Pieces(text, i - 1).Ok? && |Pieces(text, i - 1).value| >= 2
    requires !Contains(Pieces(text, i - 1).value[1], Indicators[i])
    ensures Pieces(text, i + 1).IndexError?
  {
    HeadingMissing(text, i);
    OnePieceCutFails(text, i);
  }

  /** Helper: a cut that left a single piece makes the next cut fail. */
  lemma OnePieceCutFails(text: string, i: nat)
    requires i + 1 < |Indicators| && Pieces(text, i).Ok? && |Pieces(text, i).value| == 1
    ensures Pieces(text, i + 1).IndexError?
  {
  }

  /** A cut that fails ends the whole run with IndexError. */
  lemma CutFailureEndsRun(text: string, i: nat)
    requires 1 <= i < |Indicators| && Pieces(text, i).IndexError?
    ensures Report(text).IndexError?
  {
    assert StepResults(text)[i - 1] == StepResult(text, i);
    SheetsStepFails(Indicators[..|Indicators| - 1], StepResults(text), i - 1);
  }

  /** When the last heading ("BUYING POLICY") is missing, nothing fails on
      its account: the last paragraph is picked, third from the end, among
      the ".\n"-separated chunks of the whole text after "IMPORTS". */
  lemma LastHeadingMissing(text: string)
    requires Pieces(text, 9).Ok? && |Pieces(text, 9).value| >= 2
    requires !Contains(Pieces(text, 9).value[1], "BUYING POLICY")
    ensures var chunks := Split(Pieces(text, 9).value[1], ".\n");
      ParagraphAt(text, 10) == if |chunks| < 3 then IndexError else Ok(chunks[|chunks| - 3])
  {
    assert Indicators[10] == "BUYING POLICY";
    HeadingMissing(text, 10);
  }

  /** A picked paragraph never holds ".\n", and the text it was taken from
      lies between two consecutive headings: it holds no copy of the next
      heading. */
  lemma ParagraphShape(text: string, i: nat)
    requires 1 <= i < |Indicators| && ParagraphAt(text, i).Ok?
    ensures !Contains(ParagraphAt(text, i).value, ".\n")
    ensures Pieces(text, i).Ok? && !Contains(Pieces(text, i).value[0], Indicators[i])
  {
  }

  /** Each cut is undone by joining with its heading: the pieces after
      heading `i` put back together give the text after heading `i - 1`. */
  lemma PiecesJoin(text: string, i: nat)
    requires 1 <= i < |Indicators| && Pieces(text, i).Ok?
    ensures Pieces(text, i - 1).Ok? && |Pieces(text, i - 1).value| >= 2
    ensures Join(Pieces(text, i).value, Indicators[i]) == Pieces(text, i - 1).value[1]
  {
  }
}
