/** The sentence classifier: from one sentence of an indicator paragraph,
    the ordered list of industry names it reports. */
module SentenceClassifier {
  import opened Lists
  import opened PyStrings
  import opened ReferenceLists

  /** Normalisation of one `;`-separated name: drop every " and ", turn
      newlines into spaces, strip the surrounding whitespace. */
  function CleanListed(name: string): string {
    Strip(Replace(Replace(name, " and ", ""), "\n", " "))
  }

  /** Normalisation of the single name after the colon: newlines become
      spaces and the surrounding whitespace is stripped; " and " is kept. */
  function CleanSingle(name: string): string {
    Strip(Replace(name, "\n", " "))
  }

  /** Whether `sentence` names `industry` verbatim (`industry in sentence`). */
  function NamedIn(sentence: string): string -> bool {
    industry => Contains(sentence, industry)
  }

  /** The reference industries that occur verbatim in `sentence`, in
      reference-list order. */
  function ReferenceNamesIn(sentence: string): seq<string> {
    Filter(Industries, NamedIn(sentence))
  }

  /** The piece of `sentence` between its first colon and the next one (or
      the end), that is `sentence.split(":")[1]`. */
  function AfterColon(sentence: string): string
    requires Contains(sentence, ":")
  {
    Split(sentence, ":")[1]
  }

  /** The `;`-separated names of a list, each normalised, in order. */
  function CleanPieces(industries: string): seq<string> {
    var pieces := Split(industries, ";");
    seq(|pieces|, k requires 0 <= k < |pieces| => CleanListed(pieces[k]))
  }

  /** The industry list a sentence reports. With a colon, the text after it
      is either a `;`-separated list or a single name; without one, the
      reference industries named in the sentence are collected. */
  function IndustriesInSentence(sentence: string): seq<string> {
    if Contains(sentence, ":") then
      var industries := AfterColon(sentence);
      if Contains(industries, ";") then CleanPieces(industries)
      else
        [CleanSingle(industries)]
    else
      ReferenceNamesIn(sentence)
  }

  /** The fallback loop of `get_list_of_industries_from_sentence`: walk the
      reference list and append every name that occurs in the sentence. */
  method CollectNamed(reference: seq<string>, sentence: string) returns (listIndustries: seq<string>)
    ensures listIndustries == Filter(reference, NamedIn(sentence))
  {
    listIndustries := [];
    for i := 0 to |reference|
      invariant listIndustries == Filter(reference[..i], NamedIn(sentence))
    {
      var industry := reference[i];
      assert reference[..i + 1][..i] == reference[..i];
      if Contains(sentence, industry) {
        listIndustries := listIndustries + [industry];
      }
    }
    assert reference[..|reference|] == reference;
  }

  /** `get_list_of_industries_from_sentence`: the colon branches build the
      list at once, the fallback appends reference names in a loop. */
  method GetListOfIndustriesFromSentence(sentence: string) returns (listIndustries: seq<string>)
    ensures listIndustries == IndustriesInSentence(sentence)
  {
    if Contains(sentence, ":") {
      var industries := AfterColon(sentence);
      if Contains(industries, ";") {
        listIndustries := CleanPieces(industries);
      } else {
        listIndustries := [CleanSingle(industries)];
      }
    } else {
      listIndustries := CollectNamed(Industries, sentence);
    }
  }

  /** Without a colon the result is the reference industries named in the
      sentence, in reference order: only reference names, each once, at most
      18 of them, exactly those occurring verbatim. */
  lemma NoColonBranch(sentence: string)
    requires !Contains(sentence, ":")
    ensures IndustriesInSentence(sentence) == Filter(Industries, NamedIn(sentence))
    ensures forall x :: x in IndustriesInSentence(sentence) <==> x in Industries && Contains(sentence, x)
    ensures NoDup(IndustriesInSentence(sentence))
    ensures |IndustriesInSentence(sentence)| <= 18
    ensures forall i, j :: 0 <= i < j < |IndustriesInSentence(sentence)| ==>
      IndexOf(Industries, IndustriesInSentence(sentence)[i]) < IndexOf(Industries, IndustriesInSentence(sentence)[j])
  {
    IndustriesDistinct();
    FilterNoDup(Industries, NamedIn(sentence));
    FilterOrder(Industries, NamedIn(sentence));
  }

  /** Turning newlines into spaces and then stripping leaves no newline and
      no whitespace at either end. */
  lemma SpacedStripShape(pre: string)
    ensures var r := Strip(Replace(pre, "\n", " "));
      '\n' !in r && (r == [] || (!IsSpace(r[0]) && !IsSpace(r[|r| - 1])))
  {
    var spaced := Replace(pre, "\n", " ");
    ReplaceChar(pre, '\n', ' ');
    assert '\n' !in spaced;
    if '\n' in Strip(spaced) {
      StripSubset(spaced, '\n');
    }
  }

  /** A name produced by either colon branch holds no newline and neither
      starts nor ends with whitespace. */
  lemma CleanedNameShape(name: string, listed: bool)
    ensures var r := if listed then CleanListed(name) else CleanSingle(name);
      '\n' !in r && (r == [] || (!IsSpace(r[0]) && !IsSpace(r[|r| - 1])))
  {
    if listed {
      SpacedStripShape(Replace(name, " and ", ""));
    } else {
      SpacedStripShape(name);
    }
  }

  /** The `;`-list branch removes " and ": a piece without it is cleaned
      like a single name, and so is the last piece of a list such as
      "A; B; and C", whose only " and " is the one in front. */
  lemma ListedAndRemoved(x: string)
    requires !Contains(x, " and ")
    ensures CleanListed(x) == CleanSingle(x)
    ensures CleanListed(" and " + x) == CleanSingle(x)
  {
    ReplaceLeading(" and ", x, "");
    assert "" + x == x;
  }

  /** With a colon and a semicolon after it, there is one entry per
      `;`-separated piece of the text after the colon (one more than the
      number of semicolons there), each piece normalised in order, and the
      pieces put back together with ";" give that text. */
  lemma ColonListBranch(sentence: string)
    requires Contains(sentence, ":") && Contains(AfterColon(sentence), ";")
    ensures |IndustriesInSentence(sentence)| == multiset(AfterColon(sentence))[';'] + 1
    ensures Join(Split(AfterColon(sentence), ";"), ";") == AfterColon(sentence)
    ensures forall k :: 0 <= k < |IndustriesInSentence(sentence)| ==>
      IndustriesInSentence(sentence)[k] == CleanListed(Split(AfterColon(sentence), ";")[k])
    ensures forall k :: 0 <= k < |IndustriesInSentence(sentence)| ==>
      '\n' !in IndustriesInSentence(sentence)[k]
  {
    var mid := AfterColon(sentence);
    var pieces := Split(mid, ";");
    var r := IndustriesInSentence(sentence);
    assert r == CleanPieces(mid);
    SplitCharCount(mid, ';');
    forall k | 0 <= k < |r| ensures '\n' !in r[k] {
      CleanedNameShape(pieces[k], true);
    }
  }

  /** With a colon and no semicolon after it, the result is that one text,
      normalised without removing " and ". */
  lemma ColonSingleBranch(sentence: string)
    requires Contains(sentence, ":") && !Contains(AfterColon(sentence), ";")
    ensures |IndustriesInSentence(sentence)| == 1
    ensures IndustriesInSentence(sentence)[0] == Strip(MapChar(AfterColon(sentence), '\n', ' '))
  {
    ReplaceChar(AfterColon(sentence), '\n', ' ');
  }

  /** Splitting at the first occurrence of a character that `head` lacks. */
  lemma SplitAtFirstChar(head: string, c: char, tail: string)
    requires c !in head
    ensures Split(head + [c] + tail, [c]) == [head] + Split(tail, [c])
  {
    var s := head + [c] + tail;
    ContainsChar(head, c);
    assert OccursAt(s, [c], |head|);
    match FindFrom(s, [c], 0)
    case None =>
      assert false;
    case Some(i) =>
      assert i == |head|;
      assert s[..i] == head;
      assert s[i + 1..] == tail;
  }

  /** The text after the first colon of `head + ":" + rest`, when `head` has
      no colon, is the part of `rest` before its own first colon. */
  lemma AfterFirstColon(head: string, rest: string)
    requires ':' !in head
    ensures Contains(head + ":" + rest, ":")
    ensures AfterColon(head + ":" + rest) == Split(rest, ":")[0]
  {
    SplitAtFirstChar(head, ':', rest);
    assert head + ":" + rest == head + [':'] + rest;
  }

  /** A text without a colon splits at ":" into itself alone. */
  lemma SplitNoColon(s: string)
    requires ':' !in s
    ensures Split(s, ":") == [s]
  {
    ContainsChar(s, ':');
  }

  /** Only the text between the first and the second colon matters: anything
      after a second colon is dropped. */
  lemma SecondColonIgnored(head: string, middle: string, tail: string)
    requires ':' !in head && ':' !in middle
    ensures IndustriesInSentence(head + ":" + middle + ":" + tail) == IndustriesInSentence(head + ":" + middle)
  {
    assert head + ":" + middle + ":" + tail == head + ":" + (middle + ":" + tail);
    assert middle + ":" + tail == middle + [':'] + tail;
    AfterFirstColon(head, middle + ":" + tail);
    SplitAtFirstChar(middle, ':', tail);
    AfterFirstColon(head, middle);
    SplitNoColon(middle);
  }
}
