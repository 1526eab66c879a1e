/** The Python `str` operations the report parser is built from, on strings
    as sequences of characters: `sub in s`, `s.split(sep)`,
    `s.replace(target, replacement)` and `s.strip()`, with `sep.join(parts)`
    as the inverse that specifies splitting. Separators are never
    empty in the parser (Python rejects an empty separator), hence
    `sep != []`. */
module PyStrings {
  import opened Lists

  /** `sub` occurs in `s` starting at position `i`. */
  predicate OccursAt(s: string, sub: string, i: nat) {
    i + |sub| <= |s| && s[i..i + |sub|] == sub
  }

  /** The leftmost occurrence of `sub` in `s` at or after `from`
      (Python's `s.find(sub, from)`, with `None` for -1). */
  function FindFrom(s: string, sub: string, from: nat): (r: Option<nat>)
    ensures r.Some? ==> from <= r.value && OccursAt(s, sub, r.value)
    ensures r.Some? ==> forall j: nat :: from <= j < r.value ==> !OccursAt(s, sub, j)
    ensures r.None? ==> forall j: nat :: from <= j ==> !OccursAt(s, sub, j)
    decreases |s| - from
  {
    if from + |sub| > |s| then None
    else if s[from..from + |sub|] == sub then Some(from)
    else FindFrom(s, sub, from + 1)
  }

  /** Python's `sub in s`. */
  function Contains(s: string, sub: string): (b: bool)
    ensures b <==> exists i: nat :: OccursAt(s, sub, i)
  {
    FindFrom(s, sub, 0).Some?
  }

  /** For a one-character needle, `in` is plain membership. */
  lemma ContainsChar(s: string, c: char)
    ensures Contains(s, [c]) <==> c in s
  {
    if c in s {
      var i :| 0 <= i < |s| && s[i] == c;
      assert OccursAt(s, [c], i);
    }
    if Contains(s, [c]) {
      var i: nat :| OccursAt(s, [c], i);
      assert s[i..i + 1] == [c];
      assert s[i] == c;
    }
  }

  /** An occurrence inside a prefix of `s` is an occurrence in `s`. */
  lemma OccursInPrefix(s: string, n: nat, sub: string, j: nat)
    requires n <= |s| && OccursAt(s[..n], sub, j)
    ensures OccursAt(s, sub, j)
  {
    assert s[..n][j..j + |sub|] == s[j..j + |sub|];
  }

  /** `sep.join(parts)`. */
  function Join(parts: seq<string>, sep: string): string {
    if |parts| == 0 then []
    else if |parts| == 1 then parts[0]
    else parts[0] + sep + Join(parts[1..], sep)
  }

  /** Python's `s.split(sep)`: cut at every leftmost, non-overlapping
      occurrence of `sep`. There is always at least one piece; joining the
      pieces with `sep` gives `s` back; no piece contains `sep`; there is
      more than one piece exactly when `sep in s`. `SplitRest` states that
      the first cut is at the leftmost occurrence and the other pieces split
      what follows it. */
  function Split(s: string, sep: string): (r: seq<string>)
    requires sep != []
    ensures |r| >= 1
    ensures Join(r, sep) == s
    ensures forall k :: 0 <= k < |r| ==> !Contains(r[k], sep)
    ensures |r| > 1 <==> Contains(s, sep)
    decreases |s|
  {
    match FindFrom(s, sep, 0)
    case None => [s]
    case Some(i) =>
      var head := s[..i];
      var rest := Split(s[i + |sep|..], sep);
      assert !Contains(head, sep) by {
        forall j: nat | OccursAt(head, sep, j) ensures false {
          OccursInPrefix(s, i, sep, j);
        }
      }
      assert s == head + sep + s[i + |sep|..];
      [head] + rest
  }

  /** A string without the separator splits into itself alone. */
  lemma SplitAbsent(s: string, sep: string)
    requires sep != [] && !Contains(s, sep)
    ensures Split(s, sep) == [s]
  {
    assert |Split(s, sep)| == 1;
  }

  /** Splitting proceeds from the left: after the first cut, at the
      leftmost occurrence, the remaining pieces are the split of the rest. */
  lemma SplitRest(s: string, sep: string)
    requires sep != [] && Contains(s, sep)
    ensures var r := Split(s, sep);
      |r| > 1 && FindFrom(s, sep, 0) == Some(|r[0]|) && r[1..] == Split(s[|r[0]| + |sep|..], sep)
  {
    var i := FindFrom(s, sep, 0).value;
    assert Split(s, sep) == [s[..i]] + Split(s[i + |sep|..], sep);
  }

  /** For a one-character separator `c`, the number of pieces is one more
      than the number of `c` characters (Python's `s.count(c) + 1`). */
  lemma {:induction false} SplitCharCount(s: string, c: char)
    ensures |Split(s, [c])| == multiset(s)[c] + 1
    decreases |s|
  {
    match FindFrom(s, [c], 0)
    case None =>
      ContainsChar(s, c);
    case Some(i) =>
      var head := s[..i];
      var tail := s[i + 1..];
      SplitCharCount(tail, c);
      assert Split(s, [c]) == [head] + Split(tail, [c]);
      ContainsChar(head, c);
      assert !Contains(head, [c]) by {
        assert Split(s, [c])[0] == head;
      }
      assert s == head + [c] + tail by {
        assert s[i..i + 1] == [c];
      }
      assert multiset(s) == multiset(head) + multiset{c} + multiset(tail);
  }

  /** Python's `s.replace(target, replacement)`: every piece between leftmost,
      non-overlapping occurrences of `target` is kept, and `replacement` is
      put where each occurrence was. */
  function Replace(s: string, target: string, replacement: string): (r: string)
    requires target != []
    ensures !Contains(s, target) ==> r == s
  {
    Join(Split(s, target), replacement)
  }

  /** Replacement works from the left: the text before the leftmost
      occurrence of `target` is kept, that occurrence becomes `replacement`,
      and the text after it is replaced in turn. */
  lemma ReplaceLeftmost(s: string, target: string, replacement: string)
    requires target != [] && Contains(s, target)
    ensures FindFrom(s, target, 0).Some?
    ensures var i := FindFrom(s, target, 0).value;
      Replace(s, target, replacement) == s[..i] + replacement + Replace(s[i + |target|..], target, replacement)
  {
    var parts := Split(s, target);
    var i := |parts[0]|;
    assert s == parts[0] + target + Join(parts[1..], target);
    assert s[..i] == parts[0];
  }

  /** A string that starts with `target` and has no other occurrence of it:
      the leading occurrence is replaced and the rest is kept. */
  lemma ReplaceLeading(target: string, x: string, replacement: string)
    requires target != [] && !Contains(x, target)
    ensures Replace(target + x, target, replacement) == replacement + x
  {
    var s := target + x;
    assert OccursAt(s, target, 0);
    assert FindFrom(s, target, 0) == Some(0);
    ReplaceLeftmost(s, target, replacement);
    assert s[|target|..] == x;
  }

  /** `s` with every character `a` changed into `b`. */
  function MapChar(s: string, a: char, b: char): string {
    seq(|s|, i requires 0 <= i < |s| => if s[i] == a then b else s[i])
  }

  lemma {:induction false} JoinMapChar(parts: seq<string>, a: char, b: char)
    requires forall k :: 0 <= k < |parts| ==> a !in parts[k]
    ensures MapChar(Join(parts, [a]), a, b) == Join(parts, [b])
  {
    if |parts| == 1 {
      assert MapChar(parts[0], a, b) == parts[0];
    } else if |parts| > 1 {
      JoinMapChar(parts[1..], a, b);
      var x := parts[0];
      var y := Join(parts[1..], [a]);
      var whole := x + [a] + y;
      var mapped := MapChar(whole, a, b);
      assert mapped == x + [b] + MapChar(y, a, b) by {
        forall i | 0 <= i < |whole| ensures mapped[i] == (x + [b] + MapChar(y, a, b))[i] {
          if i < |x| {
            assert whole[i] == x[i];
          } else if i > |x| {
            assert whole[i] == y[i - |x| - 1];
          }
        }
      }
    }
  }

  /** Replacing a one-character string by a one-character string changes
      exactly the characters equal to it, one for one: the result of
      `s.replace("\n", " ")` is `s` with every newline turned into a space. */
  lemma ReplaceChar(s: string, a: char, b: char)
    ensures Replace(s, [a], [b]) == MapChar(s, a, b)
  {
    var parts := Split(s, [a]);
    forall k | 0 <= k < |parts| ensures a !in parts[k] {
      ContainsChar(parts[k], a);
    }
    JoinMapChar(parts, a, b);
  }

  /** Characters Python's `str.isspace()` accepts, by code point. */
  predicate IsSpace(c: char) {
    var n := c as int;
    (9 <= n <= 13) || (28 <= n <= 32) || n == 0x85 || n == 0xA0 || n == 0x1680
    || (0x2000 <= n <= 0x200A) || n == 0x2028 || n == 0x2029 || n == 0x202F
    || n == 0x205F || n == 0x3000
  }

  /** The index of the first non-whitespace character of `s` at or after
      `i` (or `|s|`): where `s.lstrip()` starts. */
  function SkipSpace(s: string, i: nat): (j: nat)
    requires i <= |s|
    ensures i <= j <= |s|
    ensures forall k :: i <= k < j ==> IsSpace(s[k])
    ensures j == |s| || !IsSpace(s[j])
    decreases |s| - i
  {
    if i < |s| && IsSpace(s[i]) then SkipSpace(s, i + 1) else i
  }

  /** The index just past the last non-whitespace character of `s` before
      `j` and not before `lo` (or `lo`): where `s.rstrip()` ends. */
  function SkipSpaceBack(s: string, lo: nat, j: nat): (e: nat)
    requires lo <= j <= |s|
    ensures lo <= e <= j
    ensures forall k :: e <= k < j ==> IsSpace(s[k])
    ensures e == lo || !IsSpace(s[e - 1])
    decreases j
  {
    if lo < j && IsSpace(s[j - 1]) then SkipSpaceBack(s, lo, j - 1) else j
  }

  /** `r` is the part of `s` from `i` on that is left when the surrounding
      whitespace is removed. */
  ghost predicate StrippedAt(s: string, r: string, i: nat) {
    i + |r| <= |s| && r == s[i..i + |r|]
    && (forall k :: 0 <= k < i ==> IsSpace(s[k]))
    && (forall k :: i + |r| <= k < |s| ==> IsSpace(s[k]))
  }

  /** Where the stripped text starts in `s`: after the leading whitespace. */
  function StripStart(s: string): (i: nat)
    ensures i <= |s|
  {
    SkipSpace(s, 0)
  }

  /** Python's `s.strip()`: the slice of `s` left after removing all leading
      and trailing whitespace; it neither starts nor ends with whitespace. */
  function Strip(s: string): (r: string)
    ensures StrippedAt(s, r, StripStart(s))
    ensures r == [] || (!IsSpace(r[0]) && !IsSpace(r[|r| - 1]))
  {
    var i := StripStart(s);
    s[i..SkipSpaceBack(s, i, |s|)]
  }

  /** Stripping keeps no character that was not in the input. */
  lemma StripSubset(s: string, c: char)
    requires c in Strip(s)
    ensures c in s
  {
    SliceHolds(s, Strip(s), StripStart(s), c);
  }

  /** Helper: a character of a slice is a character of the whole. */
  lemma SliceHolds(s: string, r: string, i: nat, c: char)
    requires i + |r| <= |s| && r == s[i..i + |r|] && c in r
    ensures c in s
  {
    var k :| 0 <= k < |r| && r[k] == c;
    assert s[i + k] == c;
  }
}
