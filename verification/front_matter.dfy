/** Title extraction in the indexer: the multiline regular expression
    `^title:\s*(.*)$` searched in a document's raw text, its capture trimmed,
    and the file name without extension when nothing matches. */
module FrontMatter {
  import opened Text
  import opened Optional
  import Paths

  const TitleKey: string := "title:"

  /** Where multiline `^` matches: the start of the text or just after a line
      terminator. */
  predicate LineStart(text: string, i: nat) {
    i == 0 || (0 < i <= |text| && IsLineTerminator(text[i - 1]))
  }

  /** `^title:` matches at position `i`. */
  predicate TitleLineAt(text: string, i: nat) {
    i <= |text| && LineStart(text, i) && StartsWith(text[i..], TitleKey)
  }

  ghost predicate HasTitleLine(text: string) {
    exists i :: 0 <= i <= |text| && TitleLineAt(text, i)
  }

  /** Positions of one match: `^` at `line`, the capture group from `start` to
      `end`. */
  datatype Match = Match(line: nat, start: nat, end: nat)

  /** The leftmost match of `^title:\s*(.*)$`, stated independently of the
      search: `line` is the first position where `^title:` matches, `\s*`
      takes the longest run of whitespace (line breaks included) after the
      key, and `(.*)` the rest of that line, which `$` then ends. */
  ghost predicate IsTitleMatch(text: string, m: Match) {
    && m.line + |TitleKey| <= m.start <= m.end <= |text|
    && TitleLineAt(text, m.line)
    && (forall k :: 0 <= k < m.line ==> !TitleLineAt(text, k))
    && (forall k :: m.line + |TitleKey| <= k < m.start ==> IsSpace(text[k]))
    && (m.start == |text| || !IsSpace(text[m.start]))
    && (forall k :: m.start <= k < m.end ==> !IsLineTerminator(text[k]))
    && (m.end == |text| || IsLineTerminator(text[m.end]))
  }

  /** The first position at or after `from` where `^title:` matches. */
  function FindTitleLine(text: string, from: nat): (r: Option<nat>)
    requires from <= |text|
    ensures r.Some? ==> from <= r.value <= |text| && TitleLineAt(text, r.value)
    ensures r.Some? ==> forall k :: from <= k < r.value ==> !TitleLineAt(text, k)
    ensures r.None? ==> forall k :: from <= k <= |text| ==> !TitleLineAt(text, k)
    decreases |text| - from
  {
    if TitleLineAt(text, from) then Some(from)
    else if from == |text| then None
    else FindTitleLine(text, from + 1)
  }

  /** End of the longest whitespace run starting at `j` (greedy `\s*`). */
  function SkipSpace(text: string, j: nat): (r: nat)
    requires j <= |text|
    ensures j <= r <= |text|
    ensures forall k :: j <= k < r ==> IsSpace(text[k])
    ensures r == |text| || !IsSpace(text[r])
    decreases |text| - j
  {
    if j < |text| && IsSpace(text[j]) then SkipSpace(text, j + 1) else j
  }

  /** End of the line containing `j` (greedy `.*`, then `$`). */
  function LineEnd(text: string, j: nat): (r: nat)
    requires j <= |text|
    ensures j <= r <= |text|
    ensures forall k :: j <= k < r ==> !IsLineTerminator(text[k])
    ensures r == |text| || IsLineTerminator(text[r])
    decreases |text| - j
  {
    if j < |text| && !IsLineTerminator(text[j]) then LineEnd(text, j + 1) else j
  }

  /** `content.match(/^title:\s*(.*)$/m)`: the match, or `None` (null). */
  function MatchTitle(text: string): (r: Option<Match>)
    ensures r.Some? ==> IsTitleMatch(text, r.value)
  {
    match FindTitleLine(text, 0)
    case None => None
    case Some(i) =>
      var j := SkipSpace(text, i + |TitleKey|);
      Some(Match(i, j, LineEnd(text, j)))
  }

  /** There is no match exactly when no line starts with `title:`. */
  lemma NoMatchIffNoTitleLine(text: string)
    ensures MatchTitle(text).None? <==> !HasTitleLine(text)
  {
    var r := FindTitleLine(text, 0);
    if r.Some? {
      assert TitleLineAt(text, r.value);
    }
  }

  /** The match is determined by the text: at most one `Match` satisfies the
      description. */
  lemma MatchUnique(text: string, m1: Match, m2: Match)
    requires IsTitleMatch(text, m1) && IsTitleMatch(text, m2)
    ensures m1 == m2
  {
  }

  /** The captured group `(.*)`. */
  function Capture(text: string, m: Match): string
    requires m.start <= m.end <= |text|
  {
    text[m.start..m.end]
  }

  /** The record's title: the trimmed capture when a line starts with
      `title:`, otherwise the file name without its extension. */
  function Title(text: string, fileName: string): string
  {
    match MatchTitle(text)
    case None => Paths.Stem(fileName)
    case Some(m) => Trim(Capture(text, m))
  }

  /** Without a title line the title is the file name minus its extension. */
  lemma TitleWithoutLine(text: string, fileName: string)
    requires !HasTitleLine(text)
    ensures Title(text, fileName) == Paths.Stem(fileName)
  {
    NoMatchIffNoTitleLine(text);
  }

  /** The title is the trailing-trimmed capture of any match of the pattern:
      the capture never opens with whitespace, so trimming its start is a
      no-op. */
  lemma TitleOfMatch(text: string, fileName: string, m: Match)
    requires IsTitleMatch(text, m)
    ensures Title(text, fileName) == TrimEnd(Capture(text, m))
  {
    assert TitleLineAt(text, m.line);
    var found := MatchTitle(text).value;
    MatchUnique(text, found, m);
    TrimOfUnpadded(Capture(text, m));
  }

  /** A title taken from a title line lies within one line. */
  lemma TitleOnOneLine(text: string, fileName: string)
    requires HasTitleLine(text)
    ensures forall k :: 0 <= k < |Title(text, fileName)| ==> !IsLineTerminator(Title(text, fileName)[k])
  {
    NoMatchIffNoTitleLine(text);
    var m := MatchTitle(text).value;
    TitleOfMatch(text, fileName, m);
    CaptureOnOneLine(text, m);
  }

  /** The trimmed capture of a match holds no line terminator. */
  lemma CaptureOnOneLine(text: string, m: Match)
    requires IsTitleMatch(text, m)
    ensures forall k :: 0 <= k < |TrimEnd(Capture(text, m))| ==>
              !IsLineTerminator(TrimEnd(Capture(text, m))[k])
  {
    var c := Capture(text, m);
    var t := TrimEnd(c);
    forall k | 0 <= k < |t|
      ensures !IsLineTerminator(t[k])
    {
      assert t[k] == c[k] == text[m.start + k];
    }
  }

  /** The title is the trimmed capture of the (unique) match whenever a line
      starts with `title:`, even when that capture is empty, and the file name
      without its extension only when no line does. */
  lemma TitleSpec(text: string, fileName: string)
    ensures !HasTitleLine(text) ==> Title(text, fileName) == Paths.Stem(fileName)
    ensures forall m :: IsTitleMatch(text, m) ==> Title(text, fileName) == TrimEnd(Capture(text, m))
    ensures HasTitleLine(text) ==>
              forall k :: 0 <= k < |Title(text, fileName)| ==> !IsLineTerminator(Title(text, fileName)[k])
    ensures HasTitleLine(text) ==> exists m :: IsTitleMatch(text, m)
  {
    if HasTitleLine(text) {
      NoMatchIffNoTitleLine(text);
      assert IsTitleMatch(text, MatchTitle(text).value);
      TitleOnOneLine(text, fileName);
    } else {
      TitleWithoutLine(text, fileName);
    }
    forall m | IsTitleMatch(text, m)
      ensures Title(text, fileName) == TrimEnd(Capture(text, m))
    {
      TitleOfMatch(text, fileName, m);
    }
  }

  /** A text that opens with a title line: the title is the value after the
      blanks, trailing blanks trimmed. The blanks may include line breaks, so
      `title:` alone on its line takes the next line's text; and with nothing
      but blanks after the key the title is the empty string, not the
      file-name fallback. */
  lemma {:induction false} TitleOfLeadingKey(gap: string, value: string, tail: string, fileName: string)
    requires forall k :: 0 <= k < |gap| ==> IsSpace(gap[k])
    requires value != [] ==> !IsSpace(value[0])
    requires value == [] ==> tail == []
    requires forall k :: 0 <= k < |value| ==> !IsLineTerminator(value[k])
    requires tail == [] || IsLineTerminator(tail[0])
    ensures Title(TitleKey + gap + value + tail, fileName) == TrimEnd(value)
  {
    var text := TitleKey + gap + value + tail;
    var start := |TitleKey| + |gap|;
    var end := start + |value|;
    assert text[0..][..|TitleKey|] == TitleKey;
    assert TitleLineAt(text, 0);
    forall k | |TitleKey| <= k < start
      ensures IsSpace(text[k])
    {
      assert text[k] == gap[k - |TitleKey|];
    }
    forall k | start <= k < end
      ensures !IsLineTerminator(text[k])
    {
      assert text[k] == value[k - start];
    }
    if value != [] {
      assert text[start] == value[0];
    }
    if tail != [] {
      assert text[end] == tail[0];
    }
    var m := Match(0, start, end);
    assert IsTitleMatch(text, m);
    TitleSpec(text, fileName);
    assert Capture(text, m) == value;
  }

  /** A single line that does not open with `title:` has no title line, so
      the title is the file name without its extension. */
  lemma NoKeyLineFallsBack(text: string, fileName: string)
    requires forall k :: 0 <= k < |text| ==> !IsLineTerminator(text[k])
    requires !StartsWith(text, TitleKey)
    ensures Title(text, fileName) == Paths.Stem(fileName)
  {
    forall i | 0 <= i <= |text|
      ensures !TitleLineAt(text, i)
    {
      if i == 0 {
        assert text[0..] == text;
      }
    }
    TitleSpec(text, fileName);
  }
}
