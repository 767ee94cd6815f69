/** String helpers shared by the indexer and the chat handler, with the
    character classes of ECMAScript (the language both components run in). */
module Text {

  /** ECMAScript LineTerminator: the characters `.` refuses and around which
      `^`/`$` match in multiline mode. */
  predicate IsLineTerminator(c: char) {
    c == '\n' || c == '\r' || c == '\U{2028}' || c == '\U{2029}'
  }

  /** ECMAScript WhiteSpace or LineTerminator: what `\s` matches and what
      `String.prototype.trim` removes. */
  predicate IsSpace(c: char) {
    || IsLineTerminator(c)
    || c == '\t' || c == '\U{000B}' || c == '\U{000C}' || c == ' '
    || c == '\U{00A0}' || c == '\U{1680}'
    || ('\U{2000}' <= c && c <= '\U{200A}')
    || c == '\U{202F}' || c == '\U{205F}' || c == '\U{3000}' || c == '\U{FEFF}'
  }

  predicate StartsWith(s: string, prefix: string) {
    |prefix| <= |s| && s[..|prefix|] == prefix
  }

  predicate EndsWith(s: string, suffix: string) {
    |suffix| <= |s| && s[|s| - |suffix|..] == suffix
  }

  /** `s` with its trailing whitespace removed. */
  function TrimEnd(s: string): (r: string)
    ensures r <= s
    ensures r == [] || !IsSpace(r[|r| - 1])
    ensures forall k :: |r| <= k < |s| ==> IsSpace(s[k])
    decreases |s|
  {
    if |s| > 0 && IsSpace(s[|s| - 1]) then TrimEnd(s[..|s| - 1]) else s
  }

  /** `s` with its leading whitespace removed. */
  function TrimStart(s: string): (r: string)
    ensures |r| <= |s| && r == s[|s| - |r|..]
    ensures r == [] || !IsSpace(r[0])
    ensures forall k :: 0 <= k < |s| - |r| ==> IsSpace(s[k])
    decreases |s|
  {
    if |s| > 0 && IsSpace(s[0]) then TrimStart(s[1..]) else s
  }

  /** `String.prototype.trim`: the result is the stretch of `s` left once
      every leading and every trailing whitespace character is removed. */
  function Trim(s: string): (r: string)
    ensures r == [] || (!IsSpace(r[0]) && !IsSpace(r[|r| - 1]))
    ensures |r| <= |TrimEnd(s)| && r == s[|TrimEnd(s)| - |r|..|TrimEnd(s)|]
    ensures forall k :: 0 <= k < |TrimEnd(s)| - |r| ==> IsSpace(s[k])
    ensures forall k :: |TrimEnd(s)| <= k < |s| ==> IsSpace(s[k])
  {
    TrimSlice(s);
    TrimStart(TrimEnd(s))
  }

  /** Trimming the start of the trailing-trimmed string cuts a stretch out of
      `s` itself, preceded only by whitespace. */
  lemma TrimSlice(s: string)
    ensures var e := TrimEnd(s);
            var r := TrimStart(e);
            && r == s[|e| - |r|..|e|]
            && forall k :: 0 <= k < |e| - |r| ==> IsSpace(s[k])
  {
    var e := TrimEnd(s);
    var r := TrimStart(e);
    assert e == s[..|e|];
    forall k | 0 <= k < |e| - |r|
      ensures IsSpace(s[k])
    {
      assert e[k] == s[k];
    }
  }

  /** Trimming a string that does not begin with whitespace only removes its
      trailing whitespace. */
  lemma TrimOfUnpadded(s: string)
    requires s == [] || !IsSpace(s[0])
    ensures Trim(s) == TrimEnd(s)
  {
    var t := TrimEnd(s);
    if t != [] {
      assert t[0] == s[0];
    }
  }

  /** `Array.prototype.join`: the parts in order with `sep` between each two
      neighbours; no parts give the empty string. */
  function JoinWith(parts: seq<string>, sep: string): string
  {
    if |parts| == 0 then []
    else if |parts| == 1 then parts[0]
    else JoinWith(parts[..|parts| - 1], sep) + sep + parts[|parts| - 1]
  }

  /** Sum of the lengths of the parts. */
  function TotalLength(parts: seq<string>): nat
  {
    if |parts| == 0 then 0 else TotalLength(parts[..|parts| - 1]) + |parts[|parts| - 1]|
  }

  /** Plain concatenation of the parts, in order. */
  function Concat(parts: seq<string>): string
  {
    if |parts| == 0 then [] else Concat(parts[..|parts| - 1]) + parts[|parts| - 1]
  }

  /** A join of n parts is exactly the parts plus n - 1 separators. */
  lemma {:induction false} JoinLength(parts: seq<string>, sep: string)
    requires |parts| > 0
    ensures |JoinWith(parts, sep)| == TotalLength(parts) + (|parts| - 1) * |sep|
  {
    if |parts| > 1 {
      var init := parts[..|parts| - 1];
      JoinLength(init, sep);
      var n := |init| - 1;
      assert (n + 1) * |sep| == n * |sep| + |sep|;
    }
  }

  /** Joining two non-empty runs of parts is joining each run and putting one
      separator between them. */
  lemma {:induction false} JoinAppend(xs: seq<string>, ys: seq<string>, sep: string)
    requires |xs| > 0 && |ys| > 0
    ensures JoinWith(xs + ys, sep) == JoinWith(xs, sep) + sep + JoinWith(ys, sep)
    decreases |ys|
  {
    if |ys| == 1 {
      assert (xs + ys)[..|xs + ys| - 1] == xs;
    } else {
      var ys' := ys[..|ys| - 1];
      assert (xs + ys)[..|xs + ys| - 1] == xs + ys';
      JoinAppend(xs, ys', sep);
    }
  }

  /** The first part is a prefix of the join and the last part a suffix. */
  lemma {:induction false} JoinEnds(parts: seq<string>, sep: string)
    requires |parts| > 0
    ensures StartsWith(JoinWith(parts, sep), parts[0])
    ensures EndsWith(JoinWith(parts, sep), parts[|parts| - 1])
  {
    if |parts| > 1 {
      var init := parts[..|parts| - 1];
      JoinEnds(init, sep);
      var j := JoinWith(init, sep);
      assert JoinWith(parts, sep) == j + (sep + parts[|parts| - 1]);
      assert (j + (sep + parts[|parts| - 1]))[..|parts[0]|] == j[..|parts[0]|];
    }
  }
}
