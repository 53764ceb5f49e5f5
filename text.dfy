/** The .NET string operations the core relies on, over `seq<char>`: whitespace tests,
    Trim, Split with RemoveEmptyEntries, StartsWith, TakeWhile and Join.
    Comparisons are ordinal (character by character). */
module Text {

  /** char.IsWhiteSpace: the Unicode space, line and paragraph separators plus
      U+0009..U+000D, U+0085 and U+00A0. */
  predicate IsWhiteSpace(c: char) {
    ('\U{0009}' <= c <= '\U{000D}') || c == '\U{0020}' || c == '\U{0085}' || c == '\U{00A0}' ||
    c == '\U{1680}' || ('\U{2000}' <= c <= '\U{200A}') || c == '\U{2028}' || c == '\U{2029}' ||
    c == '\U{202F}' || c == '\U{205F}' || c == '\U{3000}'
  }

  /** string.IsNullOrWhiteSpace (a Dafny string is never null). */
  predicate IsBlank(s: string) {
    forall i :: 0 <= i < |s| ==> IsWhiteSpace(s[i])
  }

  function TrimStart(s: string, chars: set<char>): (r: string)
    ensures |r| <= |s| && r == s[|s| - |r|..]
    ensures r == [] || r[0] !in chars
    ensures forall i :: 0 <= i < |s| - |r| ==> s[i] in chars
  {
    if s != [] && s[0] in chars then TrimStart(s[1..], chars) else s
  }

  function TrimEnd(s: string, chars: set<char>): (r: string)
    ensures |r| <= |s| && r == s[..|r|]
    ensures r == [] || r[|r| - 1] !in chars
    ensures forall i :: |r| <= i < |s| ==> s[i] in chars
  {
    if s != [] && s[|s| - 1] in chars then TrimEnd(s[..|s| - 1], chars) else s
  }

  /** string.Trim(params char[] trimChars). */
  function Trim(s: string, chars: set<char>): string {
    TrimEnd(TrimStart(s, chars), chars)
  }

  lemma TrimUnfold(s: string, chars: set<char>)
    ensures Trim(s, chars) == TrimEnd(TrimStart(s, chars), chars)
  {
  }

  /** Trimming keeps every character that is not trimmed. */
  lemma TrimKeeps(s: string, chars: set<char>, i: int)
    requires 0 <= i < |s| && s[i] !in chars
    ensures s[i] in Trim(s, chars)
  {
    TrimUnfold(s, chars);
    var t := TrimStart(s, chars);
    var r := TrimEnd(t, chars);
    var j := i - (|s| - |t|);
    assert 0 <= j < |t| && t[j] == s[i];
    assert j < |r| && r[j] == t[j];
  }

  /** Trimming only whitespace keeps a string that is not blank non-blank. */
  lemma TrimNotBlank(s: string, chars: set<char>)
    requires !IsBlank(s) && forall c :: c in chars ==> IsWhiteSpace(c)
    ensures !IsBlank(Trim(s, chars))
  {
    var i :| 0 <= i < |s| && !IsWhiteSpace(s[i]);
    TrimKeeps(s, chars, i);
    var r := Trim(s, chars);
    var j :| 0 <= j < |r| && r[j] == s[i];
  }

  /** r is s[a..b], and everything of s outside a..b is a trimmed character. */
  predicate StrippedTo(s: string, chars: set<char>, r: string, a: int, b: int) {
    0 <= a <= b <= |s| && r == s[a..b] &&
    (forall i :: 0 <= i < a ==> s[i] in chars) &&
    (forall i :: b <= i < |s| ==> s[i] in chars)
  }

  /** Trimming strips exactly the leading and trailing run of trimmed characters. */
  lemma TrimSpec(s: string, chars: set<char>)
    ensures var r := Trim(s, chars);
      (r == [] || (r[0] !in chars && r[|r| - 1] !in chars)) && exists a, b :: StrippedTo(s, chars, r, a, b)
  {
    TrimUnfold(s, chars);
    var t := TrimStart(s, chars);
    var r := TrimEnd(t, chars);
    var a := |s| - |t|;
    SuffixStripped(s, chars, t, r, a);
    assert StrippedTo(s, chars, r, a, a + |r|);
    assert r != [] ==> r[0] == t[0];
  }

  /** Stripping a prefix of s and then a suffix of what is left strips a middle slice. */
  lemma SuffixStripped(s: string, chars: set<char>, t: string, r: string, a: int)
    requires 0 <= a <= |s| && t == s[a..] && (forall i :: 0 <= i < a ==> s[i] in chars)
    requires |r| <= |t| && r == t[..|r|] && (forall i :: |r| <= i < |t| ==> t[i] in chars)
    ensures StrippedTo(s, chars, r, a, a + |r|)
  {
    assert r == s[a..a + |r|];
    forall i | a + |r| <= i < |s| ensures s[i] in chars {
      assert s[i] == t[i - a];
    }
  }

  function StartsWith(s: string, prefix: string): bool {
    |prefix| <= |s| && s[..|prefix|] == prefix
  }

  /** `new string(s.TakeWhile(c => c != stop).ToArray())`. */
  function TakeUntil(s: string, stop: char): (r: string)
    ensures stop !in r
    ensures |r| <= |s| && r == s[..|r|]
    ensures |r| < |s| ==> s[|r|] == stop
  {
    if s == [] || s[0] == stop then []
    else
      var rest := TakeUntil(s[1..], stop);
      assert s[1..][..|rest|] == s[1..|rest| + 1];
      [s[0]] + rest
  }

  /** string.Split(separators, StringSplitOptions.RemoveEmptyEntries): the maximal runs
      of non-separator characters, in order. `current` is the run being read. */
  function SplitFrom(s: string, separators: set<char>, current: string): (r: seq<string>)
    requires forall i :: 0 <= i < |current| ==> current[i] !in separators
    ensures forall k :: 0 <= k < |r| ==> r[k] != [] && forall i :: 0 <= i < |r[k]| ==> r[k][i] !in separators
    decreases |s|
  {
    if s == [] then (if current == [] then [] else [current])
    else if s[0] in separators then
      (if current == [] then [] else [current]) + SplitFrom(s[1..], separators, [])
    else SplitFrom(s[1..], separators, current + [s[0]])
  }

  function Split(s: string, separators: set<char>): (r: seq<string>)
    ensures forall k :: 0 <= k < |r| ==> r[k] != [] && forall i :: 0 <= i < |r[k]| ==> r[k][i] !in separators
  {
    SplitFrom(s, separators, [])
  }

  /** string.Join(separator, parts). */
  function Join(separator: string, parts: seq<string>): string {
    if parts == [] then []
    else if |parts| == 1 then parts[0]
    else Join(separator, parts[..|parts| - 1]) + separator + parts[|parts| - 1]
  }

  /** Splitting on a character that no part contains gives the parts back; used to read
      the one-line-per-chain layout of the schema's text form. */
  function SplitOn(s: string, separator: char): (r: seq<string>)
    ensures |r| >= 1
    decreases |s|
  {
    if s == [] then [[]]
    else
      var rest := SplitOn(s[..|s| - 1], separator);
      if s[|s| - 1] == separator then rest + [[]]
      else rest[..|rest| - 1] + [rest[|rest| - 1] + [s[|s| - 1]]]
  }

  /** The parts with `t` appended to the last one. */
  function AppendToLast(r: seq<string>, t: string): (r': seq<string>)
    requires |r| >= 1
    ensures |r'| == |r| && r'[..|r| - 1] == r[..|r| - 1] && r'[|r| - 1] == r[|r| - 1] + t
  {
    r[..|r| - 1] + [r[|r| - 1] + t]
  }

  lemma AppendToLastTwice(r: seq<string>, a: string, b: string)
    requires |r| >= 1
    ensures AppendToLast(AppendToLast(r, a), b) == AppendToLast(r, a + b)
  {
    var r1, r2 := AppendToLast(r, a), AppendToLast(AppendToLast(r, a), b);
    assert r2[|r| - 1] == r[|r| - 1] + (a + b);
    assert r2 == r2[..|r| - 1] + [r2[|r| - 1]];
  }

  /** SplitOn one character further: a separator opens a new part, any other character
      extends the last part. */
  lemma SplitOnPush(u: string, c: char, separator: char)
    ensures SplitOn(u + [c], separator) ==
      if c == separator then SplitOn(u, separator) + [[]] else AppendToLast(SplitOn(u, separator), [c])
  {
    assert (u + [c])[..|u|] == u;
  }

  /** Text without the separator only extends the last part. */
  lemma {:induction false} SplitOnAppendPlain(s: string, t: string, separator: char)
    requires separator !in t
    ensures SplitOn(s + t, separator) == AppendToLast(SplitOn(s, separator), t)
    decreases |t|
  {
    if t == [] {
      SplitOnAppendNothing(s, separator);
    } else {
      var t', c := t[..|t| - 1], t[|t| - 1];
      assert c in t && t == t' + [c];
      SplitOnAppendPlain(s, t', separator);
      SplitOnAppendStep(s, t', c, separator);
    }
  }

  lemma SplitOnAppendNothing(s: string, separator: char)
    ensures SplitOn(s + [], separator) == AppendToLast(SplitOn(s, separator), [])
  {
    var r := SplitOn(s, separator);
    assert s + [] == s && r[|r| - 1] + [] == r[|r| - 1];
    assert r == r[..|r| - 1] + [r[|r| - 1]];
  }

  lemma SplitOnAppendStep(s: string, t: string, c: char, separator: char)
    requires c != separator
    requires SplitOn(s + t, separator) == AppendToLast(SplitOn(s, separator), t)
    ensures SplitOn(s + (t + [c]), separator) == AppendToLast(SplitOn(s, separator), t + [c])
  {
    assert s + (t + [c]) == (s + t) + [c];
    SplitOnPush(s + t, c, separator);
    AppendToLastTwice(SplitOn(s, separator), t, [c]);
  }

  lemma {:induction false} JoinSplitOn(parts: seq<string>, separator: char)
    requires |parts| >= 1
    requires forall k :: 0 <= k < |parts| ==> separator !in parts[k]
    ensures SplitOn(Join([separator], parts), separator) == parts
    decreases |parts|
  {
    if |parts| == 1 {
      SplitOnAppendPlain([], parts[0], separator);
      assert [] + parts[0] == parts[0];
    } else {
      var pre, last := parts[..|parts| - 1], parts[|parts| - 1];
      JoinSplitOn(pre, separator);
      JoinSplitOnStep(pre, last, separator);
      assert pre + [last] == parts;
    }
  }

  lemma JoinSplitOnStep(pre: seq<string>, last: string, separator: char)
    requires |pre| >= 1 && separator !in last
    requires SplitOn(Join([separator], pre), separator) == pre
    ensures SplitOn(Join([separator], pre + [last]), separator) == pre + [last]
  {
    var parts := pre + [last];
    assert parts[..|parts| - 1] == pre && parts[|parts| - 1] == last;
    var js := Join([separator], pre) + [separator];
    assert Join([separator], parts) == js + last;
    SplitOnPush(Join([separator], pre), separator, separator);
    SplitOnAppendPlain(js, last, separator);
    assert [] + last == last;
    assert (pre + [[]])[..|pre|] == pre;
  }

  /** A character that neither the separator nor any part contains is not in the join. */
  lemma {:induction false} JoinExcludes(separator: string, parts: seq<string>, c: char)
    requires c !in separator
    requires forall k :: 0 <= k < |parts| ==> c !in parts[k]
    ensures c !in Join(separator, parts)
    decreases |parts|
  {
    if |parts| > 1 {
      JoinExcludes(separator, parts[..|parts| - 1], c);
    }
  }
}
