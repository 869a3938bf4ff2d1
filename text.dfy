/** Models of the Python `str` operations the chat endpoint relies on:
    `str.lower()`, `str.isspace()`, the substring test `p in s`, `str.split()`
    with no argument, `str.strip()` with no argument and `str(n)` for an
    integer; plus the line structure of a text (`s.split("\n")`), which is how
    the formatted catalog is read by the language model. */
module Text {

  // ---------------------------------------------------------------------------
  // Characters
  // ---------------------------------------------------------------------------

  /** Python's `str.isspace()` for one character: the ASCII controls TAB..CR
      and FS..US, SPACE, NEL, NO-BREAK SPACE and the Unicode space separators. */
  predicate IsSpace(c: char)
  {
    c == ' ' || ('\t' <= c <= '\r') || ('\U{1C}' <= c <= '\U{1F}')
    || c == '\U{85}' || c == '\U{A0}' || c == '\U{1680}'
    || ('\U{2000}' <= c <= '\U{200A}') || c == '\U{2028}' || c == '\U{2029}'
    || c == '\U{202F}' || c == '\U{205F}' || c == '\U{3000}'
  }

  /** The upper-case letters whose lower-case form lies 32 code points higher:
      A..Z and the Latin-1 capitals (À..Þ without the multiplication sign),
      which covers the accented capitals of Spanish. */
  predicate IsUpper(c: char)
  {
    ('A' <= c <= 'Z') || ('\U{C0}' <= c <= '\U{DE}' && c != '\U{D7}')
  }

  function LowerChar(c: char): char
  {
    if IsUpper(c) then (c as int + 32) as char else c
  }

  /** `s.lower()`, on the letters `IsUpper` describes: the same length, no
      capital left, and every other character kept as it is. */
  function Lower(s: string): (r: string)
    ensures |r| == |s|
    ensures forall i :: 0 <= i < |s| ==> !IsUpper(r[i])
    ensures forall i :: 0 <= i < |s| && !IsUpper(s[i]) ==> r[i] == s[i]
  {
    seq(|s|, i requires 0 <= i < |s| => LowerChar(s[i]))
  }

  predicate AllSpace(s: string)
  {
    forall i :: 0 <= i < |s| ==> IsSpace(s[i])
  }

  predicate NoSpace(s: string)
  {
    forall i :: 0 <= i < |s| ==> !IsSpace(s[i])
  }

  lemma LowerHasNoUpper(s: string)
    ensures |Lower(s)| == |s|
    ensures forall i :: 0 <= i < |s| ==> !IsUpper(Lower(s)[i])
  {
  }

  lemma {:induction false} LowerIdempotent(s: string)
    ensures Lower(Lower(s)) == Lower(s)
  {
    var l := Lower(s);
    forall i | 0 <= i < |s|
      ensures Lower(l)[i] == l[i]
    {
      assert !IsUpper(l[i]);
    }
  }

  /** Lower-casing never creates or removes whitespace. */
  lemma LowerKeepsSpaces(s: string)
    ensures forall i :: 0 <= i < |s| ==> (IsSpace(Lower(s)[i]) <==> IsSpace(s[i]))
  {
  }

  lemma {:induction false} LowerAppend(a: string, b: string)
    ensures Lower(a + b) == Lower(a) + Lower(b)
  {
    assert forall i :: 0 <= i < |a| ==> (a + b)[i] == a[i];
    assert forall i :: |a| <= i < |a| + |b| ==> (a + b)[i] == b[i - |a|];
  }

  // ---------------------------------------------------------------------------
  // Substrings: Python's `pattern in text`
  // ---------------------------------------------------------------------------

  /** `pattern in text`: the pattern occurs at some position of the text. */
  predicate Contains(text: string, pattern: string)
  {
    exists i :: 0 <= i <= |text| - |pattern| && OccursAt(text, pattern, i)
  }

  /** The pattern occurs in the text starting at position `i`. */
  predicate OccursAt(text: string, pattern: string, i: int)
  {
    0 <= i && i + |pattern| <= |text| && text[i..i + |pattern|] == pattern
  }

  /** What stands between two texts occurs right after the first. */
  lemma OccursInMiddle(a: string, b: string, c: string)
    ensures OccursAt(a + b + c, b, |a|)
  {
    assert (a + b + c)[|a|..|a| + |b|] == b;
  }

  // ---------------------------------------------------------------------------
  // Concatenation
  // ---------------------------------------------------------------------------

  lemma AppendAssoc<T>(a: seq<T>, b: seq<T>, c: seq<T>)
    ensures (a + b) + c == a + (b + c)
  {
  }

  lemma PrefixOfAppend<T>(a: seq<T>, b: seq<T>)
    ensures (a + b)[..|a|] == a && (a + b)[|a|..] == b
    ensures a <= a + b
  {
  }

  lemma SliceOfSuffix<T>(s: seq<T>, i: nat, n: nat)
    requires i + n <= |s|
    ensures s[i..][..n] == s[i..i + n]
  {
    forall k | 0 <= k < n
      ensures s[i..][..n][k] == s[i + k]
    {
    }
  }

  /** The texts `f` gives for the elements, one after another. */
  function ConcatMap<T>(f: T -> string, xs: seq<T>): string
  {
    if xs == [] then [] else f(xs[0]) + ConcatMap(f, xs[1..])
  }

  lemma {:induction false} ConcatMapAppend<T>(f: T -> string, a: seq<T>, b: seq<T>)
    ensures ConcatMap(f, a + b) == ConcatMap(f, a) + ConcatMap(f, b)
  {
    if a == [] {
      assert a + b == b;
    } else {
      assert (a + b)[1..] == a[1..] + b;
      ConcatMapAppend(f, a[1..], b);
    }
  }

  lemma ConcatMapSingle<T>(f: T -> string, x: T)
    ensures ConcatMap(f, [x]) == f(x)
  {
    assert [x][1..] == [];
  }

  /** The pieces up to element `i`: those before it, then its own. */
  lemma ConcatMapSnoc<T>(f: T -> string, xs: seq<T>, i: nat)
    requires i < |xs|
    ensures ConcatMap(f, xs[..i + 1]) == ConcatMap(f, xs[..i]) + f(xs[i])
  {
    assert xs[..i + 1] == xs[..i] + [xs[i]];
    ConcatMapAppend(f, xs[..i], [xs[i]]);
    ConcatMapSingle(f, xs[i]);
  }

  /** The pieces before element `i`, its own, and those after it. */
  lemma ConcatMapAround<T>(f: T -> string, xs: seq<T>, i: nat)
    requires i < |xs|
    ensures ConcatMap(f, xs) == (ConcatMap(f, xs[..i]) + f(xs[i])) + ConcatMap(f, xs[i + 1..])
  {
    assert xs == xs[..i + 1] + xs[i + 1..];
    ConcatMapAppend(f, xs[..i + 1], xs[i + 1..]);
    ConcatMapSnoc(f, xs, i);
  }

  /** Whatever a text contains, its lower-cased form contains lower-cased. */
  lemma {:induction false} LowerContains(text: string, pattern: string)
    requires Contains(text, pattern)
    ensures Contains(Lower(text), Lower(pattern))
  {
    var i :| 0 <= i <= |text| - |pattern| && OccursAt(text, pattern, i);
    assert Lower(text)[i..i + |pattern|] == Lower(pattern);
    assert OccursAt(Lower(text), Lower(pattern), i);
  }

  /** A text made only of whitespace contains no pattern that starts with a
      character that is not whitespace. */
  lemma {:induction false} SpacesContainNoWord(text: string, pattern: string)
    requires AllSpace(text)
    requires pattern != [] && !IsSpace(pattern[0])
    ensures !Contains(text, pattern)
  {
    forall i | 0 <= i <= |text| - |pattern|
      ensures !OccursAt(text, pattern, i)
    {
      assert IsSpace(text[i]);
      assert text[i..i + |pattern|][0] == text[i];
    }
  }

  // ---------------------------------------------------------------------------
  // Splitting into words: Python's `s.split()`
  // ---------------------------------------------------------------------------

  /** The number of whitespace characters `s` starts with. */
  function LeadingSpaces(s: string): (n: nat)
    ensures n <= |s|
    ensures forall j :: 0 <= j < n ==> IsSpace(s[j])
    ensures n < |s| ==> !IsSpace(s[n])
  {
    if s == [] || !IsSpace(s[0]) then 0 else 1 + LeadingSpaces(s[1..])
  }

  /** The number of characters before the first whitespace character of `s`. */
  function WordLength(s: string): (n: nat)
    ensures n <= |s|
    ensures forall j :: 0 <= j < n ==> !IsSpace(s[j])
    ensures n < |s| ==> IsSpace(s[n])
  {
    if s == [] || IsSpace(s[0]) then 0 else 1 + WordLength(s[1..])
  }

  /** `s.split()`: the maximal runs of non-whitespace characters, in order. */
  function Words(s: string): (ws: seq<string>)
    ensures forall k :: 0 <= k < |ws| ==> ws[k] != [] && NoSpace(ws[k])
    decreases |s|
  {
    if s == [] then []
    else if IsSpace(s[0]) then Words(s[1..])
    else
      var n := WordLength(s);
      [s[..n]] + Words(s[n..])
  }

  /** The characters of `s` that are not whitespace, in order. */
  function NonSpace(s: string): string
  {
    if s == [] then []
    else (if IsSpace(s[0]) then [] else [s[0]]) + NonSpace(s[1..])
  }

  function Concat(ws: seq<string>): string
  {
    if ws == [] then [] else ws[0] + Concat(ws[1..])
  }

  lemma {:induction false} NonSpaceAppend(a: string, b: string)
    ensures NonSpace(a + b) == NonSpace(a) + NonSpace(b)
    decreases |a|
  {
    if a != [] {
      assert (a + b)[1..] == a[1..] + b;
      NonSpaceAppend(a[1..], b);
    } else {
      assert a + b == b;
    }
  }

  lemma {:induction false} NonSpaceOfSpaces(s: string)
    requires AllSpace(s)
    ensures NonSpace(s) == []
    decreases |s|
  {
    if s != [] {
      NonSpaceOfSpaces(s[1..]);
    }
  }

  lemma {:induction false} NonSpaceOfWord(s: string)
    requires NoSpace(s)
    ensures NonSpace(s) == s
    decreases |s|
  {
    if s != [] {
      NonSpaceOfWord(s[1..]);
    }
  }

  /** Splitting loses only the whitespace: the words, glued together, are the
      non-whitespace characters of the text. */
  lemma {:induction false} WordsKeepAllLetters(s: string)
    ensures Concat(Words(s)) == NonSpace(s)
    decreases |s|
  {
    if s == [] {
    } else if IsSpace(s[0]) {
      WordsKeepAllLetters(s[1..]);
    } else {
      var n := WordLength(s);
      var rest := s[n..];
      var ws := Words(s);
      assert ws == [s[..n]] + Words(rest);
      assert ws[1..] == Words(rest);
      assert s == s[..n] + rest;
      NonSpaceAppend(s[..n], rest);
      NonSpaceOfWord(s[..n]);
      WordsKeepAllLetters(rest);
    }
  }

  /** `s.split()` is empty exactly when the text is empty or all whitespace. */
  lemma {:induction false} WordsEmptyIff(s: string)
    ensures Words(s) == [] <==> AllSpace(s)
    decreases |s|
  {
    if s != [] && IsSpace(s[0]) {
      WordsEmptyIff(s[1..]);
      assert AllSpace(s) <==> AllSpace(s[1..]);
    }
  }

  /** A run of non-whitespace characters is a single word: `split()` never
      cuts inside a word. */
  lemma WordsOfWord(w: string)
    requires w != [] && NoSpace(w)
    ensures Words(w) == [w]
  {
    var n := WordLength(w);
    assert n == |w|;
    assert w[..n] == w;
  }

  /** A whitespace character always separates: the words on either side of
      it are split apart, and it belongs to neither. */
  lemma {:induction false} WordsAtSpace(a: string, c: char, b: string)
    requires IsSpace(c)
    ensures Words(a + [c] + b) == Words(a) + Words(b)
    decreases |a|
  {
    var s := a + [c] + b;
    if a == [] {
      assert s[1..] == b;
    } else if IsSpace(a[0]) {
      assert s[1..] == a[1..] + [c] + b;
      WordsAtSpace(a[1..], c, b);
    } else {
      var n := WordLength(a);
      WordLengthBeforeSpace(a, c, b);
      assert s[..n] == a[..n];
      assert s[n..] == a[n..] + [c] + b;
      WordsAtSpace(a[n..], c, b);
    }
  }

  /** The first word of `a` is the first word of `a` followed by whitespace
      and anything else. */
  lemma WordLengthBeforeSpace(a: string, c: char, b: string)
    requires IsSpace(c)
    ensures WordLength(a + [c] + b) == WordLength(a)
  {
    var s := a + [c] + b;
    var n := WordLength(a);
    var m := WordLength(s);
    assert forall j :: 0 <= j < |a| ==> s[j] == a[j];
    assert s[n] == if n < |a| then a[n] else c;
  }

  lemma OccursInSuffix(s: string, d: nat, w: string, q: nat)
    requires d <= |s|
    requires OccursAt(s[d..], w, q)
    ensures OccursAt(s, w, d + q)
  {
    forall j | 0 <= j < |w|
      ensures s[d + q + j] == w[j]
    {
      assert s[d..][q..q + |w|][j] == w[j];
    }
  }

  /** Every word is a substring of the text it was split from; `p` is where. */
  lemma {:induction false} WordOccurs(s: string, k: nat) returns (p: nat)
    requires k < |Words(s)|
    ensures OccursAt(s, Words(s)[k], p)
    decreases |s|
  {
    if IsSpace(s[0]) {
      var q := WordOccurs(s[1..], k);
      OccursInSuffix(s, 1, Words(s[1..])[k], q);
      p := 1 + q;
    } else {
      var n := WordLength(s);
      var rest := s[n..];
      var ws := Words(s);
      assert ws == [s[..n]] + Words(rest);
      if k == 0 {
        p := 0;
      } else {
        assert ws[k] == Words(rest)[k - 1];
        var q := WordOccurs(rest, k - 1);
        OccursInSuffix(s, n, ws[k], q);
        p := n + q;
      }
    }
  }

  lemma WordsOccur(s: string)
    ensures forall k :: 0 <= k < |Words(s)| ==> Contains(s, Words(s)[k])
  {
    forall k | 0 <= k < |Words(s)|
      ensures Contains(s, Words(s)[k])
    {
      var p := WordOccurs(s, k);
    }
  }

  // ---------------------------------------------------------------------------
  // Stripping: Python's `s.strip()`
  // ---------------------------------------------------------------------------

  /** The number of whitespace characters `s` ends with. */
  function TrailingSpaces(s: string): (n: nat)
    ensures n <= |s|
    ensures forall j :: |s| - n <= j < |s| ==> IsSpace(s[j])
    ensures n < |s| ==> !IsSpace(s[|s| - 1 - n])
  {
    if s == [] || !IsSpace(s[|s| - 1]) then 0
    else
      1 + TrailingSpaces(s[..|s| - 1])
  }

  /** `s.strip()`: the text without its leading and trailing whitespace. */
  function Strip(s: string): (r: string)
    ensures |r| <= |s|
    ensures r != [] ==> !IsSpace(r[0]) && !IsSpace(r[|r| - 1])
  {
    var t := s[LeadingSpaces(s)..];
    t[..|t| - TrailingSpaces(t)]
  }

  /** What `strip()` returns: a slice `s[i..j]` of the text with only
      whitespace before and after it, that neither starts nor ends with
      whitespace. */
  lemma StripIsTrimmedSlice(s: string)
    ensures var i := LeadingSpaces(s);
            var j := i + |Strip(s)|;
            && j <= |s| && Strip(s) == s[i..j]
            && (forall k :: 0 <= k < i ==> IsSpace(s[k]))
            && (forall k :: j <= k < |s| ==> IsSpace(s[k]))
    ensures Strip(s) != [] ==> !IsSpace(Strip(s)[0]) && !IsSpace(Strip(s)[|Strip(s)| - 1])
  {
    var i := LeadingSpaces(s);
    var t := s[i..];
    var m := TrailingSpaces(t);
    StripSlice(s, i, m);
    TrailingOfSuffix(s, i, m);
  }

  lemma StripSlice(s: string, i: nat, m: nat)
    requires i == LeadingSpaces(s) && m == TrailingSpaces(s[i..])
    ensures i + m <= |s|
    ensures Strip(s) == s[i..|s| - m]
  {
    SliceOfSuffix(s, i, |s| - i - m);
  }

  /** The spaces a suffix of `s` ends with are spaces at the end of `s`. */
  lemma TrailingOfSuffix(s: string, i: nat, m: nat)
    requires i <= |s| && m == TrailingSpaces(s[i..])
    ensures forall k :: |s| - m <= k < |s| ==> IsSpace(s[k])
  {
    var t := s[i..];
    forall k | |s| - m <= k < |s|
      ensures IsSpace(s[k])
    {
      assert s[k] == t[k - i];
    }
  }

  /** A text that neither starts nor ends with whitespace is left as it is. */
  lemma StripKeepsTrimmed(s: string)
    requires s == [] || (!IsSpace(s[0]) && !IsSpace(s[|s| - 1]))
    ensures Strip(s) == s
  {
  }

  /** Stripping twice strips nothing more. */
  lemma StripIdempotent(s: string)
    ensures Strip(Strip(s)) == Strip(s)
  {
    StripIsTrimmedSlice(s);
    StripKeepsTrimmed(Strip(s));
  }

  // ---------------------------------------------------------------------------
  // Decimal rendering: Python's `str(n)` for an integer
  // ---------------------------------------------------------------------------

  predicate IsDigit(c: char)
  {
    '0' <= c <= '9'
  }

  function DigitChar(d: nat): (c: char)
    requires d < 10
    ensures IsDigit(c) && c as int - '0' as int == d
  {
    (d + '0' as int) as char
  }

  /** The decimal digits of `n`, most significant first, with no leading zero. */
  function NatToString(n: nat): (r: string)
    ensures r != [] && (r[0] == '0' ==> n == 0 && r == "0")
    ensures forall k :: 0 <= k < |r| ==> IsDigit(r[k])
    decreases n
  {
    if n < 10 then [DigitChar(n)] else NatToString(n / 10) + [DigitChar(n % 10)]
  }

  /** `str(n)`: a minus sign for negative numbers, then the digits. */
  function IntToString(n: int): (r: string)
    ensures r != []
    ensures forall k :: 0 <= k < |r| ==> IsDigit(r[k]) || (k == 0 && r[k] == '-')
  {
    if n < 0 then "-" + NatToString(-n) else NatToString(n)
  }

  /** The value of a string of decimal digits (reference reading of `str`). */
  function DigitsValue(s: string): nat
    requires forall k :: 0 <= k < |s| ==> IsDigit(s[k])
  {
    if s == [] then 0
    else
      var last := s[|s| - 1];
      assert IsDigit(last);
      DigitsValue(s[..|s| - 1]) * 10 + (last as int - '0' as int)
  }

  /** `int(s)` for what `str` produces. */
  function ParseInt(s: string): int
    requires s != []
    requires forall k :: 0 <= k < |s| ==> IsDigit(s[k]) || (k == 0 && s[k] == '-')
  {
    if s[0] == '-' then 0 - DigitsValue(s[1..]) else DigitsValue(s)
  }

  lemma {:induction false} NatToStringValue(n: nat)
    ensures DigitsValue(NatToString(n)) == n
    decreases n
  {
    if n >= 10 {
      var r := NatToString(n);
      assert r[..|r| - 1] == NatToString(n / 10);
      NatToStringValue(n / 10);
    }
  }

  /** The rendered stock count reads back as the same integer. */
  lemma IntToStringRoundTrip(n: int)
    ensures ParseInt(IntToString(n)) == n
  {
    if n < 0 {
      assert IntToString(n)[1..] == NatToString(-n);
      NatToStringValue(-n);
    } else {
      NatToStringValue(n);
    }
  }

  // ---------------------------------------------------------------------------
  // Lines: how a multi-line text reads, `s.split("\n")`
  // ---------------------------------------------------------------------------

  predicate NoNewline(s: string)
  {
    forall i :: 0 <= i < |s| ==> s[i] != '\n'
  }

  /** `s.split("\n")`: the pieces between newline characters; always at least one. */
  function Lines(s: string): (ls: seq<string>)
    ensures |ls| >= 1
  {
    if s == [] then [""]
    else
      var rest := Lines(s[1..]);
      if s[0] == '\n' then [""] + rest else [[s[0]] + rest[0]] + rest[1..]
  }

  /** Each line followed by a newline character, as the formatter writes them. */
  function JoinLines(ls: seq<string>): string
  {
    if ls == [] then [] else ls[0] + "\n" + JoinLines(ls[1..])
  }

  /** `c * n`: the character repeated `n` times. */
  function Repeat(c: char, n: nat): (r: string)
    ensures |r| == n && forall k :: 0 <= k < n ==> r[k] == c
  {
    if n == 0 then [] else [c] + Repeat(c, n - 1)
  }

  /** Occurrence is transitive: what occurs in a part occurs in the whole. */
  lemma OccursWithin(text: string, part: string, i: nat, pattern: string, j: nat)
    requires OccursAt(text, part, i)
    requires OccursAt(part, pattern, j)
    ensures OccursAt(text, pattern, i + j)
  {
    forall k | 0 <= k < |pattern|
      ensures text[i + j + k] == pattern[k]
    {
      assert text[i..i + |part|][j + k] == part[j + k];
      assert part[j..j + |pattern|][k] == pattern[k];
    }
  }

  /** Where line `k` starts in the joined text. */
  function LineStart(ls: seq<string>, k: nat): nat
    requires k <= |ls|
  {
    if k == 0 then 0 else |ls[0]| + 1 + LineStart(ls[1..], k - 1)
  }

  /** Line `k` occurs in the joined text at its start position. */
  lemma {:induction false} JoinedLineAt(ls: seq<string>, k: nat)
    requires k < |ls|
    ensures OccursAt(JoinLines(ls), ls[k], LineStart(ls, k))
  {
    var text := JoinLines(ls);
    var head := ls[0] + "\n";
    assert text == head + JoinLines(ls[1..]);
    if k == 0 {
      assert text[..|ls[0]|] == ls[0];
    } else {
      JoinedLineAt(ls[1..], k - 1);
      var q := LineStart(ls[1..], k - 1);
      assert JoinLines(ls[1..]) == text[|head|..];
      OccursInSuffix(text, |head|, ls[k], q);
    }
  }

  lemma {:induction false} JoinLinesAppend(a: seq<string>, b: seq<string>)
    ensures JoinLines(a + b) == JoinLines(a) + JoinLines(b)
  {
    if a != [] {
      assert (a + b)[1..] == a[1..] + b;
      JoinLinesAppend(a[1..], b);
    } else {
      assert a + b == b;
    }
  }

  /** A newline-free piece followed by a newline reads as one line. */
  lemma {:induction false} LinesAfterLine(line: string, rest: string)
    requires NoNewline(line)
    ensures Lines(line + "\n" + rest) == [line] + Lines(rest)
    decreases |line|
  {
    var s := line + "\n" + rest;
    if line == [] {
      assert s[1..] == rest;
    } else {
      assert s[1..] == line[1..] + "\n" + rest;
      LinesAfterLine(line[1..], rest);
      assert [s[0]] + line[1..] == line;
    }
  }

  /** Newline-free lines joined by `JoinLines` read back as those lines. */
  lemma {:induction false} LinesOfJoin(ls: seq<string>, rest: string)
    requires forall k :: 0 <= k < |ls| ==> NoNewline(ls[k])
    ensures Lines(JoinLines(ls) + rest) == ls + Lines(rest)
  {
    if ls == [] {
      assert JoinLines(ls) + rest == rest;
    } else {
      var tail := JoinLines(ls[1..]) + rest;
      AppendAssoc(ls[0] + "\n", JoinLines(ls[1..]), rest);
      LinesAfterLine(ls[0], tail);
      LinesOfJoin(ls[1..], rest);
      AppendAssoc([ls[0]], ls[1..], Lines(rest));
      assert ls == [ls[0]] + ls[1..];
    }
  }
}
