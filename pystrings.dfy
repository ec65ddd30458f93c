/**
 * The Python string built-ins that the chunker and the summarizer rely on:
 * `str.isspace` on one character, `str.strip()`, `str.replace('\n', ' ')`,
 * `str.split('. ')` (with `'. '.join` as its inverse) and `str.split()` with
 * no argument (the list of whitespace-separated words).
 */
module PyStrings {

  /** Python's `str.isspace()` on one character: the characters that `str.strip()`
      and `str.split()` treat as whitespace. */
  predicate IsSpace(c: char) {
    var n := c as int;
    (0x09 <= n <= 0x0D) || (0x1C <= n <= 0x20) || n == 0x85 || n == 0xA0 || n == 0x1680
    || (0x2000 <= n <= 0x200A) || n == 0x2028 || n == 0x2029 || n == 0x202F
    || n == 0x205F || n == 0x3000
  }

  /** Every character is whitespace (`not s.strip()` in Python). */
  predicate AllSpace(s: string) {
    forall i :: 0 <= i < |s| ==> IsSpace(s[i])
  }

  /** No character is whitespace. */
  predicate NoSpace(s: string) {
    forall i :: 0 <= i < |s| ==> !IsSpace(s[i])
  }

  predicate NoNewline(s: string) {
    forall i :: 0 <= i < |s| ==> s[i] != '\n'
  }

  lemma AllSpaceConcat(a: string, b: string)
    ensures AllSpace(a + b) <==> AllSpace(a) && AllSpace(b)
  {
    if AllSpace(a + b) {
      forall i | 0 <= i < |a| ensures IsSpace(a[i]) {
        assert (a + b)[i] == a[i];
      }
      forall i | 0 <= i < |b| ensures IsSpace(b[i]) {
        assert (a + b)[|a| + i] == b[i];
      }
    }
  }

  // ---------------------------------------------------------------------------
  // str.strip()

  /** Length of the longest all-whitespace prefix. */
  function LeadingSpaces(s: string): (n: nat)
    ensures n <= |s|
    ensures AllSpace(s[..n])
    ensures n < |s| ==> !IsSpace(s[n])
    decreases |s|
  {
    if s != [] && IsSpace(s[0]) then
      var n' := LeadingSpaces(s[1..]);
      assert s[..1 + n'] == [s[0]] + s[1..][..n'];
      1 + n'
    else 0
  }

  /** Length of the longest all-whitespace suffix. */
  function TrailingSpaces(s: string): (n: nat)
    ensures n <= |s|
    ensures AllSpace(s[|s| - n..])
    ensures n < |s| ==> !IsSpace(s[|s| - n - 1])
    decreases |s|
  {
    if s != [] && IsSpace(s[|s| - 1]) then
      var init := s[..|s| - 1];
      var n' := TrailingSpaces(init);
      assert s[|s| - (1 + n')..] == init[|init| - n'..] + [s[|s| - 1]];
      AllSpaceConcat(init[|init| - n'..], [s[|s| - 1]]);
      assert n' < |init| ==> s[|s| - (1 + n') - 1] == init[|init| - n' - 1];
      1 + n'
    else 0
  }

  /** Python's `s.strip()`: the result is the contiguous piece of `s` left after
      removing leading and trailing whitespace; it is empty exactly when `s` is
      all whitespace, and otherwise starts and ends with a non-space. */
  function Strip(s: string): (r: string)
    ensures |r| <= |s| - LeadingSpaces(s)
    ensures r == s[LeadingSpaces(s)..LeadingSpaces(s) + |r|]
    ensures AllSpace(s[LeadingSpaces(s) + |r|..])
    ensures r == [] <==> AllSpace(s)
    ensures r != [] ==> !IsSpace(r[0]) && !IsSpace(r[|r| - 1])
  {
    var t := s[LeadingSpaces(s)..];
    StripEmptyIff(s, t);
    t[..|t| - TrailingSpaces(t)]
  }

  lemma StripEmptyIff(s: string, t: string)
    requires t == s[LeadingSpaces(s)..]
    ensures TrailingSpaces(t) == |t| <==> AllSpace(s)
  {
    var lead := LeadingSpaces(s);
    if AllSpace(s) {
      assert t == [];
    } else {
      var k :| 0 <= k < |s| && !IsSpace(s[k]);
      LeadingSpacesBefore(s, k);
      TrailingSpacesNotAll(t, k - lead);
    }
  }

  lemma LeadingSpacesBefore(s: string, k: nat)
    requires k < |s| && !IsSpace(s[k])
    ensures LeadingSpaces(s) <= k
  {
    var lead := LeadingSpaces(s);
    forall i | 0 <= i < lead ensures IsSpace(s[i]) {
      assert s[..lead][i] == s[i];
    }
  }

  lemma TrailingSpacesNotAll(t: string, k: nat)
    requires k < |t| && !IsSpace(t[k])
    ensures TrailingSpaces(t) < |t|
  {
    var n := TrailingSpaces(t);
    forall i | |t| - n <= i < |t| ensures IsSpace(t[i]) {
      assert t[|t| - n..][i - (|t| - n)] == t[i];
    }
  }

  lemma StripNoNewline(s: string)
    requires NoNewline(s)
    ensures NoNewline(Strip(s))
  {
    var r := Strip(s);
    var lead := LeadingSpaces(s);
    forall i | 0 <= i < |r| ensures r[i] != '\n' {
      assert r[i] == s[lead + i];
    }
  }

  /** Stripping `x + ". "` keeps at least the final period: the result is not
      empty, ends with '.', and is at most one character longer than `x`. */
  lemma {:induction false} StripPeriodSpace(x: string)
    ensures Strip(x + ". ") != []
    ensures Strip(x + ". ")[|Strip(x + ". ")| - 1] == '.'
    ensures |Strip(x + ". ")| <= |x| + 1
  {
    var s := x + ". ";
    assert s[|x|] == '.';
    var lead := LeadingSpaces(s);
    assert forall i :: 0 <= i < lead ==> IsSpace(s[i]) by {
      forall i | 0 <= i < lead ensures IsSpace(s[i]) { assert s[..lead][i] == s[i]; }
    }
    assert lead <= |x|;
    var t := s[lead..];
    assert t[|t| - 1] == ' ' && t[|t| - 2] == '.';
    assert t[..|t| - 1][|t| - 2] == '.';
    assert TrailingSpaces(t[..|t| - 1]) == 0;
    assert TrailingSpaces(t) == 1;
  }

  /** Stripping a string with non-space ends, followed by one space, gives
      the string back. */
  lemma StripOneTrailingSpace(s: string)
    requires s != [] && !IsSpace(s[0]) && !IsSpace(s[|s| - 1])
    ensures Strip(s + " ") == s
  {
    var t := s + " ";
    assert t[0] == s[0];
    assert LeadingSpaces(t) == 0;
    assert t[0..] == t;
    assert t[..|t| - 1] == s;
    assert TrailingSpaces(s) == 0;
    assert TrailingSpaces(t) == 1;
  }

  // ---------------------------------------------------------------------------
  // str.replace('\n', ' ')

  /** Python's `s.replace('\n', ' ')`: the same string with every newline turned
      into a space and every other character kept where it was. */
  function ReplaceNewlines(s: string): (r: string)
    ensures |r| == |s|
    ensures forall i :: 0 <= i < |s| ==> r[i] == (if s[i] == '\n' then ' ' else s[i])
    ensures NoNewline(r)
  {
    if s == [] then []
    else [if s[0] == '\n' then ' ' else s[0]] + ReplaceNewlines(s[1..])
  }

  /** Replacing the newlines of a string that has none changes nothing. */
  lemma ReplaceNewlinesUnchanged(s: string)
    requires NoNewline(s)
    ensures ReplaceNewlines(s) == s
  {
  }

  // ---------------------------------------------------------------------------
  // str.split('. ') and '. '.join

  /** The delimiter on which the chunker splits sentences. */
  const Delimiter: string := ". "

  /** `u` contains no occurrence of the delimiter ". ". */
  predicate NoDelimiter(u: string) {
    forall k :: 0 <= k < |u| - 1 ==> !(u[k] == '.' && u[k + 1] == ' ')
  }

  /** Python's `s.split('. ')`: cut `s` at every occurrence of ". ", scanning
      left to right, occurrences not overlapping. */
  function SplitOnDelimiter(s: string): (units: seq<string>)
    ensures |units| >= 1
    ensures units[0] <= s
    decreases |s|
  {
    if Delimiter <= s then [""] + SplitOnDelimiter(s[|Delimiter|..])
    else if s == [] then [""]
    else
      var rest := SplitOnDelimiter(s[1..]);
      [[s[0]] + rest[0]] + rest[1..]
  }

  /** Python's `'. '.join(units)`. */
  function JoinWithDelimiter(units: seq<string>): string {
    if |units| == 0 then ""
    else if |units| == 1 then units[0]
    else units[0] + Delimiter + JoinWithDelimiter(units[1..])
  }

  /** Splitting loses nothing: joining the units back with ". " gives `s`. */
  lemma {:induction false} JoinSplit(s: string)
    ensures JoinWithDelimiter(SplitOnDelimiter(s)) == s
    decreases |s|
  {
    var units := SplitOnDelimiter(s);
    if Delimiter <= s {
      JoinSplit(s[2..]);
      assert units[1..] == SplitOnDelimiter(s[2..]);
      assert s == Delimiter + s[2..];
    } else if s != [] {
      var rest := SplitOnDelimiter(s[1..]);
      JoinSplit(s[1..]);
      assert units[1..] == rest[1..];
      if |rest| == 1 {
        assert s == [s[0]] + s[1..];
      } else {
        assert JoinWithDelimiter(rest) == rest[0] + Delimiter + JoinWithDelimiter(rest[1..]);
        assert s == [s[0]] + s[1..];
      }
    }
  }

  /** Joining one more unit adds the delimiter and the unit at the end. */
  lemma {:induction false} JoinSnoc(units: seq<string>, last: string)
    requires units != []
    ensures JoinWithDelimiter(units + [last]) == JoinWithDelimiter(units) + Delimiter + last
    decreases |units|
  {
    if |units| == 1 {
      assert units + [last] == [units[0], last];
      assert [units[0], last][1..] == [last];
    } else {
      JoinSnoc(units[1..], last);
      assert (units + [last])[1..] == units[1..] + [last];
    }
  }

  /** No unit of a split contains the delimiter. */
  lemma {:induction false} SplitNoDelimiter(s: string)
    ensures forall i :: 0 <= i < |SplitOnDelimiter(s)| ==> NoDelimiter(SplitOnDelimiter(s)[i])
    decreases |s|
  {
    var units := SplitOnDelimiter(s);
    if Delimiter <= s {
      SplitNoDelimiter(s[2..]);
      assert units[1..] == SplitOnDelimiter(s[2..]);
      forall i | 1 <= i < |units| ensures NoDelimiter(units[i]) {
        assert units[i] == units[1..][i - 1];
      }
    } else if s != [] {
      var rest := SplitOnDelimiter(s[1..]);
      SplitNoDelimiter(s[1..]);
      var u := [s[0]] + rest[0];
      assert NoDelimiter(rest[0]);
      forall k | 0 <= k < |u| - 1 ensures !(u[k] == '.' && u[k + 1] == ' ') {
        if k == 0 {
          assert u[1] == rest[0][0] == s[1..][0] == s[1];
          assert s[..2] != Delimiter;
          assert s[..2] == [s[0], s[1]];
        } else {
          assert u[k] == rest[0][k - 1] && u[k + 1] == rest[0][k];
        }
      }
      forall i | 1 <= i < |units| ensures NoDelimiter(units[i]) {
        assert units[i] == rest[i];
      }
    }
  }

  /** A string with no newline splits into units with no newline. */
  lemma {:induction false} SplitNoNewline(s: string)
    requires NoNewline(s)
    ensures forall i :: 0 <= i < |SplitOnDelimiter(s)| ==> NoNewline(SplitOnDelimiter(s)[i])
    decreases |s|
  {
    var units := SplitOnDelimiter(s);
    if Delimiter <= s {
      assert NoNewline(s[2..]) by {
        forall i | 0 <= i < |s[2..]| ensures s[2..][i] != '\n' { assert s[2..][i] == s[i + 2]; }
      }
      SplitNoNewline(s[2..]);
      forall i | 1 <= i < |units| ensures NoNewline(units[i]) {
        assert units[i] == SplitOnDelimiter(s[2..])[i - 1];
      }
    } else if s != [] {
      assert NoNewline(s[1..]) by {
        forall i | 0 <= i < |s[1..]| ensures s[1..][i] != '\n' { assert s[1..][i] == s[i + 1]; }
      }
      var rest := SplitOnDelimiter(s[1..]);
      SplitNoNewline(s[1..]);
      var u := [s[0]] + rest[0];
      forall k | 0 <= k < |u| ensures u[k] != '\n' {
        if k > 0 { assert u[k] == rest[0][k - 1]; }
      }
      forall i | 1 <= i < |units| ensures NoNewline(units[i]) {
        assert units[i] == rest[i];
      }
    }
  }

  /** A string without the delimiter is its own single unit. */
  lemma {:induction false} SplitWithoutDelimiter(s: string)
    requires NoDelimiter(s)
    ensures SplitOnDelimiter(s) == [s]
    decreases |s|
  {
    if s != [] {
      assert !(Delimiter <= s) by {
        if |s| >= 2 { assert !(s[0] == '.' && s[1] == ' '); }
      }
      assert NoDelimiter(s[1..]) by {
        forall k | 0 <= k < |s[1..]| - 1 ensures !(s[1..][k] == '.' && s[1..][k + 1] == ' ') {
          assert s[1..][k] == s[k + 1] && s[1..][k + 1] == s[k + 2];
        }
      }
      SplitWithoutDelimiter(s[1..]);
      assert s == [s[0]] + s[1..];
    }
  }

  // ---------------------------------------------------------------------------
  // str.split() with no argument

  /** Length of the longest prefix without whitespace. */
  function WordLength(s: string): (n: nat)
    ensures n <= |s|
    ensures NoSpace(s[..n])
    ensures n < |s| ==> IsSpace(s[n])
    decreases |s|
  {
    if s != [] && !IsSpace(s[0]) then
      var n' := WordLength(s[1..]);
      assert s[..1 + n'] == [s[0]] + s[1..][..n'];
      1 + n'
    else 0
  }

  /** Python's `s.split()`: the maximal runs of non-whitespace characters, in
      order; every word is non-empty and holds no whitespace. */
  function Words(s: string): (words: seq<string>)
    ensures forall i :: 0 <= i < |words| ==> words[i] != [] && NoSpace(words[i])
    decreases |s|
  {
    var t := s[LeadingSpaces(s)..];
    if t == [] then []
    else
      var n := WordLength(t);
      [t[..n]] + Words(t[n..])
  }

  /** Reference count of words: the number of positions at which a word ends
      (a non-space followed by a space or by the end of the string). It is zero
      exactly when the string is all whitespace. */
  function WordCount(s: string): (n: nat)
    ensures n == 0 <==> AllSpace(s)
    decreases |s|
  {
    if s == [] then 0
    else
      (if !IsSpace(s[0]) && (|s| == 1 || IsSpace(s[1])) then 1 else 0) + WordCount(s[1..])
  }

  lemma {:induction false} WordCountSkipSpaces(s: string, n: nat)
    requires n <= |s| && AllSpace(s[..n])
    ensures WordCount(s) == WordCount(s[n..])
    decreases n
  {
    if n > 0 {
      assert IsSpace(s[..n][0]);
      assert s[1..][..n - 1] == s[1..n];
      var u := s[1..][..n - 1];
      forall i | 0 <= i < |u| ensures IsSpace(u[i]) {
        assert u[i] == s[..n][i + 1];
      }
      WordCountSkipSpaces(s[1..], n - 1);
      assert s[1..][n - 1..] == s[n..];
    }
  }

  lemma {:induction false} WordCountSkipWord(t: string, n: nat)
    requires 1 <= n <= |t| && NoSpace(t[..n])
    requires n < |t| ==> IsSpace(t[n])
    ensures WordCount(t) == 1 + WordCount(t[n..])
    decreases n
  {
    assert !IsSpace(t[..n][0]);
    if n == 1 {
      assert |t| > 1 ==> IsSpace(t[1]);
    } else {
      assert !IsSpace(t[..n][1]);
      var u := t[1..][..n - 1];
      forall i | 0 <= i < |u| ensures !IsSpace(u[i]) {
        assert u[i] == t[..n][i + 1];
      }
      WordCountSkipWord(t[1..], n - 1);
      assert t[1..][n - 1..] == t[n..];
    }
  }

  /** `len(s.split())` agrees with the reference word count. */
  lemma {:induction false} WordsCount(s: string)
    ensures |Words(s)| == WordCount(s)
    decreases |s|
  {
    var lead := LeadingSpaces(s);
    var t := s[lead..];
    WordCountSkipSpaces(s, lead);
    if t != [] {
      var n := WordLength(t);
      WordCountSkipWord(t, n);
      WordsCount(t[n..]);
    }
  }
}
