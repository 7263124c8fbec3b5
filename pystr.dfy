/** The parts of Python's `str` and text files that the torrc handling relies on:
    `strip()`, `split()`, `split(maxsplit=1)`, `split(sep)`, `startswith`, `in`,
    `splitlines()`, `"\n".join`, `readlines()` and `writelines()`. */
module PyStr {

  /** `c.isspace()`: the characters CPython strips in `strip()` and splits on in `split()`. */
  predicate IsSpace(c: char) {
    c == ' ' || ('\t' <= c <= '\r') || ('\U{1C}' <= c <= '\U{1F}')
    || c == '\U{85}' || c == '\U{A0}' || c == '\U{1680}'
    || ('\U{2000}' <= c <= '\U{200A}') || c == '\U{2028}' || c == '\U{2029}'
    || c == '\U{202F}' || c == '\U{205F}' || c == '\U{3000}'
  }

  predicate NoSpace(s: string) {
    forall i :: 0 <= i < |s| ==> !IsSpace(s[i])
  }

  predicate AllSpace(s: string) {
    forall i :: 0 <= i < |s| ==> IsSpace(s[i])
  }

  /** A word as `split()` yields it: non-empty and free of whitespace. */
  predicate IsToken(s: string) {
    s != [] && NoSpace(s)
  }

  /** A string that `strip()` leaves alone: empty, or framed by non-whitespace. */
  predicate Framed(s: string) {
    s == [] || (!IsSpace(s[0]) && !IsSpace(s[|s| - 1]))
  }

  /** A word is left alone by `strip()` and holds no newline. */
  lemma TokenFramed(w: string)
    requires IsToken(w)
    ensures Framed(w) && '\n' !in w
  {
    assert IsSpace('\n');
  }

  /** Number of leading whitespace characters. */
  function LeadingSpace(s: string): (k: nat)
    ensures k <= |s|
    ensures forall i :: 0 <= i < k ==> IsSpace(s[i])
    ensures k < |s| ==> !IsSpace(s[k])
  {
    if s != [] && IsSpace(s[0]) then 1 + LeadingSpace(s[1..]) else 0
  }

  /** Index of the first whitespace character, |s| when there is none. */
  function WordEnd(s: string): (k: nat)
    ensures k <= |s|
    ensures forall i :: 0 <= i < k ==> !IsSpace(s[i])
    ensures k < |s| ==> IsSpace(s[k])
  {
    if s != [] && !IsSpace(s[0]) then 1 + WordEnd(s[1..]) else 0
  }

  /** Index of the first occurrence of `c`, |s| when there is none. */
  function IndexOf(s: string, c: char): (k: nat)
    ensures k <= |s|
    ensures forall i :: 0 <= i < k ==> s[i] != c
    ensures k < |s| ==> s[k] == c
  {
    if s != [] && s[0] != c then 1 + IndexOf(s[1..], c) else 0
  }

  function LStrip(s: string): string {
    s[LeadingSpace(s)..]
  }

  /** `s.strip()`: whitespace removed from both ends. */
  function Strip(s: string): string
    decreases |s|
  {
    if s != [] && IsSpace(s[0]) then Strip(s[1..])
    else if s != [] && IsSpace(s[|s| - 1]) then Strip(s[..|s| - 1])
    else s
  }

  /** What `strip()` returns: at most `s`, framed, and empty exactly when `s` is all
      whitespace. */
  lemma {:induction false} StripShape(s: string)
    ensures Framed(Strip(s))
    ensures |Strip(s)| <= |s|
    ensures Strip(s) == [] <==> AllSpace(s)
    decreases |s|
  {
    if s != [] && IsSpace(s[0]) {
      StripShape(s[1..]);
      assert AllSpace(s) <==> AllSpace(s[1..]) by {
        if AllSpace(s[1..]) {
          forall i | 0 <= i < |s| ensures IsSpace(s[i]) {
            if i > 0 { assert s[i] == s[1..][i - 1]; }
          }
        }
      }
    } else if s != [] && IsSpace(s[|s| - 1]) {
      // s[0] is not whitespace, so neither s nor s minus its last character is all whitespace
      StripShape(s[..|s| - 1]);
      assert s[..|s| - 1][0] == s[0];
    } else if s != [] {
      assert !IsSpace(s[0]);
    }
  }

  /** Whitespace around a framed string is exactly what `strip()` removes. */
  lemma {:induction false} StripFramed(w1: string, t: string, w2: string)
    requires AllSpace(w1) && AllSpace(w2) && Framed(t)
    ensures Strip(w1 + t + w2) == t
    decreases |w1| + |w2|
  {
    var s := w1 + t + w2;
    if w1 != [] {
      assert s[0] == w1[0];
      assert s[1..] == w1[1..] + t + w2;
      StripFramed(w1[1..], t, w2);
    } else if t != [] {
      assert s == t + w2;
      assert s[0] == t[0];
      if w2 != [] {
        assert s[|s| - 1] == w2[|w2| - 1];
        assert s[..|s| - 1] == [] + t + w2[..|w2| - 1];
        StripFramed([], t, w2[..|w2| - 1]);
      } else {
        assert s == t;
      }
    } else if w2 != [] {
      assert s == w2;
      assert s[1..] == [] + [] + w2[1..];
      StripFramed([], [], w2[1..]);
    } else {
      assert s == [];
    }
  }

  lemma StripOfFramed(t: string)
    requires Framed(t)
    ensures Strip(t) == t
  {
    StripFramed([], t, []);
    assert [] + t + [] == t;
  }

  /** `s.split()` with no arguments: the maximal runs of non-whitespace characters, in order. */
  function Split(s: string): (r: seq<string>)
    ensures forall i :: 0 <= i < |r| ==> IsToken(r[i])
    ensures r == [] <==> AllSpace(s)
    decreases |s|
  {
    var n := LeadingSpace(s);
    var t := LStrip(s);
    if t == [] then
      assert AllSpace(s);
      []
    else
      var k := WordEnd(t);
      assert !IsSpace(t[0]) && t[0] == s[n];
      FirstWordIsToken(t);
      var rest := Split(t[k..]);
      ConsTokens(t[..k], rest);
      [t[..k]] + rest
  }

  lemma ConsTokens(w: string, rest: seq<string>)
    requires IsToken(w) && forall i :: 0 <= i < |rest| ==> IsToken(rest[i])
    ensures forall i :: 0 <= i < |[w] + rest| ==> IsToken(([w] + rest)[i])
  {
  }

  /** The first word of a string that starts with no whitespace is a word. */
  lemma FirstWordIsToken(t: string)
    requires t != [] && !IsSpace(t[0])
    ensures WordEnd(t) > 0 && IsToken(t[..WordEnd(t)])
  {
    var k := WordEnd(t);
    forall i | 0 <= i < k ensures !IsSpace(t[..k][i]) {
      assert t[..k][i] == t[i];
    }
  }

  /** `s.split(maxsplit=1)`: the first word, then the rest of the string after the
      whitespace that follows it, trailing whitespace included. */
  function SplitOnce(s: string): (r: seq<string>)
    ensures |r| <= 2
    ensures |r| > 0 ==> IsToken(r[0])
    ensures |r| == 2 ==> r[1] != [] && !IsSpace(r[1][0])
  {
    var t := LStrip(s);
    if t == [] then []
    else
      var k := WordEnd(t);
      assert !IsSpace(t[0]);
      var rest := LStrip(t[k..]);
      if rest == [] then [t[..k]] else [t[..k], rest]
  }

  lemma SplitOfLStrip(s: string)
    ensures Split(LStrip(s)) == Split(s)
  {
    var k := LeadingSpace(s);
    var t := s[k..];
    assert LeadingSpace(t) == 0 by {
      if t != [] { assert t[0] == s[k]; }
    }
    assert t[0..] == t;
  }

  /** `split(maxsplit=1)` splits where `split()` first splits: same first word, and the
      rest splits into the remaining words. */
  lemma {:induction false} SplitOnceAgreesWithSplit(s: string)
    ensures |SplitOnce(s)| == (if |Split(s)| < 2 then |Split(s)| else 2)
    ensures |Split(s)| > 0 ==> SplitOnce(s)[0] == Split(s)[0]
    ensures |SplitOnce(s)| == 2 ==> Split(SplitOnce(s)[1]) == Split(s)[1..]
  {
    var t := LStrip(s);
    if t != [] {
      var k := WordEnd(t);
      assert !IsSpace(t[0]);
      SplitOfLStrip(t[k..]);
    }
  }

  /** A word followed by a space: `split()` yields the word, then the words of the rest. */
  lemma SplitWordThenSpace(a: string, rest: string)
    requires IsToken(a)
    ensures Split(a + " " + rest) == [a] + Split(rest)
  {
    var s := a + " " + rest;
    assert s[0] == a[0];
    assert LeadingSpace(s) == 0;
    assert s[0..] == s;
    var k := WordEnd(s);
    assert IsSpace(s[|a|]);
    assert k == |a|;
    assert s[..k] == a;
    assert s[k..] == " " + rest;
    var u := " " + rest;
    assert LeadingSpace(u) == 1 + LeadingSpace(rest) by { assert u[1..] == rest; }
    assert LStrip(u) == LStrip(rest) by { assert u[1..] == rest; }
    SplitOfLStrip(u);
    SplitOfLStrip(rest);
  }

  lemma SplitWord(a: string)
    requires IsToken(a)
    ensures Split(a) == [a]
  {
    assert a[0] == a[0];
    assert LeadingSpace(a) == 0;
    assert a[0..] == a;
    assert WordEnd(a) == |a|;
    assert a[..|a|] == a;
    assert a[|a|..] == [];
  }

  /** A word, a space, and a framed non-empty rest: `split(maxsplit=1)` gives back both. */
  lemma SplitOnceWordThenSpace(a: string, rest: string)
    requires IsToken(a) && rest != [] && !IsSpace(rest[0])
    ensures SplitOnce(a + " " + rest) == [a, rest]
  {
    var s := a + " " + rest;
    assert s[0] == a[0];
    assert LeadingSpace(s) == 0;
    assert s[0..] == s;
    var k := WordEnd(s);
    assert IsSpace(s[|a|]);
    assert k == |a|;
    assert s[..k] == a;
    var u := s[k..];
    assert u == " " + rest;
    assert u[1] == rest[0];
    assert LeadingSpace(u) == 1;
    assert u[1..] == rest;
  }

  /** A whitespace run in front of a string that does not start with whitespace is
      exactly what `LStrip` removes. */
  lemma {:induction false} LeadingSpaceOf(ws: string, t: string)
    requires AllSpace(ws) && (t == [] || !IsSpace(t[0]))
    ensures LeadingSpace(ws + t) == |ws| && LStrip(ws + t) == t
    decreases |ws|
  {
    var s := ws + t;
    if ws == [] {
      assert s == t;
      assert s[0..] == t;
    } else {
      assert s[0] == ws[0];
      assert s[1..] == ws[1..] + t;
      LeadingSpaceOf(ws[1..], t);
      assert s[|ws|..] == t;
    }
  }

  /** A word ends where the whitespace after it, or the string, begins. */
  lemma {:induction false} WordEndOf(w: string, t: string)
    requires NoSpace(w) && (t == [] || IsSpace(t[0]))
    ensures WordEnd(w + t) == |w|
    decreases |w|
  {
    var s := w + t;
    if w == [] {
      assert s == t;
    } else {
      assert s[0] == w[0];
      assert s[1..] == w[1..] + t;
      WordEndOf(w[1..], t);
    }
  }

  /** Leading whitespace, a word, and a rest that is empty or starts with whitespace:
      `split()` yields the word, then the words of the rest. */
  lemma SplitGapWord(ws: string, w: string, rest: string)
    requires AllSpace(ws) && IsToken(w) && (rest == [] || IsSpace(rest[0]))
    ensures Split(ws + w + rest) == [w] + Split(rest)
  {
    var t := w + rest;
    assert ws + w + rest == ws + t;
    assert t[0] == w[0];
    LeadingSpaceOf(ws, t);
    WordEndOf(w, rest);
    assert t[..|w|] == w && t[|w|..] == rest;
  }

  /** `gaps[0] + words[0] + gaps[1] + ... + words[n-1] + gaps[n]`. */
  function Spaced(gaps: seq<string>, words: seq<string>): string
    requires |gaps| == |words| + 1
  {
    if words == [] then gaps[0] else gaps[0] + words[0] + Spaced(gaps[1..], words[1..])
  }

  /** Whitespace runs to put around and between words: any run, empty ones included, at
      the ends, and non-empty runs between two words. */
  predicate Gaps(gaps: seq<string>, words: seq<string>) {
    && |gaps| == |words| + 1
    && (forall i :: 0 <= i < |gaps| ==> AllSpace(gaps[i]))
    && (forall i :: 0 < i < |words| ==> gaps[i] != [])
  }

  /** `split()` takes apart any spacing of words: runs of any whitespace of any length
      between them, and any whitespace around them, give back exactly the words. */
  lemma {:induction false} SplitSpaced(gaps: seq<string>, words: seq<string>)
    requires Gaps(gaps, words)
    requires forall i :: 0 <= i < |words| ==> IsToken(words[i])
    ensures Split(Spaced(gaps, words)) == words
    decreases |words|
  {
    if words != [] {
      SpacedTail(gaps, words);
      SplitGapWord(gaps[0], words[0], Spaced(gaps[1..], words[1..]));
      SplitSpaced(gaps[1..], words[1..]);
    }
  }

  /** After the first word, the spacing goes on with whitespace or ends. */
  lemma SpacedTail(gaps: seq<string>, words: seq<string>)
    requires Gaps(gaps, words) && words != []
    ensures Gaps(gaps[1..], words[1..])
    ensures AllSpace(gaps[0])
    ensures var rest := Spaced(gaps[1..], words[1..]);
      Spaced(gaps, words) == gaps[0] + words[0] + rest && (rest == [] || IsSpace(rest[0]))
  {
    var rest := Spaced(gaps[1..], words[1..]);
    if |words| == 1 {
      assert rest == gaps[1];
    } else {
      assert gaps[1] != [];
      assert rest[0] == gaps[1][0];
    }
    forall i | 0 < i < |words| - 1 ensures gaps[1..][i] != [] {
      assert gaps[1..][i] == gaps[i + 1];
    }
  }

  /** `split(maxsplit=1)` on any spacing: whitespace, a word, then either only whitespace
      (one part) or a non-empty whitespace run and a rest that starts with no whitespace
      (two parts, the rest kept as it is, trailing whitespace included). */
  lemma SplitOnceSpaced(ws0: string, w: string, ws1: string, rest: string)
    requires AllSpace(ws0) && IsToken(w) && AllSpace(ws1)
    requires rest == [] || (ws1 != [] && !IsSpace(rest[0]))
    ensures SplitOnce(ws0 + w + ws1 + rest) == if rest == [] then [w] else [w, rest]
  {
    var t := w + ws1 + rest;
    assert ws0 + w + ws1 + rest == ws0 + t;
    assert t[0] == w[0];
    LeadingSpaceOf(ws0, t);
    assert t == w + (ws1 + rest);
    if ws1 != [] {
      assert (ws1 + rest)[0] == ws1[0];
    } else {
      assert ws1 + rest == [];
    }
    WordEndOf(w, ws1 + rest);
    assert t[..|w|] == w && t[|w|..] == ws1 + rest;
    LeadingSpaceOf(ws1, rest);
  }

  /** `s.startswith(p)`. */
  predicate StartsWith(s: string, p: string) {
    |p| <= |s| && s[..|p|] == p
  }

  lemma StartsWithFirst(s: string, p: string)
    requires StartsWith(s, p) && p != []
    ensures s != [] && s[0] == p[0]
  {
    assert s[..|p|][0] == s[0];
  }

  /** A string whose first character differs from p's does not start with p. */
  lemma StartsWithFirstChar(t: string, p: string)
    requires p != [] && t != [] && t[0] != p[0]
    ensures !StartsWith(t, p)
  {
    if StartsWith(t, p) {
      StartsWithFirst(t, p);
    }
  }

  /** A word at the front survives `strip()`: only whitespace after it can be removed. */
  lemma {:induction false} StripKeepsLeadingWord(p: string, x: string)
    requires IsToken(p)
    ensures StartsWith(Strip(p + x), p)
    decreases |x|
  {
    var s := p + x;
    assert s[0] == p[0];
    if x != [] && IsSpace(x[|x| - 1]) {
      assert s[|s| - 1] == x[|x| - 1];
      assert s[..|s| - 1] == p + x[..|x| - 1];
      StripKeepsLeadingWord(p, x[..|x| - 1]);
    } else {
      if x != [] {
        assert s[|s| - 1] == x[|x| - 1];
      } else {
        assert s == p;
        assert !IsSpace(p[|p| - 1]);
      }
      assert s[..|p|] == p;
    }
  }

  /** `sub in s`. */
  predicate Contains(s: string, sub: string)
    decreases |s|
  {
    StartsWith(s, sub) || (s != [] && Contains(s[1..], sub))
  }

  lemma {:induction false} ContainsSuffix(a: string, b: string)
    ensures Contains(a + b, b)
  {
    if a == [] {
      assert a + b == b;
      assert b[..|b|] == b;
    } else {
      assert (a + b)[1..] == a[1..] + b;
      ContainsSuffix(a[1..], b);
    }
  }

  /** The characters `str.splitlines()` breaks lines at. */
  predicate IsLineBreak(c: char) {
    c == '\n' || c == '\r' || c == '\U{0B}' || c == '\U{0C}' || ('\U{1C}' <= c <= '\U{1E}')
    || c == '\U{85}' || c == '\U{2028}' || c == '\U{2029}'
  }

  predicate NoLineBreak(s: string) {
    forall i :: 0 <= i < |s| ==> !IsLineBreak(s[i])
  }

  /** Index of the first line break, |s| when there is none. */
  function LineEnd(s: string): (k: nat)
    ensures k <= |s|
    ensures forall i :: 0 <= i < k ==> !IsLineBreak(s[i])
    ensures k < |s| ==> IsLineBreak(s[k])
  {
    if s != [] && !IsLineBreak(s[0]) then 1 + LineEnd(s[1..]) else 0
  }

  /** `s.splitlines()`: "\r\n" counts as one break, and a final break ends the last line
      rather than starting an empty one. */
  function SplitLines(s: string): (r: seq<string>)
    ensures forall i :: 0 <= i < |r| ==> NoLineBreak(r[i])
    decreases |s|
  {
    if s == [] then []
    else
      var k := LineEnd(s);
      if k == |s| then [s]
      else if s[k] == '\r' && k + 1 < |s| && s[k + 1] == '\n' then [s[..k]] + SplitLines(s[k + 2..])
      else [s[..k]] + SplitLines(s[k + 1..])
  }

  /** `"\n".join(lines)`. */
  function JoinLines(lines: seq<string>): string {
    if lines == [] then []
    else if |lines| == 1 then lines[0]
    else lines[0] + "\n" + JoinLines(lines[1..])
  }

  /** Joining lines that hold no line break and ending with "\n" is undone by `splitlines()`. */
  lemma {:induction false} SplitLinesOfJoin(lines: seq<string>)
    requires |lines| > 0
    requires forall i :: 0 <= i < |lines| ==> NoLineBreak(lines[i])
    ensures SplitLines(JoinLines(lines) + "\n") == lines
  {
    var l := lines[0];
    var rest := if |lines| == 1 then [] else JoinLines(lines[1..]) + "\n";
    var s := l + "\n" + rest;
    assert JoinLines(lines) + "\n" == s;
    var k := LineEnd(s);
    assert IsLineBreak(s[|l|]);
    assert k == |l| && s[k] == '\n';
    assert s[..k] == l;
    assert s[k + 1..] == rest;
    if |lines| > 1 {
      SplitLinesOfJoin(lines[1..]);
      assert lines == [l] + lines[1..];
    }
  }

  /** ... and the same without the final newline, when the last line is not empty. */
  lemma {:induction false} SplitLinesOfJoinLines(lines: seq<string>)
    requires |lines| > 0 && lines[|lines| - 1] != []
    requires forall i :: 0 <= i < |lines| ==> NoLineBreak(lines[i])
    ensures SplitLines(JoinLines(lines)) == lines
  {
    var l := lines[0];
    if |lines| == 1 {
      assert LineEnd(l) == |l|;
    } else {
      var rest := JoinLines(lines[1..]);
      var s := l + "\n" + rest;
      assert JoinLines(lines) == s;
      assert IsLineBreak(s[|l|]);
      var k := LineEnd(s);
      assert k == |l| && s[k] == '\n';
      assert s[..k] == l;
      assert s[k + 1..] == rest;
      SplitLinesOfJoinLines(lines[1..]);
      assert lines == [l] + lines[1..];
    }
  }

  /** A join ends with the last character of its last line. */
  lemma {:induction false} JoinLinesLast(lines: seq<string>)
    requires |lines| > 0 && lines[|lines| - 1] != []
    ensures var j := JoinLines(lines); var z := lines[|lines| - 1];
      j != [] && j[|j| - 1] == z[|z| - 1]
  {
    if |lines| > 1 {
      JoinLinesLast(lines[1..]);
    }
  }

  /** `s.split(sep)` for a one-character separator: the pieces between separators, empty
      pieces included; there is always at least one piece. */
  function SplitOn(s: string, sep: char): (r: seq<string>)
    ensures |r| >= 1
    ensures forall i :: 0 <= i < |r| ==> sep !in r[i]
    decreases |s|
  {
    var k := IndexOf(s, sep);
    if k == |s| then [s] else [s[..k]] + SplitOn(s[k + 1..], sep)
  }

  /** `sep.join(pieces)` for a one-character separator. */
  function JoinOn(pieces: seq<string>, sep: char): string {
    if pieces == [] then []
    else if |pieces| == 1 then pieces[0]
    else pieces[0] + [sep] + JoinOn(pieces[1..], sep)
  }

  /** Joining the pieces of `split(sep)` with `sep` gives the string back. */
  lemma {:induction false} JoinOnSplitOn(s: string, sep: char)
    ensures JoinOn(SplitOn(s, sep), sep) == s
    decreases |s|
  {
    var k := IndexOf(s, sep);
    if k < |s| {
      var rest := SplitOn(s[k + 1..], sep);
      var pieces := [s[..k]] + rest;
      assert SplitOn(s, sep) == pieces;
      assert |pieces| > 1 && pieces[0] == s[..k] && pieces[1..] == rest;
      assert JoinOn(pieces, sep) == s[..k] + [sep] + JoinOn(rest, sep);
      JoinOnSplitOn(s[k + 1..], sep);
      assert s == s[..k] + [sep] + s[k + 1..];
    }
  }

  /** ... and splitting a join of separator-free pieces gives the pieces back. */
  lemma {:induction false} SplitOnJoinOn(pieces: seq<string>, sep: char)
    requires |pieces| >= 1
    requires forall i :: 0 <= i < |pieces| ==> sep !in pieces[i]
    ensures SplitOn(JoinOn(pieces, sep), sep) == pieces
  {
    var p := pieces[0];
    if |pieces| == 1 {
      assert IndexOf(p, sep) == |p|;
    } else {
      var s := JoinOn(pieces, sep);
      assert s == p + [sep] + JoinOn(pieces[1..], sep);
      var k := IndexOf(s, sep);
      assert s[|p|] == sep;
      assert k == |p|;
      assert s[..k] == p;
      assert s[k + 1..] == JoinOn(pieces[1..], sep);
      SplitOnJoinOn(pieces[1..], sep);
      assert pieces == [p] + pieces[1..];
    }
  }

  /** `split()` of words joined by single spaces gives the words back. */
  lemma {:induction false} SplitJoinOnSpace(words: seq<string>)
    requires forall i :: 0 <= i < |words| ==> IsToken(words[i])
    ensures Split(JoinOn(words, ' ')) == words
  {
    if |words| == 1 {
      SplitWord(words[0]);
    } else if |words| > 1 {
      var rest := JoinOn(words[1..], ' ');
      assert JoinOn(words, ' ') == words[0] + " " + rest;
      SplitWordThenSpace(words[0], rest);
      SplitJoinOnSpace(words[1..]);
      assert words == [words[0]] + words[1..];
    }
  }

  /** Joining pieces free of line breaks with a separator that is none gives a string
      free of line breaks, starting with the first piece's first character. */
  lemma {:induction false} JoinOnNoLineBreak(pieces: seq<string>, sep: char)
    requires !IsLineBreak(sep)
    requires forall i :: 0 <= i < |pieces| ==> NoLineBreak(pieces[i])
    ensures NoLineBreak(JoinOn(pieces, sep))
    ensures |pieces| > 0 && pieces[0] != [] ==> JoinOn(pieces, sep) != [] && JoinOn(pieces, sep)[0] == pieces[0][0]
  {
    if |pieces| > 1 {
      var p, r := pieces[0], JoinOn(pieces[1..], sep);
      JoinOnNoLineBreak(pieces[1..], sep);
      var j := p + [sep] + r;
      assert JoinOn(pieces, sep) == j;
      forall k | 0 <= k < |j|
        ensures !IsLineBreak(j[k])
      {
        if k < |p| {
          assert j[k] == p[k];
        } else if k > |p| {
          assert j[k] == r[k - |p| - 1];
        }
      }
    }
  }

  /** `s.replace(x, y)` for single characters. */
  function ReplaceChar(s: string, x: char, y: char): string {
    seq(|s|, i requires 0 <= i < |s| => if s[i] == x then y else s[i])
  }

  /** Replacing a separator the pieces do not contain swaps the separator of their join. */
  lemma {:induction false} ReplaceJoinOn(pieces: seq<string>, x: char, y: char)
    requires forall i :: 0 <= i < |pieces| ==> x !in pieces[i]
    ensures ReplaceChar(JoinOn(pieces, x), x, y) == JoinOn(pieces, y)
  {
    if |pieces| == 1 {
      assert ReplaceChar(pieces[0], x, y) == pieces[0];
    } else if |pieces| > 1 {
      var p, r := pieces[0], JoinOn(pieces[1..], x);
      ReplaceJoinOn(pieces[1..], x, y);
      var s := p + [x] + r;
      assert ReplaceChar(s, x, y) == p + [y] + ReplaceChar(r, x, y) by {
        forall i | 0 <= i < |s|
          ensures ReplaceChar(s, x, y)[i] == (p + [y] + ReplaceChar(r, x, y))[i]
        {
          if i < |p| {
            assert s[i] == p[i];
          } else if i > |p| {
            assert s[i] == r[i - |p| - 1];
          }
        }
      }
    }
  }

  /** `replace` applied to each string of a sequence. */
  function ReplaceEach(ss: seq<string>, x: char, y: char): (r: seq<string>)
    ensures |r| == |ss|
  {
    seq(|ss|, i requires 0 <= i < |ss| => ReplaceChar(ss[i], x, y))
  }

  /** `replace` works character by character, so it distributes over concatenation. */
  lemma ReplaceConcat(a: string, b: string, x: char, y: char)
    ensures ReplaceChar(a + b, x, y) == ReplaceChar(a, x, y) + ReplaceChar(b, x, y)
  {
    var l, r := ReplaceChar(a + b, x, y), ReplaceChar(a, x, y) + ReplaceChar(b, x, y);
    forall i | 0 <= i < |l| ensures l[i] == r[i] {
      if i >= |a| {
        assert (a + b)[i] == b[i - |a|];
      }
    }
  }

  /** Replacing a character the words do not contain changes only the gaps around them. */
  lemma {:induction false} ReplaceSpaced(gaps: seq<string>, words: seq<string>, x: char, y: char)
    requires |gaps| == |words| + 1
    requires forall i :: 0 <= i < |words| ==> x !in words[i]
    ensures ReplaceChar(Spaced(gaps, words), x, y) == Spaced(ReplaceEach(gaps, x, y), words)
  {
    var rg := ReplaceEach(gaps, x, y);
    if words == [] {
      assert rg[0] == ReplaceChar(gaps[0], x, y);
    } else {
      var rest := Spaced(gaps[1..], words[1..]);
      ReplaceSpaced(gaps[1..], words[1..], x, y);
      assert rg[1..] == ReplaceEach(gaps[1..], x, y);
      ReplaceConcat(gaps[0] + words[0], rest, x, y);
      ReplaceConcat(gaps[0], words[0], x, y);
      assert ReplaceChar(words[0], x, y) == words[0];
      assert rg[0] == ReplaceChar(gaps[0], x, y);
    }
  }

  function LowerChar(c: char): char {
    if 'A' <= c <= 'Z' then (c as int + 32) as char else c
  }

  /** `s.lower()` on ASCII letters. */
  function Lower(s: string): string {
    seq(|s|, i requires 0 <= i < |s| => LowerChar(s[i]))
  }

  /** `s.isdigit()` on ASCII digits: non-empty and digits only. */
  predicate IsDigits(s: string) {
    s != [] && forall i :: 0 <= i < |s| ==> '0' <= s[i] <= '9'
  }

  /** `int(s)` for a string of ASCII digits. */
  function DecimalValue(s: string): nat
    requires forall i :: 0 <= i < |s| ==> '0' <= s[i] <= '9'
  {
    if s == [] then 0 else 10 * DecimalValue(s[..|s| - 1]) + (s[|s| - 1] as int - '0' as int)
  }

  /** `file.readlines()` on text whose newlines are "\n": every line keeps its "\n", and
      only the last line may lack one. */
  function ReadLines(s: string): (r: seq<string>)
    ensures Concat(r) == s
    ensures forall i :: 0 <= i < |r| ==> r[i] != []
    ensures forall i :: 0 <= i < |r| - 1 ==> Terminated(r[i])
    decreases |s|
  {
    if s == [] then []
    else
      var k := IndexOf(s, '\n');
      if k == |s| then [s]
      else
        var line := s[..k + 1];
        assert line[..|line| - 1] == s[..k];
        [line] + ReadLines(s[k + 1..])
  }

  /** Text without a "\n" is read as one line. */
  lemma ReadLinesOneLine(s: string)
    requires s != [] && '\n' !in s
    ensures ReadLines(s) == [s]
  {
  }

  /** `file.writelines(lines)`: the content written is the concatenation. */
  function Concat(lines: seq<string>): string {
    if lines == [] then [] else lines[0] + Concat(lines[1..])
  }

  /** A line as `readlines()` yields it when a "\n" follows: exactly one "\n", at its end. */
  predicate Terminated(line: string) {
    line != [] && line[|line| - 1] == '\n' && '\n' !in line[..|line| - 1]
  }

  lemma {:induction false} ConcatAppend(a: seq<string>, b: seq<string>)
    ensures Concat(a + b) == Concat(a) + Concat(b)
  {
    if a != [] {
      assert (a + b)[1..] == a[1..] + b;
      ConcatAppend(a[1..], b);
    } else {
      assert a + b == b;
    }
  }

  /** Text that is empty or ends with "\n" reads as terminated lines only. */
  lemma {:induction false} ReadLinesTerminated(s: string)
    requires s == [] || s[|s| - 1] == '\n'
    ensures forall i :: 0 <= i < |ReadLines(s)| ==> Terminated(ReadLines(s)[i])
    decreases |s|
  {
    if s != [] {
      var k := IndexOf(s, '\n');
      assert k < |s|;
      var rest := s[k + 1..];
      assert rest != [] ==> rest[|rest| - 1] == s[|s| - 1];
      ReadLinesTerminated(rest);
    }
  }

  /** Writing terminated lines and reading them back gives the same lines. */
  lemma {:induction false} ReadLinesConcat(lines: seq<string>)
    requires forall i :: 0 <= i < |lines| ==> Terminated(lines[i])
    ensures ReadLines(Concat(lines)) == lines
  {
    if lines != [] {
      var l := lines[0];
      var s := Concat(lines);
      assert s == l + Concat(lines[1..]);
      var k := IndexOf(s, '\n');
      assert s[|l| - 1] == '\n';
      assert k == |l| - 1;
      assert s[..k + 1] == l;
      assert s[k + 1..] == Concat(lines[1..]);
      ReadLinesConcat(lines[1..]);
      assert lines == [l] + lines[1..];
    }
  }
}
