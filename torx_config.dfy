/** torx.py's torrc reader loop (torx.py:83-97) and rewriter loop (torx.py:116-149), as
    methods proved against the functions that say what they compute, and what follows
    from those functions: last match wins, read-after-write and idempotence. */
module TorxConfig {
  import opened Wrappers
  import opened PyStr
  import opened Torrc

  /** `parts[1] if len(parts) > 1 else None` with `parts = line.split()`. */
  function SecondWord(line: string): Option<string> {
    var parts := Split(line);
    if |parts| > 1 then Some(parts[1]) else None
  }

  /** `line.split(maxsplit=1)[1]` when there is one, else None: everything after the
      whitespace that follows the first word. */
  function AfterFirstWord(line: string): Option<string> {
    var parts := SplitOnce(line);
    if |parts| > 1 then Some(parts[1]) else None
  }

  /** One iteration of the read loop: blank and `#` lines are skipped; a directive line
      overwrites that directive's value, and one without a value resets it to None. */
  function Step(st: Settings, raw: string): Settings {
    var line := Strip(raw);
    if line == [] || StartsWith(line, "#") then st
    else if StartsWith(line, SocksPort) then st.(socksPort := SecondWord(line))
    else if StartsWith(line, ExitNodes) then st.(exitNodes := AfterFirstWord(line))
    else st
  }

  /** The pair the read loop ends with on `lines`. */
  function Parse(lines: seq<string>): Settings {
    if lines == [] then NoSettings else Step(Parse(lines[..|lines| - 1]), lines[|lines| - 1])
  }

  /** The read loop of `read_torrc`. */
  method ParseLines(lines: seq<string>) returns (socksPort: Option<string>, exitNodes: Option<string>)
    ensures Settings(socksPort, exitNodes) == Parse(lines)
  {
    socksPort, exitNodes := None, None;
    var i := 0;
    while i < |lines|
      invariant 0 <= i <= |lines|
      invariant Settings(socksPort, exitNodes) == Parse(lines[..i])
    {
      assert lines[..i + 1][..i] == lines[..i];
      var line := Strip(lines[i]);
      i := i + 1;
      if line == [] || StartsWith(line, "#") {
        continue;
      }
      if StartsWith(line, SocksPort) {
        var parts := Split(line);
        socksPort := if |parts| > 1 then Some(parts[1]) else None;
      } else if StartsWith(line, ExitNodes) {
        var parts := SplitOnce(line);
        exitNodes := if |parts| > 1 then Some(parts[1]) else None;
      }
    }
    assert lines[..|lines|] == lines;
  }

  /** How one line acts on the SocksPort value. */
  lemma StepSocks(st: Settings, raw: string)
    ensures IsSocksLine(raw) ==> Step(st, raw).socksPort == SecondWord(Strip(raw))
    ensures !IsSocksLine(raw) ==> Step(st, raw).socksPort == st.socksPort
  {
    KeywordsAreTokens();
    if IsSocksLine(raw) {
      StartsWithFirst(Strip(raw), SocksPort);
    }
  }

  /** How one line acts on the ExitNodes value. */
  lemma StepExit(st: Settings, raw: string)
    ensures IsExitLine(raw) ==> Step(st, raw).exitNodes == AfterFirstWord(Strip(raw))
    ensures !IsExitLine(raw) ==> Step(st, raw).exitNodes == st.exitNodes
  {
    KeywordsAreTokens();
    DirectivesExclusive(raw);
    if IsExitLine(raw) {
      StartsWithFirst(Strip(raw), ExitNodes);
    }
  }

  /** Last match wins: the SocksPort value is what the last SocksPort line gives (None if
      that line has no second word), whatever earlier lines said. */
  lemma {:induction false} LastSocksLineWins(lines: seq<string>, j: nat)
    requires j < |lines| && IsSocksLine(lines[j])
    requires forall k :: j < k < |lines| ==> !IsSocksLine(lines[k])
    ensures Parse(lines).socksPort == SecondWord(Strip(lines[j]))
    decreases |lines|
  {
    var n := |lines| - 1;
    assert lines == lines[..n] + [lines[n]];
    ParseSnocSocks(lines[..n], lines[n]);
    if j < n {
      LastSocksLineWins(lines[..n], j);
    }
  }

  /** No SocksPort line: the value is None. */
  lemma {:induction false} NoSocksLineReadsNone(lines: seq<string>)
    requires !HasSocksLine(lines)
    ensures Parse(lines).socksPort == None
    decreases |lines|
  {
    if lines != [] {
      var n := |lines| - 1;
      StepSocks(Parse(lines[..n]), lines[n]);
      assert !HasSocksLine(lines[..n]) by {
        forall k | 0 <= k < n ensures !IsSocksLine(lines[..n][k]) {
          assert lines[..n][k] == lines[k];
        }
      }
      NoSocksLineReadsNone(lines[..n]);
    }
  }

  /** Last match wins for ExitNodes too: the rest of the last ExitNodes line, or None. */
  lemma {:induction false} LastExitLineWins(lines: seq<string>, j: nat)
    requires j < |lines| && IsExitLine(lines[j])
    requires forall k :: j < k < |lines| ==> !IsExitLine(lines[k])
    ensures Parse(lines).exitNodes == AfterFirstWord(Strip(lines[j]))
    decreases |lines|
  {
    var n := |lines| - 1;
    assert lines == lines[..n] + [lines[n]];
    ParseSnocExit(lines[..n], lines[n]);
    if j < n {
      LastExitLineWins(lines[..n], j);
    }
  }

  /** No ExitNodes line: the value is None. */
  lemma {:induction false} NoExitLineReadsNone(lines: seq<string>)
    requires !HasExitLine(lines)
    ensures Parse(lines).exitNodes == None
    decreases |lines|
  {
    if lines != [] {
      var n := |lines| - 1;
      StepExit(Parse(lines[..n]), lines[n]);
      assert !HasExitLine(lines[..n]) by {
        forall k | 0 <= k < n ensures !IsExitLine(lines[..n][k]) {
          assert lines[..n][k] == lines[k];
        }
      }
      NoExitLineReadsNone(lines[..n]);
    }
  }

  /** `if new_value:` in modify_torrc: None and "" both mean "not provided". */
  function Provided(v: Option<string>): Option<string> {
    if v.Some? && v.value != "" then v else None
  }

  /** A directive line whose stripped text is not the text that replaces it
      (the comparisons on torx.py:127 and 134). */
  predicate Differs(raw: string, socks: Option<string>, exit: Option<string>) {
    if IsSocksLine(raw) then socks.Some? && Strip(raw) != DirectiveText(SocksPort, socks.value)
    else if IsExitLine(raw) then exit.Some? && Strip(raw) != DirectiveText(ExitNodes, exit.value)
    else false
  }

  /** The final value of the `modified` flag. */
  predicate NeedsWrite(lines: seq<string>, socks: Option<string>, exit: Option<string>) {
    (exists i :: 0 <= i < |lines| && Differs(lines[i], socks, exit))
    || SocksAppendix(lines, socks) != [] || ExitAppendix(lines, exit) != []
  }

  /** One pass of the rewrite loop's body: the line to emit, whether `raw` is a SocksPort
      or an ExitNodes line, and whether it changes once stripped. */
  method RewriteOne(raw: string, newSocksPort: Option<string>, newExitNodes: Option<string>)
    returns (line: string, isSocks: bool, isExit: bool, changed: bool)
    ensures line == RewriteLine(raw, Provided(newSocksPort), Provided(newExitNodes))
    ensures isSocks == IsSocksLine(raw) && isExit == IsExitLine(raw)
    ensures changed == Differs(raw, Provided(newSocksPort), Provided(newExitNodes))
  {
    DirectivesExclusive(raw);
    var stripped := Strip(raw);
    isSocks, isExit, changed := false, false, false;
    if StartsWith(stripped, SocksPort) {
      isSocks := true;
      if newSocksPort.Some? && newSocksPort.value != "" {
        line := DirectiveLine(SocksPort, newSocksPort.value);
        changed := Strip(raw) != DirectiveText(SocksPort, newSocksPort.value);
      } else {
        line := raw;
      }
    } else if StartsWith(stripped, ExitNodes) {
      isExit := true;
      if newExitNodes.Some? && newExitNodes.value != "" {
        line := DirectiveLine(ExitNodes, newExitNodes.value);
        changed := Strip(raw) != DirectiveText(ExitNodes, newExitNodes.value);
      } else {
        line := raw;
      }
    } else {
      line := raw;
    }
  }

  /** The rewrite loop of `modify_torrc`, with the append step after it. */
  method RewriteLines(lines: seq<string>, newSocksPort: Option<string>, newExitNodes: Option<string>)
    returns (newLines: seq<string>, modified: bool)
    ensures newLines == Rewrite(lines, Provided(newSocksPort), Provided(newExitNodes))
    ensures modified == NeedsWrite(lines, Provided(newSocksPort), Provided(newExitNodes))
  {
    ghost var s, e := Provided(newSocksPort), Provided(newExitNodes);
    var socksFound, exitFound := false, false;
    newLines, modified := [], false;
    var i := 0;
    while i < |lines|
      invariant 0 <= i <= |lines|
      invariant newLines == RewriteAll(lines[..i], s, e)
      invariant socksFound == HasSocksLine(lines[..i])
      invariant exitFound == HasExitLine(lines[..i])
      invariant modified == exists j :: 0 <= j < i && Differs(lines[j], s, e)
    {
      var line, isSocks, isExit, changed := RewriteOne(lines[i], newSocksPort, newExitNodes);
      newLines := newLines + [line];
      socksFound := socksFound || isSocks;
      exitFound := exitFound || isExit;
      modified := modified || changed;
      AnyDiffersStep(lines, i, s, e);
      PrefixStep(lines, i, s, e);
      i := i + 1;
    }
    assert lines[..|lines|] == lines;
    if newSocksPort.Some? && newSocksPort.value != "" && !socksFound {
      newLines := newLines + [DirectiveLine(SocksPort, newSocksPort.value)];
      modified := true;
    }
    if newExitNodes.Some? && newExitNodes.value != "" && !exitFound {
      newLines := newLines + [DirectiveLine(ExitNodes, newExitNodes.value)];
      modified := true;
    }
  }

  lemma AnyDiffersStep(lines: seq<string>, i: nat, s: Option<string>, e: Option<string>)
    requires i < |lines|
    ensures (exists j :: 0 <= j < i + 1 && Differs(lines[j], s, e))
      == ((exists j :: 0 <= j < i && Differs(lines[j], s, e)) || Differs(lines[i], s, e))
  {
  }

  /** A value whose written line strips back to its text. */
  predicate Strippable(v: Option<string>) {
    v.Some? ==> v.value != [] && !IsSpace(v.value[|v.value| - 1])
  }

  lemma DiffersIff(raw: string, s: Option<string>, e: Option<string>)
    requires Strippable(s) && Strippable(e)
    ensures Differs(raw, s, e) <==> Strip(RewriteLine(raw, s, e)) != Strip(raw)
  {
    KeywordsAreTokens();
    if IsSocksLine(raw) && s.Some? {
      StripDirectiveLine(SocksPort, s.value);
    } else if IsExitLine(raw) && e.Some? {
      StripDirectiveLine(ExitNodes, e.value);
    }
  }

  /** Change detection compares stripped lines: `modified` is true exactly when some line
      of the file strips to something new, or a line is appended. */
  lemma NeedsWriteIff(lines: seq<string>, s: Option<string>, e: Option<string>)
    requires Strippable(s) && Strippable(e)
    ensures NeedsWrite(lines, s, e) <==>
      (|Rewrite(lines, s, e)| != |lines|
       || exists i :: 0 <= i < |lines| && Strip(Rewrite(lines, s, e)[i]) != Strip(lines[i]))
  {
    var r := Rewrite(lines, s, e);
    forall i | 0 <= i < |lines|
      ensures Differs(lines[i], s, e) <==> Strip(r[i]) != Strip(lines[i])
    {
      DiffersIff(lines[i], s, e);
    }
  }

  lemma SettledNeedsNoWrite(lines: seq<string>, s: Option<string>, e: Option<string>)
    requires Settled(lines, s, e) && Strippable(s) && Strippable(e)
    ensures !NeedsWrite(lines, s, e)
  {
    SettledIsFixed(lines, s, e);
    NeedsWriteIff(lines, s, e);
  }

  /** A value that can be written and read back line for line. */
  predicate Writable(v: Option<string>) {
    Strippable(v) && (v.Some? ==> '\n' !in v.value)
  }

  /** Idempotence: once a file (empty or ending with a newline) has been rewritten, the
      written file reads back as the lines written, rewriting those with the same values
      changes nothing, and torx's change detection says so. */
  lemma RewriteIdempotent(content: string, socks: Option<string>, exit: Option<string>)
    requires content == [] || content[|content| - 1] == '\n'
    requires Writable(Provided(socks)) && Writable(Provided(exit))
    ensures var s, e := Provided(socks), Provided(exit);
      var out := Rewrite(ReadLines(content), s, e);
      && ReadLines(Concat(out)) == out
      && Rewrite(out, s, e) == out
      && !NeedsWrite(out, s, e)
  {
    var s, e := Provided(socks), Provided(exit);
    var lines := ReadLines(content);
    var out := Rewrite(lines, s, e);
    ReadLinesTerminated(content);
    RewriteTerminated(lines, s, e);
    ReadLinesConcat(out);
    RewriteSettles(lines, s, e);
    SettledIsFixed(out, s, e);
    SettledNeedsNoWrite(out, s, e);
  }

  /** What the reader makes of the rewritten lines' SocksPort, for a one-word value. */
  lemma {:induction false} ParseRewriteAllSocks(lines: seq<string>, v: string, e: Option<string>)
    requires IsToken(v)
    ensures Parse(RewriteAll(lines, Some(v), e)).socksPort == if HasSocksLine(lines) then Some(v) else None
    decreases |lines|
  {
    if lines == [] {
    } else {
      var n := |lines| - 1;
      var r := RewriteAll(lines, Some(v), e);
      PrefixStep(lines, n, Some(v), e);
      assert lines[..n + 1] == lines;
      assert r[..n] == RewriteAll(lines[..n], Some(v), e);
      StepSocks(Parse(r[..n]), r[n]);
      RewriteLineKind(lines[n], Some(v), e);
      if IsSocksLine(lines[n]) {
        WrittenSocksLine(v);
      } else {
        ParseRewriteAllSocks(lines[..n], v, e);
      }
    }
  }

  /** What the reader makes of the rewritten lines' ExitNodes, for a framed value. */
  lemma {:induction false} ParseRewriteAllExit(lines: seq<string>, s: Option<string>, v: string)
    requires v != [] && Framed(v)
    ensures Parse(RewriteAll(lines, s, Some(v))).exitNodes == if HasExitLine(lines) then Some(v) else None
    decreases |lines|
  {
    if lines == [] {
    } else {
      var n := |lines| - 1;
      var r := RewriteAll(lines, s, Some(v));
      PrefixStep(lines, n, s, Some(v));
      assert lines[..n + 1] == lines;
      assert r[..n] == RewriteAll(lines[..n], s, Some(v));
      StepExit(Parse(r[..n]), r[n]);
      RewriteLineKind(lines[n], s, Some(v));
      if IsExitLine(lines[n]) {
        WrittenExitLine(v);
      } else {
        ParseRewriteAllExit(lines[..n], s, v);
      }
    }
  }

  lemma ParseSnoc(a: seq<string>, x: string)
    ensures Parse(a + [x]) == Step(Parse(a), x)
  {
    assert (a + [x])[..|a|] == a;
  }

  lemma ParseSnocSocks(a: seq<string>, x: string)
    ensures Parse(a + [x]).socksPort == if IsSocksLine(x) then SecondWord(Strip(x)) else Parse(a).socksPort
  {
    ParseSnoc(a, x);
    StepSocks(Parse(a), x);
  }

  lemma ParseSnocExit(a: seq<string>, x: string)
    ensures Parse(a + [x]).exitNodes == if IsExitLine(x) then AfterFirstWord(Strip(x)) else Parse(a).exitNodes
  {
    ParseSnoc(a, x);
    StepExit(Parse(a), x);
  }

  /** After a rewrite with a one-word SocksPort value, the reader finds that value. */
  lemma ParseRewriteSocks(lines: seq<string>, v: string, e: Option<string>)
    requires IsToken(v)
    ensures Parse(Rewrite(lines, Some(v), e)).socksPort == Some(v)
  {
    var all := RewriteAll(lines, Some(v), e);
    var mid := all + SocksAppendix(lines, Some(v));
    ParseRewriteAllSocks(lines, v, e);
    if !HasSocksLine(lines) {
      WrittenSocksLine(v);
      WrittenLinesAreDirectives(v);
      ParseSnocSocks(all, DirectiveLine(SocksPort, v));
    } else {
      assert mid == all;
    }
    if e.Some? && !HasExitLine(lines) {
      var xl := DirectiveLine(ExitNodes, e.value);
      WrittenLinesAreDirectives(e.value);
      DirectivesExclusive(xl);
      ParseSnocSocks(mid, xl);
    } else {
      assert mid + ExitAppendix(lines, e) == mid;
    }
  }

  /** After a rewrite with a framed ExitNodes value, the reader finds that value. */
  lemma ParseRewriteExit(lines: seq<string>, s: Option<string>, v: string)
    requires v != [] && Framed(v)
    ensures Parse(Rewrite(lines, s, Some(v))).exitNodes == Some(v)
  {
    var all := RewriteAll(lines, s, Some(v));
    var mid := all + SocksAppendix(lines, s);
    ParseRewriteAllExit(lines, s, v);
    if s.Some? && !HasSocksLine(lines) {
      var sl := DirectiveLine(SocksPort, s.value);
      WrittenLinesAreDirectives(s.value);
      DirectivesExclusive(sl);
      ParseSnocExit(all, sl);
    } else {
      assert mid == all;
    }
    if !HasExitLine(lines) {
      WrittenExitLine(v);
      WrittenLinesAreDirectives(v);
      ParseSnocExit(mid, DirectiveLine(ExitNodes, v));
    } else {
      assert mid + ExitAppendix(lines, Some(v)) == mid;
    }
  }

  /** Read after write, SocksPort: a one-word value written into a file that is empty or
      ends with a newline is what `read_torrc` then returns. */
  lemma ReadBackSocksPort(content: string, socks: string, exit: Option<string>)
    requires content == [] || content[|content| - 1] == '\n'
    requires IsToken(socks)
    requires Writable(Provided(exit))
    ensures Parse(ReadLines(Concat(Rewrite(ReadLines(content), Provided(Some(socks)), Provided(exit))))).socksPort == Some(socks)
  {
    var lines := ReadLines(content);
    ReadLinesTerminated(content);
    RewriteTerminated(lines, Some(socks), Provided(exit));
    ReadLinesConcat(Rewrite(lines, Some(socks), Provided(exit)));
    ParseRewriteSocks(lines, socks, Provided(exit));
  }

  /** Read after write, ExitNodes: a value without surrounding whitespace or newlines,
      written into a file that is empty or ends with a newline, is what `read_torrc`
      then returns. */
  lemma ReadBackExitNodes(content: string, socks: Option<string>, exit: string)
    requires content == [] || content[|content| - 1] == '\n'
    requires exit != [] && Framed(exit) && '\n' !in exit
    requires Writable(Provided(socks))
    ensures Parse(ReadLines(Concat(Rewrite(ReadLines(content), Provided(socks), Provided(Some(exit)))))).exitNodes == Some(exit)
  {
    var lines := ReadLines(content);
    ReadLinesTerminated(content);
    RewriteTerminated(lines, Provided(socks), Some(exit));
    ReadLinesConcat(Rewrite(lines, Provided(socks), Some(exit)));
    ParseRewriteExit(lines, Provided(socks), exit);
  }

  /** A SocksPort line as a person may type it: any whitespace before the keyword, a run
      of any whitespace (tabs, several spaces) before the port, any whitespace after it.
      The reader takes the port. */
  lemma SpacedSocksLine(st: Settings, raw: string, ws0: string, ws1: string, v: string, ws2: string)
    requires AllSpace(ws0) && AllSpace(ws1) && ws1 != [] && AllSpace(ws2) && IsToken(v)
    requires raw == ws0 + SocksPort + ws1 + v + ws2
    ensures IsSocksLine(raw) && Step(st, raw).socksPort == Some(v)
  {
    KeywordsAreTokens();
    TokenFramed(v);
    SpacedLineStrips(raw, ws0, SocksPort, ws1, v, ws2);
    SecondWordSpaced(SocksPort, ws1, v);
    StepSocks(st, raw);
  }

  lemma SecondWordSpaced(d: string, ws1: string, v: string)
    requires IsToken(d) && AllSpace(ws1) && ws1 != [] && IsToken(v)
    ensures SecondWord(d + ws1 + v) == Some(v)
  {
    var rest := ws1 + v;
    assert rest[0] == ws1[0];
    assert d + ws1 + v == [] + d + rest;
    SplitGapWord([], d, rest);
    assert rest == ws1 + v + [];
    SplitGapWord(ws1, v, []);
  }

  /** An ExitNodes line as a person may type it: the reader takes everything after the
      whitespace run that follows the keyword, inner whitespace included, up to the
      trailing whitespace. */
  lemma SpacedExitLine(st: Settings, raw: string, ws0: string, ws1: string, v: string, ws2: string)
    requires AllSpace(ws0) && AllSpace(ws1) && ws1 != [] && AllSpace(ws2) && v != [] && Framed(v)
    requires raw == ws0 + ExitNodes + ws1 + v + ws2
    ensures IsExitLine(raw) && Step(st, raw).exitNodes == Some(v)
  {
    KeywordsAreTokens();
    SpacedLineStrips(raw, ws0, ExitNodes, ws1, v, ws2);
    AfterFirstWordSpaced(ExitNodes, ws1, v);
    StepExit(st, raw);
  }

  lemma AfterFirstWordSpaced(d: string, ws1: string, v: string)
    requires IsToken(d) && AllSpace(ws1) && ws1 != [] && v != [] && Framed(v)
    ensures AfterFirstWord(d + ws1 + v) == Some(v)
  {
    SplitOnceSpaced([], d, ws1, v);
    assert [] + d + ws1 + v == d + ws1 + v;
  }

  /** Stripping such a line leaves keyword, inner run and value. */
  lemma SpacedLineStrips(raw: string, ws0: string, d: string, ws1: string, v: string, ws2: string)
    requires AllSpace(ws0) && AllSpace(ws2) && IsToken(d) && v != [] && Framed(v)
    requires raw == ws0 + d + ws1 + v + ws2
    ensures Strip(raw) == d + ws1 + v && StartsWith(Strip(raw), d)
  {
    var line := d + ws1 + v;
    assert line[0] == d[0] && line[|line| - 1] == v[|v| - 1];
    assert raw == ws0 + line + ws2;
    StripFramed(ws0, line, ws2);
    assert line[..|d|] == d;
  }

  /** A line whose first character is not whitespace and starts neither keyword is no
      directive line, whatever follows it. */
  lemma NotDirectiveByFirstChar(raw: string)
    requires raw != [] && !IsSpace(raw[0]) && raw[0] != 'S' && raw[0] != 'E'
    ensures !IsSocksLine(raw) && !IsExitLine(raw)
  {
    StripKeepsLeadingWord([raw[0]], raw[1..]);
    assert [raw[0]] + raw[1..] == raw;
    StartsWithFirst(Strip(raw), [raw[0]]);
    StartsWithFirstChar(Strip(raw), SocksPort);
    StartsWithFirstChar(Strip(raw), ExitNodes);
  }

  /** A file whose last line has no newline: the SocksPort line is appended right after
      that line's text, so the written file is one line with no SocksPort line to read
      back, and the next call rewrites it again. */
  lemma GluedAppend(raw: string, v: string)
    requires raw != [] && '\n' !in raw
    requires !IsSpace(raw[0]) && raw[0] != 'S' && raw[0] != 'E'
    requires IsToken(v)
    ensures var out := Rewrite(ReadLines(raw), Provided(Some(v)), Provided(None));
      && Concat(out) == raw + DirectiveLine(SocksPort, v)
      && ReadLines(Concat(out)) == [raw + DirectiveLine(SocksPort, v)]
      && Parse(ReadLines(Concat(out))).socksPort == None
      && NeedsWrite(ReadLines(Concat(out)), Provided(Some(v)), Provided(None))
  {
    assert Provided(Some(v)) == Some(v) && Provided(None) == None;
    GluedContent(raw, v);
    GluedLineReadsNone(raw, v);
  }

  lemma GluedContent(raw: string, v: string)
    requires raw != [] && '\n' !in raw
    requires !IsSpace(raw[0]) && raw[0] != 'S' && raw[0] != 'E'
    ensures Concat(Rewrite(ReadLines(raw), Some(v), None)) == raw + DirectiveLine(SocksPort, v)
  {
    ReadLinesOneLine(raw);
    NotDirectiveByFirstChar(raw);
    var lines := [raw];
    assert !HasSocksLine(lines);
    var out := Rewrite(lines, Some(v), None);
    assert RewriteAll(lines, Some(v), None) == lines;
    assert out == [raw, DirectiveLine(SocksPort, v)];
  }

  lemma GluedLineReadsNone(raw: string, v: string)
    requires raw != [] && '\n' !in raw
    requires !IsSpace(raw[0]) && raw[0] != 'S' && raw[0] != 'E'
    requires IsToken(v)
    ensures var glued := raw + DirectiveLine(SocksPort, v);
      && ReadLines(glued) == [glued]
      && Parse([glued]).socksPort == None
      && NeedsWrite([glued], Some(v), None)
  {
    var glued := raw + DirectiveLine(SocksPort, v);
    assert Terminated(glued) by {
      assert glued[..|glued| - 1] == raw + DirectiveText(SocksPort, v);
    }
    ReadLinesConcat([glued]);
    assert Concat([glued]) == glued;
    assert glued[0] == raw[0];
    NotDirectiveByFirstChar(glued);
    NoSocksLineReadsNone([glued]);
  }
}
