/** torsina.py's torrc handling: the reader (torsina.py:188-216), the rewriter
    (torsina.py:141-186), the country update (torsina.py:302-316) and the port prompt of
    `main` (torsina.py:371-383). Unlike torx.py there is no cache and no change detection,
    a directive line without a value is ignored by the reader, an empty string is a
    value to write, and an exception makes `read_torrc` return None instead of a pair.
    `installed` stands for `check_tor()`, the torrc is its content (None when the file does
    not exist), `readOk`/`writeOk` say whether opening the file succeeds, and `free` stands
    for `check_portNumber`. */
module Torsina {
  import opened Wrappers
  import opened PyStr
  import opened Torrc

  /** A SocksPort line with a port on it: its stripped text has a second word. */
  predicate SocksValued(raw: string) {
    IsSocksLine(raw) && |Split(Strip(raw))| > 1
  }

  /** An ExitNodes line with something after the keyword. */
  predicate ExitValued(raw: string) {
    IsExitLine(raw) && |SplitOnce(Strip(raw))| > 1
  }

  /** One iteration of the read loop: only a directive line that carries a value
      changes anything. */
  function Step(st: Settings, raw: string): Settings {
    var line := Strip(raw);
    if StartsWith(line, SocksPort) then
      var parts := Split(line);
      if |parts| > 1 then st.(socksPort := Some(parts[1])) else st
    else if StartsWith(line, ExitNodes) then
      var parts := SplitOnce(line);
      if |parts| > 1 then st.(exitNodes := Some(parts[1])) else st
    else st
  }

  /** The pair the read loop ends with on `lines`. */
  function Parse(lines: seq<string>): Settings {
    if lines == [] then NoSettings else Step(Parse(lines[..|lines| - 1]), lines[|lines| - 1])
  }

  /** The read loop of `read_torrc`. */
  method ParseLines(lines: seq<string>) returns (socksPort: Option<string>, exitNodes: Option<string>)
    ensures Settings(socksPort, exitNodes) == Parse(lines)
  {
    socksPort, exitNodes := None, None;
    var i := 0;
    while i < |lines|
      invariant 0 <= i <= |lines|
      invariant Settings(socksPort, exitNodes) == Parse(lines[..i])
    {
      assert lines[..i + 1][..i] == lines[..i];
      var line := Strip(lines[i]);
      if StartsWith(line, SocksPort) {
        var parts := Split(line);
        if |parts| > 1 {
          socksPort := Some(parts[1]);
        }
      } else if StartsWith(line, ExitNodes) {
        var parts := SplitOnce(line);
        if |parts| > 1 {
          exitNodes := Some(parts[1]);
        }
      }
      i := i + 1;
    }
    assert lines[..|lines|] == lines;
  }

  /** `read_torrc(file_path)`: (None, None) when Tor is not installed; None, Python's
      implicit return after the caught exception, when the file is missing or cannot be
      read; otherwise the pair the read loop computes. */
  method ReadTorrc(installed: bool, torrc: Option<string>, readOk: bool) returns (r: Option<Settings>)
    ensures !installed ==> r == Some(NoSettings)
    ensures installed && (torrc.None? || !readOk) ==> r == None
    ensures installed && torrc.Some? && readOk ==> r == Some(Parse(ReadLines(torrc.value)))
  {
    if !installed {
      return Some(NoSettings);
    }
    if torrc.None? || !readOk {
      return None;
    }
    var socksPort, exitNodes := ParseLines(ReadLines(torrc.value));
    r := Some(Settings(socksPort, exitNodes));
  }

  /** How one line acts on the SocksPort value. */
  lemma StepSocks(st: Settings, raw: string)
    ensures SocksValued(raw) ==> Step(st, raw).socksPort == Some(Split(Strip(raw))[1])
    ensures !SocksValued(raw) ==> Step(st, raw).socksPort == st.socksPort
  {
    KeywordsAreTokens();
    if IsSocksLine(raw) {
      StartsWithFirst(Strip(raw), SocksPort);
    }
  }

  /** How one line acts on the ExitNodes value. */
  lemma StepExit(st: Settings, raw: string)
    ensures ExitValued(raw) ==> Step(st, raw).exitNodes == Some(SplitOnce(Strip(raw))[1])
    ensures !ExitValued(raw) ==> Step(st, raw).exitNodes == st.exitNodes
  {
    KeywordsAreTokens();
    DirectivesExclusive(raw);
    if IsExitLine(raw) {
      StartsWithFirst(Strip(raw), ExitNodes);
    }
  }

  lemma ParseSnoc(a: seq<string>, x: string)
    ensures Parse(a + [x]) == Step(Parse(a), x)
  {
    assert (a + [x])[..|a|] == a;
  }

  lemma ParseSnocSocks(a: seq<string>, x: string)
    ensures Parse(a + [x]).socksPort == if SocksValued(x) then Some(Split(Strip(x))[1]) else Parse(a).socksPort
  {
    ParseSnoc(a, x);
    StepSocks(Parse(a), x);
  }

  lemma ParseSnocExit(a: seq<string>, x: string)
    ensures Parse(a + [x]).exitNodes == if ExitValued(x) then Some(SplitOnce(Strip(x))[1]) else Parse(a).exitNodes
  {
    ParseSnoc(a, x);
    StepExit(Parse(a), x);
  }

  /** The SocksPort value after the last line, from the value before it. */
  lemma ParseLastSocks(lines: seq<string>)
    requires lines != []
    ensures var n := |lines| - 1;
      Parse(lines).socksPort == if SocksValued(lines[n]) then Some(Split(Strip(lines[n]))[1]) else Parse(lines[..n]).socksPort
  {
    StepSocks(Parse(lines[..|lines| - 1]), lines[|lines| - 1]);
  }

  /** The ExitNodes value after the last line, from the value before it. */
  lemma ParseLastExit(lines: seq<string>)
    requires lines != []
    ensures var n := |lines| - 1;
      Parse(lines).exitNodes == if ExitValued(lines[n]) then Some(SplitOnce(Strip(lines[n]))[1]) else Parse(lines[..n]).exitNodes
  {
    StepExit(Parse(lines[..|lines| - 1]), lines[|lines| - 1]);
  }

  lemma SocksUnchanged(lines: seq<string>)
    requires lines != [] && !SocksValued(lines[|lines| - 1])
    ensures Parse(lines).socksPort == Parse(lines[..|lines| - 1]).socksPort
  {
    ParseLastSocks(lines);
  }

  lemma ExitUnchanged(lines: seq<string>)
    requires lines != [] && !ExitValued(lines[|lines| - 1])
    ensures Parse(lines).exitNodes == Parse(lines[..|lines| - 1]).exitNodes
  {
    ParseLastExit(lines);
  }

  /** A directive line without a value is ignored: the pair read so far stays as it was. */
  lemma ValuelessLineIgnored(lines: seq<string>, x: string)
    requires IsDirectiveLine(x) && !SocksValued(x) && !ExitValued(x)
    ensures Parse(lines + [x]) == Parse(lines)
  {
    ParseSnoc(lines, x);
    StepSocks(Parse(lines), x);
    StepExit(Parse(lines), x);
  }

  /** The last valued line wins: the SocksPort value is the second word of the last
      SocksPort line that has one, whatever valueless lines follow it. */
  lemma LastValuedSocksWins(lines: seq<string>, j: nat)
    requires j < |lines| && SocksValued(lines[j])
    requires forall k :: j < k < |lines| ==> !SocksValued(lines[k])
    ensures Parse(lines).socksPort == Some(Split(Strip(lines[j]))[1])
  {
    SocksKept(lines, j + 1);
    SocksSetAt(lines, j);
  }

  /** A line with a SocksPort value sets it. */
  lemma SocksSetAt(lines: seq<string>, j: nat)
    requires j < |lines| && SocksValued(lines[j])
    ensures Parse(lines[..j + 1]).socksPort == Some(Split(Strip(lines[j]))[1])
  {
    ParseLastSocks(lines[..j + 1]);
    assert lines[..j + 1][j] == lines[j];
  }

  /** Lines without a SocksPort value leave the value read so far as it was. */
  lemma {:induction false} SocksKept(lines: seq<string>, m: nat)
    requires m <= |lines|
    requires forall k :: m <= k < |lines| ==> !SocksValued(lines[k])
    ensures Parse(lines).socksPort == Parse(lines[..m]).socksPort
    decreases |lines|
  {
    if m < |lines| {
      var n := |lines| - 1;
      SocksUnchanged(lines);
      forall k | m <= k < n
        ensures !SocksValued(lines[..n][k])
      {
        assert lines[..n][k] == lines[k];
      }
      SocksKept(lines[..n], m);
      assert lines[..n][..m] == lines[..m];
    } else {
      assert lines[..m] == lines;
    }
  }

  /** The same for ExitNodes: the rest of the last ExitNodes line that has one. */
  lemma LastValuedExitWins(lines: seq<string>, j: nat)
    requires j < |lines| && ExitValued(lines[j])
    requires forall k :: j < k < |lines| ==> !ExitValued(lines[k])
    ensures Parse(lines).exitNodes == Some(SplitOnce(Strip(lines[j]))[1])
  {
    ExitKept(lines, j + 1);
    ExitSetAt(lines, j);
  }

  /** A line with an ExitNodes value sets it. */
  lemma ExitSetAt(lines: seq<string>, j: nat)
    requires j < |lines| && ExitValued(lines[j])
    ensures Parse(lines[..j + 1]).exitNodes == Some(SplitOnce(Strip(lines[j]))[1])
  {
    ParseLastExit(lines[..j + 1]);
    assert lines[..j + 1][j] == lines[j];
  }

  /** Lines without an ExitNodes value leave the value read so far as it was. */
  lemma {:induction false} ExitKept(lines: seq<string>, m: nat)
    requires m <= |lines|
    requires forall k :: m <= k < |lines| ==> !ExitValued(lines[k])
    ensures Parse(lines).exitNodes == Parse(lines[..m]).exitNodes
    decreases |lines|
  {
    if m < |lines| {
      var n := |lines| - 1;
      ExitUnchanged(lines);
      forall k | m <= k < n
        ensures !ExitValued(lines[..n][k])
      {
        assert lines[..n][k] == lines[k];
      }
      ExitKept(lines[..n], m);
      assert lines[..n][..m] == lines[..m];
    } else {
      assert lines[..m] == lines;
    }
  }

  /** Without a valued ExitNodes line the ExitNodes value is None. */
  lemma NoValuedExitReadsNone(lines: seq<string>)
    requires forall k :: 0 <= k < |lines| ==> !ExitValued(lines[k])
    ensures Parse(lines).exitNodes == None
  {
    ExitKept(lines, 0);
    assert lines[..0] == [];
  }

  /** Without a valued SocksPort line the SocksPort value is None. */
  lemma NoValuedSocksReadsNone(lines: seq<string>)
    requires forall k :: 0 <= k < |lines| ==> !SocksValued(lines[k])
    ensures Parse(lines).socksPort == None
  {
    SocksKept(lines, 0);
    assert lines[..0] == [];
  }


  /** The rewrite loop of `modify_torrc`, with the append step after it: `None` is the
      only value that means "leave this directive alone". */
  method RewriteLines(lines: seq<string>, newSocksPort: Option<string>, newExitNodes: Option<string>)
    returns (modifiedLines: seq<string>)
    ensures modifiedLines == Rewrite(lines, newSocksPort, newExitNodes)
  {
    var socksPortFound, exitNodesFound := false, false;
    modifiedLines := [];
    var i := 0;
    while i < |lines|
      invariant 0 <= i <= |lines|
      invariant modifiedLines == RewriteAll(lines[..i], newSocksPort, newExitNodes)
      invariant socksPortFound == HasSocksLine(lines[..i])
      invariant exitNodesFound == HasExitLine(lines[..i])
    {
      var line := lines[i];
      var strippedLine := Strip(line);
      DirectivesExclusive(line);
      if StartsWith(strippedLine, SocksPort) {
        socksPortFound := true;
        if newSocksPort.Some? {
          modifiedLines := modifiedLines + [DirectiveLine(SocksPort, newSocksPort.value)];
        } else {
          modifiedLines := modifiedLines + [line];
        }
      } else if StartsWith(strippedLine, ExitNodes) {
        exitNodesFound := true;
        if newExitNodes.Some? {
          modifiedLines := modifiedLines + [DirectiveLine(ExitNodes, newExitNodes.value)];
        } else {
          modifiedLines := modifiedLines + [line];
        }
      } else {
        modifiedLines := modifiedLines + [line];
      }
      PrefixStep(lines, i, newSocksPort, newExitNodes);
      i := i + 1;
    }
    assert lines[..|lines|] == lines;
    if !socksPortFound && newSocksPort.Some? {
      modifiedLines := modifiedLines + [DirectiveLine(SocksPort, newSocksPort.value)];
    }
    if !exitNodesFound && newExitNodes.Some? {
      modifiedLines := modifiedLines + [DirectiveLine(ExitNodes, newExitNodes.value)];
    }
  }

  /** `modify_torrc(file_path, new_socks_port, new_exit_nodes)`: when Tor is installed
      and the file can be read and opened for writing, the file is rewritten, every
      time; otherwise it is left as it is, and a missing file is never created. */
  method ModifyTorrc(installed: bool, torrc: Option<string>, newSocksPort: Option<string>,
                     newExitNodes: Option<string>, readOk: bool, writeOk: bool)
    returns (wrote: bool, after: Option<string>)
    ensures wrote <==> installed && torrc.Some? && readOk && writeOk
    ensures wrote ==> after == Some(Concat(Rewrite(ReadLines(torrc.value), newSocksPort, newExitNodes)))
    ensures !wrote ==> after == torrc
    ensures after.None? <==> torrc.None?
  {
    if !installed || torrc.None? || !readOk {
      return false, torrc;
    }
    var modifiedLines := RewriteLines(ReadLines(torrc.value), newSocksPort, newExitNodes);
    if !writeOk {
      return false, torrc;
    }
    wrote, after := true, Some(Concat(modifiedLines));
  }

  /** No change detection: with nothing to write the file is still rewritten, with the
      content it already had. */
  lemma RewriteNothingKeepsContent(content: string)
    ensures Concat(Rewrite(ReadLines(content), None, None)) == content
  {
    RewriteNothing(ReadLines(content));
  }

  /** Writing the same values a second time rewrites the file with the content it already
      has, when the file first ended with a newline and the values hold none. */
  lemma {:induction false} SecondWriteSameContent(content: string, socks: Option<string>, exit: Option<string>)
    requires content == [] || content[|content| - 1] == '\n'
    requires socks.Some? ==> '\n' !in socks.value
    requires exit.Some? ==> '\n' !in exit.value
    ensures var once := Concat(Rewrite(ReadLines(content), socks, exit));
      Concat(Rewrite(ReadLines(once), socks, exit)) == once
  {
    var lines := ReadLines(content);
    var out := Rewrite(lines, socks, exit);
    ReadLinesTerminated(content);
    RewriteTerminated(lines, socks, exit);
    ReadLinesConcat(out);
    RewriteSettles(lines, socks, exit);
    SettledIsFixed(out, socks, exit);
  }

  /** Lines whose every SocksPort line is the line written for a one-word value, and
      that have one, read back as that value. */
  lemma {:induction false} SettledSocksReads(lines: seq<string>, v: string)
    requires IsToken(v) && HasSocksLine(lines)
    requires forall k :: 0 <= k < |lines| && IsSocksLine(lines[k]) ==> lines[k] == DirectiveLine(SocksPort, v)
    ensures Parse(lines).socksPort == Some(v)
    decreases |lines|
  {
    var n := |lines| - 1;
    assert lines == lines[..n] + [lines[n]];
    HasSnoc(lines[..n], lines[n]);
    ParseSnocSocks(lines[..n], lines[n]);
    WrittenSocksLine(v);
    if !IsSocksLine(lines[n]) {
      SettledSocksReads(lines[..n], v);
    }
  }

  /** The same for ExitNodes, for a value without surrounding whitespace. */
  lemma {:induction false} SettledExitReads(lines: seq<string>, v: string)
    requires v != [] && Framed(v) && HasExitLine(lines)
    requires forall k :: 0 <= k < |lines| && IsExitLine(lines[k]) ==> lines[k] == DirectiveLine(ExitNodes, v)
    ensures Parse(lines).exitNodes == Some(v)
    decreases |lines|
  {
    var n := |lines| - 1;
    assert lines == lines[..n] + [lines[n]];
    HasSnoc(lines[..n], lines[n]);
    ParseSnocExit(lines[..n], lines[n]);
    WrittenExitLine(v);
    if !IsExitLine(lines[n]) {
      SettledExitReads(lines[..n], v);
    }
  }

  /** Read after write, SocksPort: a one-word port written into a file that is empty or
      ends with a newline is what `read_torrc` then returns. */
  lemma ReadBackSocksPort(content: string, socks: string, exit: Option<string>)
    requires content == [] || content[|content| - 1] == '\n'
    requires IsToken(socks)
    requires exit.Some? ==> '\n' !in exit.value
    ensures Parse(ReadLines(Concat(Rewrite(ReadLines(content), Some(socks), exit)))).socksPort == Some(socks)
  {
    var lines := ReadLines(content);
    var out := Rewrite(lines, Some(socks), exit);
    TokenFramed(socks);
    ReadLinesTerminated(content);
    RewriteTerminated(lines, Some(socks), exit);
    ReadLinesConcat(out);
    RewriteSettles(lines, Some(socks), exit);
    SettledSocksReads(out, socks);
  }

  /** Read after write, ExitNodes: a value without surrounding whitespace or newlines,
      written into a file that is empty or ends with a newline, is what `read_torrc`
      then returns. */
  lemma ReadBackExitNodes(content: string, socks: Option<string>, exit: string)
    requires content == [] || content[|content| - 1] == '\n'
    requires exit != [] && Framed(exit) && '\n' !in exit
    requires socks.Some? ==> '\n' !in socks.value
    ensures Parse(ReadLines(Concat(Rewrite(ReadLines(content), socks, Some(exit))))).exitNodes == Some(exit)
  {
    var lines := ReadLines(content);
    var out := Rewrite(lines, socks, Some(exit));
    ReadLinesTerminated(content);
    RewriteTerminated(lines, socks, Some(exit));
    ReadLinesConcat(out);
    RewriteSettles(lines, socks, Some(exit));
    SettledExitReads(out, exit);
  }

  /** The line written for an empty port is "SocksPort \n", a SocksPort line without a
      value. */
  lemma EmptySocksLine()
    ensures IsSocksLine(DirectiveLine(SocksPort, "")) && !SocksValued(DirectiveLine(SocksPort, ""))
  {
    EmptySocksLineStrips();
    KeywordsAreTokens();
    SplitWord(SocksPort);
    assert SocksPort[..|SocksPort|] == SocksPort;
  }

  lemma EmptySocksLineStrips()
    ensures Strip(DirectiveLine(SocksPort, "")) == SocksPort
  {
    KeywordsAreTokens();
    assert AllSpace(" \n");
    StripFramed([], SocksPort, " \n");
    assert [] + SocksPort + " \n" == DirectiveLine(SocksPort, "");
  }

  /** An empty string is written, not skipped: every SocksPort line becomes
      "SocksPort \n" (one is appended if there was none), which the reader ignores, so
      `read_torrc` then finds no port at all. */
  lemma EmptyPortReadsNone(content: string, exit: Option<string>)
    requires content == [] || content[|content| - 1] == '\n'
    requires exit.Some? ==> '\n' !in exit.value
    ensures var out := Rewrite(ReadLines(content), Some(""), exit);
      HasSocksLine(out) && Parse(ReadLines(Concat(out))).socksPort == None
  {
    var lines := ReadLines(content);
    var out := Rewrite(lines, Some(""), exit);
    ReadLinesTerminated(content);
    RewriteTerminated(lines, Some(""), exit);
    ReadLinesConcat(out);
    RewriteSettles(lines, Some(""), exit);
    EmptySocksLine();
    forall k | 0 <= k < |out|
      ensures !SocksValued(out[k])
    {
      if IsSocksLine(out[k]) {
        assert out[k] == DirectiveLine(SocksPort, "");
      }
    }
    NoValuedSocksReadsNone(out);
  }

  /** The acceptance condition of the port prompt in `main`: `port.isdigit()` and
      `check_portNumber(port)`, the input taken as typed. */
  predicate PortAccepted(port: string, free: string -> bool) {
    IsDigits(port) && free(port)
  }

  /** The prompt loop of `main`'s option 6 over the answers typed in turn: the index of
      the first answer that is accepted, every earlier one having been refused, or None
      when no answer given is accepted (the loop would go on prompting). */
  method PortEntry(answers: seq<string>, free: string -> bool) returns (k: Option<nat>)
    ensures k.Some? ==> k.value < |answers| && PortAccepted(answers[k.value], free)
    ensures k.Some? ==> forall i :: 0 <= i < k.value ==> !PortAccepted(answers[i], free)
    ensures k.None? ==> forall i :: 0 <= i < |answers| ==> !PortAccepted(answers[i], free)
  {
    var i := 0;
    while i < |answers|
      invariant 0 <= i <= |answers|
      invariant forall j :: 0 <= j < i ==> !PortAccepted(answers[j], free)
    {
      var port := answers[i];
      if !IsDigits(port) {
      } else if !free(port) {
      } else {
        return Some(i);
      }
      i := i + 1;
    }
    return None;
  }

  /** Option 6 of `main`: `modify_torrc` runs, with the accepted answer as the new
      SocksPort and no new ExitNodes, only once an answer is accepted. */
  method ChangePort(answers: seq<string>, free: string -> bool, installed: bool, torrc: Option<string>,
                    readOk: bool, writeOk: bool)
    returns (k: Option<nat>, wrote: bool, after: Option<string>)
    ensures k.Some? ==> k.value < |answers| && PortAccepted(answers[k.value], free)
    ensures k.Some? ==> forall i :: 0 <= i < k.value ==> !PortAccepted(answers[i], free)
    ensures k.None? ==> forall i :: 0 <= i < |answers| ==> !PortAccepted(answers[i], free)
    ensures k.None? ==> !wrote && after == torrc
    ensures k.Some? ==>
      (wrote <==> installed && torrc.Some? && readOk && writeOk)
      && (wrote ==> after == Some(Concat(Rewrite(ReadLines(torrc.value), Some(answers[k.value]), None))))
      && (!wrote ==> after == torrc)
  {
    k := PortEntry(answers, free);
    if k.None? {
      return k, false, torrc;
    }
    wrote, after := ModifyTorrc(installed, torrc, Some(answers[k.value]), None, readOk, writeOk);
  }

  /** An accepted port is one word, so once written into a file that is empty or ends
      with a newline it is the SocksPort `read_torrc` then returns. */
  lemma AcceptedPortReadsBack(content: string, port: string, free: string -> bool)
    requires content == [] || content[|content| - 1] == '\n'
    requires PortAccepted(port, free)
    ensures Parse(ReadLines(Concat(Rewrite(ReadLines(content), Some(port), None)))).socksPort == Some(port)
  {
    DigitsAreToken(port);
    ReadBackSocksPort(content, port, None);
  }

  lemma DigitsAreToken(s: string)
    requires IsDigits(s)
    ensures IsToken(s)
  {
  }
}
