/** The torrc vocabulary both front-ends share: the two directives they manage, the line
    they write for a directive, the country table, and the rewrite both `modify_torrc`s
    perform: every directive line is replaced in place, every other line passes through,
    and a missing directive is appended at the end. The two files differ only in what
    counts as "a value was provided"; that choice is made by the caller, and here `None`
    means "leave this directive alone". */
module Torrc {
  import opened Wrappers
  import opened PyStr

  const SocksPort: string := "SocksPort"
  const ExitNodes: string := "ExitNodes"

  /** The pair `read_torrc` returns: (SocksPort, ExitNodes). */
  datatype Settings = Settings(socksPort: Option<string>, exitNodes: Option<string>)

  const NoSettings: Settings := Settings(None, None)

  /** The country table both files carry (VALID_COUNTRY_CODES, valid_country_codes). */
  const CountryCodes: map<string, string> := map[
    "tr" := "Turkey", "de" := "Germany", "us" := "United States", "fr" := "France",
    "uk" := "United Kingdom", "at" := "Austria", "be" := "Belgium", "ro" := "Romania",
    "ca" := "Canada", "sg" := "Singapore", "jp" := "Japan", "ie" := "Ireland",
    "fi" := "Finland", "es" := "Spain", "pl" := "Poland"]

  /** f"{directive} {value}" */
  function DirectiveText(d: string, v: string): string {
    d + " " + v
  }

  /** f"{directive} {value}\n", the line both rewriters emit. */
  function DirectiveLine(d: string, v: string): string {
    DirectiveText(d, v) + "\n"
  }

  /** `line.strip().startswith("SocksPort")` */
  predicate IsSocksLine(raw: string) {
    StartsWith(Strip(raw), SocksPort)
  }

  /** `line.strip().startswith("ExitNodes")` */
  predicate IsExitLine(raw: string) {
    StartsWith(Strip(raw), ExitNodes)
  }

  predicate IsDirectiveLine(raw: string) {
    IsSocksLine(raw) || IsExitLine(raw)
  }

  /** No line starts with both keywords, so the `elif` order never matters. */
  lemma DirectivesExclusive(raw: string)
    ensures !(IsSocksLine(raw) && IsExitLine(raw))
  {
    if IsSocksLine(raw) && IsExitLine(raw) {
      StartsWithFirst(Strip(raw), SocksPort);
      StartsWithFirst(Strip(raw), ExitNodes);
    }
  }

  predicate HasSocksLine(lines: seq<string>) {
    exists i :: 0 <= i < |lines| && IsSocksLine(lines[i])
  }

  predicate HasExitLine(lines: seq<string>) {
    exists i :: 0 <= i < |lines| && IsExitLine(lines[i])
  }

  /** What the loop emits for one line; `socks` and `exit` are the values to write. */
  function RewriteLine(raw: string, socks: Option<string>, exit: Option<string>): string {
    if IsSocksLine(raw) then
      if socks.Some? then DirectiveLine(SocksPort, socks.value) else raw
    else if IsExitLine(raw) then
      if exit.Some? then DirectiveLine(ExitNodes, exit.value) else raw
    else raw
  }

  /** The lines the loop builds, in the order of the file. */
  function RewriteAll(lines: seq<string>, socks: Option<string>, exit: Option<string>): seq<string> {
    seq(|lines|, i requires 0 <= i < |lines| => RewriteLine(lines[i], socks, exit))
  }

  /** The SocksPort line appended after the loop, when one is to be written and none was seen. */
  function SocksAppendix(lines: seq<string>, socks: Option<string>): seq<string> {
    if socks.Some? && !HasSocksLine(lines) then [DirectiveLine(SocksPort, socks.value)] else []
  }

  /** The ExitNodes line appended after it, on the same condition. */
  function ExitAppendix(lines: seq<string>, exit: Option<string>): seq<string> {
    if exit.Some? && !HasExitLine(lines) then [DirectiveLine(ExitNodes, exit.value)] else []
  }

  /** The new content of the file, as lines. */
  function Rewrite(lines: seq<string>, socks: Option<string>, exit: Option<string>): seq<string> {
    RewriteAll(lines, socks, exit) + SocksAppendix(lines, socks) + ExitAppendix(lines, exit)
  }

  /** The lines that are neither directive, in order. */
  function OtherLines(lines: seq<string>): seq<string> {
    if lines == [] then []
    else (if IsDirectiveLine(lines[0]) then [] else [lines[0]]) + OtherLines(lines[1..])
  }

  lemma {:induction false} OtherLinesAppend(a: seq<string>, b: seq<string>)
    ensures OtherLines(a + b) == OtherLines(a) + OtherLines(b)
  {
    if a == [] {
      assert a + b == b;
    } else {
      assert (a + b)[0] == a[0];
      assert (a + b)[1..] == a[1..] + b;
      OtherLinesAppend(a[1..], b);
    }
  }

  /** The line written for a directive starts with that directive once stripped. */
  lemma DirectiveLineStartsWith(d: string, v: string)
    requires IsToken(d)
    ensures StartsWith(Strip(DirectiveLine(d, v)), d)
  {
    assert DirectiveLine(d, v) == d + (" " + v + "\n");
    StripKeepsLeadingWord(d, " " + v + "\n");
  }

  lemma WrittenLinesAreDirectives(v: string)
    ensures IsSocksLine(DirectiveLine(SocksPort, v))
    ensures IsExitLine(DirectiveLine(ExitNodes, v))
  {
    KeywordsAreTokens();
    DirectiveLineStartsWith(SocksPort, v);
    DirectiveLineStartsWith(ExitNodes, v);
  }

  /** A rewritten line is a directive line of the same kind as the line it replaces. */
  lemma RewriteLineKind(raw: string, socks: Option<string>, exit: Option<string>)
    ensures IsSocksLine(RewriteLine(raw, socks, exit)) == IsSocksLine(raw)
    ensures IsExitLine(RewriteLine(raw, socks, exit)) == IsExitLine(raw)
  {
    DirectivesExclusive(raw);
    if IsSocksLine(raw) && socks.Some? {
      WrittenLinesAreDirectives(socks.value);
      DirectivesExclusive(DirectiveLine(SocksPort, socks.value));
    } else if IsExitLine(raw) && exit.Some? {
      WrittenLinesAreDirectives(exit.value);
      DirectivesExclusive(DirectiveLine(ExitNodes, exit.value));
    }
  }

  /** Passthrough: the lines that are not directives come out unchanged and in their
      original order, and nothing else joins them. */
  lemma {:induction false} RewriteKeepsOtherLines(lines: seq<string>, socks: Option<string>, exit: Option<string>)
    ensures OtherLines(Rewrite(lines, socks, exit)) == OtherLines(lines)
  {
    var all := RewriteAll(lines, socks, exit);
    var sa, ea := SocksAppendix(lines, socks), ExitAppendix(lines, exit);
    OtherLinesAppend(all + sa, ea);
    OtherLinesAppend(all, sa);
    RewriteAllKeepsOtherLines(lines, socks, exit);
    WrittenLinesAreDirectives(if socks.Some? then socks.value else "");
    WrittenLinesAreDirectives(if exit.Some? then exit.value else "");
    OtherLinesOfDirectives(sa);
    OtherLinesOfDirectives(ea);
    assert OtherLines(lines) + [] + [] == OtherLines(lines);
  }

  lemma {:induction false} OtherLinesOfDirectives(ls: seq<string>)
    requires forall i :: 0 <= i < |ls| ==> IsDirectiveLine(ls[i])
    ensures OtherLines(ls) == []
  {
    if ls != [] {
      OtherLinesOfDirectives(ls[1..]);
    }
  }

  lemma {:induction false} RewriteAllKeepsOtherLines(lines: seq<string>, socks: Option<string>, exit: Option<string>)
    ensures OtherLines(RewriteAll(lines, socks, exit)) == OtherLines(lines)
  {
    if lines != [] {
      var r := RewriteAll(lines, socks, exit);
      assert r[1..] == RewriteAll(lines[1..], socks, exit);
      RewriteLineKind(lines[0], socks, exit);
      RewriteAllKeepsOtherLines(lines[1..], socks, exit);
    }
  }

  /** In place: line i of the file becomes line i of the result; a directive line with a
      value to write becomes exactly the directive line for it, every other line stays. */
  lemma RewriteInPlace(lines: seq<string>, socks: Option<string>, exit: Option<string>, i: nat)
    requires i < |lines|
    ensures i < |Rewrite(lines, socks, exit)|
    ensures IsSocksLine(lines[i]) && socks.Some? ==> Rewrite(lines, socks, exit)[i] == DirectiveLine(SocksPort, socks.value)
    ensures IsExitLine(lines[i]) && exit.Some? ==> Rewrite(lines, socks, exit)[i] == DirectiveLine(ExitNodes, exit.value)
    ensures !(IsSocksLine(lines[i]) && socks.Some?) && !(IsExitLine(lines[i]) && exit.Some?) ==> Rewrite(lines, socks, exit)[i] == lines[i]
  {
    DirectivesExclusive(lines[i]);
  }

  /** Appending: exactly one line per provided directive that no line carries, after all
      the file's lines, SocksPort before ExitNodes. */
  lemma RewriteAppendsMissing(lines: seq<string>, socks: Option<string>, exit: Option<string>)
    ensures var r := Rewrite(lines, socks, exit);
      && |r| == |lines| + (if socks.Some? && !HasSocksLine(lines) then 1 else 0)
                        + (if exit.Some? && !HasExitLine(lines) then 1 else 0)
      && (socks.Some? && !HasSocksLine(lines) ==> r[|lines|] == DirectiveLine(SocksPort, socks.value))
      && (exit.Some? && !HasExitLine(lines) ==> r[|r| - 1] == DirectiveLine(ExitNodes, exit.value))
  {
  }

  /** Nothing provided, nothing changes. */
  lemma RewriteNothing(lines: seq<string>)
    ensures Rewrite(lines, None, None) == lines
  {
    assert RewriteAll(lines, None, None) == lines;
  }

  lemma DirectiveLineTerminated(d: string, v: string)
    requires '\n' !in d && '\n' !in v
    ensures Terminated(DirectiveLine(d, v))
  {
    var l := DirectiveLine(d, v);
    assert l[..|l| - 1] == d + " " + v;
  }

  /** Rewriting terminated lines with values free of "\n" gives terminated lines, so the
      written file reads back as the same lines. */
  lemma RewriteTerminated(lines: seq<string>, socks: Option<string>, exit: Option<string>)
    requires forall i :: 0 <= i < |lines| ==> Terminated(lines[i])
    requires socks.Some? ==> '\n' !in socks.value
    requires exit.Some? ==> '\n' !in exit.value
    ensures forall i :: 0 <= i < |Rewrite(lines, socks, exit)| ==> Terminated(Rewrite(lines, socks, exit)[i])
  {
    if socks.Some? { DirectiveLineTerminated(SocksPort, socks.value); }
    if exit.Some? { DirectiveLineTerminated(ExitNodes, exit.value); }
  }

  lemma KeywordsAreTokens()
    ensures IsToken(SocksPort) && IsToken(ExitNodes)
  {
  }

  /** A directive line whose value is non-empty and does not end in whitespace strips
      to its text. */
  lemma StripDirectiveLine(d: string, v: string)
    requires IsToken(d) && v != [] && !IsSpace(v[|v| - 1])
    ensures Strip(DirectiveLine(d, v)) == DirectiveText(d, v)
  {
    var t := DirectiveText(d, v);
    assert t[0] == d[0];
    assert t[|t| - 1] == v[|v| - 1];
    assert Framed(t);
    assert AllSpace("\n");
    StripFramed([], t, "\n");
    assert [] + t + "\n" == DirectiveLine(d, v);
  }

  /** How the written SocksPort line reads back once stripped, for a one-word value. */
  lemma WrittenSocksLine(v: string)
    requires IsToken(v)
    ensures Strip(DirectiveLine(SocksPort, v)) == DirectiveText(SocksPort, v)
    ensures Split(DirectiveText(SocksPort, v)) == [SocksPort, v]
  {
    KeywordsAreTokens();
    StripDirectiveLine(SocksPort, v);
    SplitWordThenSpace(SocksPort, v);
    SplitWord(v);
  }

  /** How the written ExitNodes line reads back once stripped, for a framed value. */
  lemma WrittenExitLine(v: string)
    requires v != [] && Framed(v)
    ensures Strip(DirectiveLine(ExitNodes, v)) == DirectiveText(ExitNodes, v)
    ensures SplitOnce(DirectiveText(ExitNodes, v)) == [ExitNodes, v]
  {
    KeywordsAreTokens();
    StripDirectiveLine(ExitNodes, v);
    SplitOnceWordThenSpace(ExitNodes, v);
  }

  /** What one more line adds to the prefix the loop has seen. */
  lemma PrefixStep(lines: seq<string>, i: nat, s: Option<string>, e: Option<string>)
    requires i < |lines|
    ensures RewriteAll(lines[..i + 1], s, e) == RewriteAll(lines[..i], s, e) + [RewriteLine(lines[i], s, e)]
    ensures HasSocksLine(lines[..i + 1]) == (HasSocksLine(lines[..i]) || IsSocksLine(lines[i]))
    ensures HasExitLine(lines[..i + 1]) == (HasExitLine(lines[..i]) || IsExitLine(lines[i]))
  {
    assert lines[..i + 1] == lines[..i] + [lines[i]];
    RewriteAllSnoc(lines[..i], lines[i], s, e);
    HasSnoc(lines[..i], lines[i]);
  }

  lemma RewriteAllSnoc(a: seq<string>, x: string, s: Option<string>, e: Option<string>)
    ensures RewriteAll(a + [x], s, e) == RewriteAll(a, s, e) + [RewriteLine(x, s, e)]
  {
  }

  lemma HasSnoc(a: seq<string>, x: string)
    ensures HasSocksLine(a + [x]) == (HasSocksLine(a) || IsSocksLine(x))
    ensures HasExitLine(a + [x]) == (HasExitLine(a) || IsExitLine(x))
  {
    var q := a + [x];
    if HasSocksLine(q) && !IsSocksLine(x) {
      var k :| 0 <= k < |q| && IsSocksLine(q[k]);
      assert a[k] == q[k];
    }
    if HasExitLine(q) && !IsExitLine(x) {
      var k :| 0 <= k < |q| && IsExitLine(q[k]);
      assert a[k] == q[k];
    }
    if HasSocksLine(a) {
      var k :| 0 <= k < |a| && IsSocksLine(a[k]);
      assert q[k] == a[k];
    }
    if HasExitLine(a) {
      var k :| 0 <= k < |a| && IsExitLine(a[k]);
      assert q[k] == a[k];
    }
    assert IsSocksLine(x) ==> IsSocksLine(q[|a|]);
    assert IsExitLine(x) ==> IsExitLine(q[|a|]);
  }

  /** A file the rewrite leaves as it is: every directive line that has a value to write
      already is that line, and every directive with a value to write has a line. */
  predicate Settled(lines: seq<string>, s: Option<string>, e: Option<string>) {
    && (forall i :: 0 <= i < |lines| && IsSocksLine(lines[i]) && s.Some? ==> lines[i] == DirectiveLine(SocksPort, s.value))
    && (forall i :: 0 <= i < |lines| && IsExitLine(lines[i]) && e.Some? ==> lines[i] == DirectiveLine(ExitNodes, e.value))
    && (s.Some? ==> HasSocksLine(lines))
    && (e.Some? ==> HasExitLine(lines))
  }

  lemma RewriteSettles(lines: seq<string>, s: Option<string>, e: Option<string>)
    ensures Settled(Rewrite(lines, s, e), s, e)
  {
    RewriteSettlesSocks(lines, s, e);
    RewriteSettlesExit(lines, s, e);
    RewriteHasLines(lines, s, e);
  }

  /** Line i of the file and line i of the rewrite are directive lines of the same kind. */
  lemma RewriteKinds(lines: seq<string>, s: Option<string>, e: Option<string>)
    ensures forall i :: 0 <= i < |lines| ==>
      IsSocksLine(Rewrite(lines, s, e)[i]) == IsSocksLine(lines[i])
      && IsExitLine(Rewrite(lines, s, e)[i]) == IsExitLine(lines[i])
  {
    forall i | 0 <= i < |lines|
      ensures IsSocksLine(Rewrite(lines, s, e)[i]) == IsSocksLine(lines[i])
      ensures IsExitLine(Rewrite(lines, s, e)[i]) == IsExitLine(lines[i])
    {
      assert Rewrite(lines, s, e)[i] == RewriteLine(lines[i], s, e);
      RewriteLineKind(lines[i], s, e);
    }
  }

  lemma RewriteSettlesSocks(lines: seq<string>, s: Option<string>, e: Option<string>)
    ensures var r := Rewrite(lines, s, e);
      forall i :: 0 <= i < |r| && IsSocksLine(r[i]) && s.Some? ==> r[i] == DirectiveLine(SocksPort, s.value)
  {
    var r := Rewrite(lines, s, e);
    RewriteKinds(lines, s, e);
    var ev := if e.Some? then e.value else "";
    WrittenLinesAreDirectives(ev);
    DirectivesExclusive(DirectiveLine(ExitNodes, ev));
    forall i | 0 <= i < |r| && IsSocksLine(r[i]) && s.Some?
      ensures r[i] == DirectiveLine(SocksPort, s.value)
    {
      if i < |lines| {
        assert IsSocksLine(lines[i]);
      }
    }
  }

  lemma RewriteSettlesExit(lines: seq<string>, s: Option<string>, e: Option<string>)
    ensures var r := Rewrite(lines, s, e);
      forall i :: 0 <= i < |r| && IsExitLine(r[i]) && e.Some? ==> r[i] == DirectiveLine(ExitNodes, e.value)
  {
    var r := Rewrite(lines, s, e);
    RewriteKinds(lines, s, e);
    var sv := if s.Some? then s.value else "";
    WrittenLinesAreDirectives(sv);
    DirectivesExclusive(DirectiveLine(SocksPort, sv));
    forall i | 0 <= i < |r| && IsExitLine(r[i]) && e.Some?
      ensures r[i] == DirectiveLine(ExitNodes, e.value)
    {
      if i < |lines| {
        assert IsExitLine(lines[i]);
        DirectivesExclusive(lines[i]);
      }
    }
  }

  lemma RewriteHasLines(lines: seq<string>, s: Option<string>, e: Option<string>)
    ensures s.Some? ==> HasSocksLine(Rewrite(lines, s, e))
    ensures e.Some? ==> HasExitLine(Rewrite(lines, s, e))
  {
    var r := Rewrite(lines, s, e);
    var n := |lines|;
    RewriteKinds(lines, s, e);
    if s.Some? {
      if HasSocksLine(lines) {
        var k :| 0 <= k < n && IsSocksLine(lines[k]);
        assert IsSocksLine(r[k]);
      } else {
        WrittenLinesAreDirectives(s.value);
        assert IsSocksLine(r[n]);
      }
    }
    if e.Some? {
      if HasExitLine(lines) {
        var k :| 0 <= k < n && IsExitLine(lines[k]);
        assert IsExitLine(r[k]);
      } else {
        WrittenLinesAreDirectives(e.value);
        assert IsExitLine(r[|r| - 1]);
      }
    }
  }

  lemma SettledIsFixed(lines: seq<string>, s: Option<string>, e: Option<string>)
    requires Settled(lines, s, e)
    ensures Rewrite(lines, s, e) == lines
  {
    DirectivesExclusiveAll(lines);
    assert RewriteAll(lines, s, e) == lines;
  }

  /** No line of a file is both a SocksPort and an ExitNodes directive. */
  lemma DirectivesExclusiveAll(lines: seq<string>)
    ensures forall i :: 0 <= i < |lines| ==> !(IsSocksLine(lines[i]) && IsExitLine(lines[i]))
  {
    forall i | 0 <= i < |lines| ensures !(IsSocksLine(lines[i]) && IsExitLine(lines[i])) {
      DirectivesExclusive(lines[i]);
    }
  }

  /** The codes missing from the country table, in input order (the `invalid` and
      `invalid_codes` comprehensions). */
  function InvalidCodes(codes: seq<string>): (bad: seq<string>)
    ensures |bad| <= |codes|
  {
    if codes == [] then []
    else (if codes[0] in CountryCodes then [] else [codes[0]]) + InvalidCodes(codes[1..])
  }

  /** A code is reported exactly when it was given and is not in the table. */
  lemma {:induction false} InvalidCodesMembers(codes: seq<string>)
    ensures forall c :: c in InvalidCodes(codes) <==> c in codes && c !in CountryCodes
  {
    if codes != [] {
      InvalidCodesMembers(codes[1..]);
      assert codes == [codes[0]] + codes[1..];
    }
  }

  /** Codes that are all in the table leave nothing invalid. */
  lemma {:induction false} AllKnownNoInvalid(codes: seq<string>)
    requires forall i :: 0 <= i < |codes| ==> codes[i] in CountryCodes
    ensures InvalidCodes(codes) == []
  {
    if codes != [] {
      AllKnownNoInvalid(codes[1..]);
    }
  }

  /** `"".join(f"{{{c}}}" for c in codes)`. */
  function ExitNodesValue(codes: seq<string>): string {
    if codes == [] then [] else "{" + codes[0] + "}" + ExitNodesValue(codes[1..])
  }

  /** The countries an ExitNodes value of brace groups names, None when it is not a
      sequence of brace groups. */
  function Groups(s: string): Option<seq<string>>
    decreases |s|
  {
    if s == [] then Some([])
    else if s[0] != '{' then None
    else
      var k := IndexOf(s[1..], '}');
      if k == |s| - 1 then None
      else match Groups(s[k + 2..])
        case None => None
        case Some(rest) => Some([s[1..k + 1]] + rest)
  }

  /** The value lists the codes, in input order. */
  lemma {:induction false} GroupsOfExitNodesValue(codes: seq<string>)
    requires forall i :: 0 <= i < |codes| ==> '}' !in codes[i]
    ensures Groups(ExitNodesValue(codes)) == Some(codes)
  {
    if codes != [] {
      var c, rest := codes[0], ExitNodesValue(codes[1..]);
      var s := "{" + c + "}" + rest;
      assert s[1..] == c + "}" + rest;
      assert (c + "}" + rest)[|c|] == '}';
      assert IndexOf(s[1..], '}') == |c|;
      assert s[1..|c| + 1] == c;
      assert s[|c| + 2..] == rest;
      GroupsOfExitNodesValue(codes[1..]);
      assert codes == [c] + codes[1..];
    }
  }

  /** A value built from known codes lists those codes. */
  lemma KnownCodesGroups(codes: seq<string>)
    requires forall i :: 0 <= i < |codes| ==> codes[i] in CountryCodes
    ensures Groups(ExitNodesValue(codes)) == Some(codes)
  {
    forall i | 0 <= i < |codes|
      ensures '}' !in codes[i]
    {
      CodesHaveNoBraces(codes[i]);
    }
    GroupsOfExitNodesValue(codes);
  }

  /** Words wrapped in braces and joined make one word. */
  lemma {:induction false} ExitNodesValueIsToken(codes: seq<string>)
    requires forall i :: 0 <= i < |codes| ==> IsToken(codes[i])
    ensures NoSpace(ExitNodesValue(codes))
    ensures ExitNodesValue(codes) == [] <==> codes == []
  {
    if codes != [] {
      ExitNodesValueIsToken(codes[1..]);
    }
  }

  /** No country code has a brace in it. */
  lemma CodesHaveNoBraces(c: string)
    requires c in CountryCodes
    ensures '{' !in c && '}' !in c
  {
  }

}
