/** torsina.py's `update_tor_country` (torsina.py:302-316): the codes it validates, the
    ExitNodes string it builds, and the `modify_torrc` call it makes. Validation splits on
    commas and whitespace, construction on commas only, so the two can see different
    codes. */
module TorsinaCountry {
  import opened Wrappers
  import opened PyStr
  import opened Torrc
  import opened Torsina

  /** `items`: the input split on commas only, each piece stripped. */
  function Items(raw: string): (items: seq<string>)
    ensures |items| >= 1
  {
    var pieces := SplitOn(raw, ',');
    seq(|pieces|, i requires 0 <= i < |pieces| => Strip(pieces[i]))
  }

  /** `output_string`: every stripped comma-separated piece wrapped in braces, in
      order. */
  function OutputString(raw: string): string {
    ExitNodesValue(Items(raw))
  }

  /** `codes`: the words of the input with commas read as spaces (stripping a word
      changes nothing), kept case-sensitive. */
  function Codes(raw: string): (codes: seq<string>)
    ensures forall i :: 0 <= i < |codes| ==> IsToken(codes[i])
  {
    var words := Split(ReplaceChar(raw, ',', ' '));
    seq(|words|, i requires 0 <= i < |words| => StripWord(words[i]))
  }

  function StripWord(w: string): (r: string)
    requires IsToken(w)
    ensures r == w
  {
    TokenFramed(w);
    StripOfFramed(w);
    Strip(w)
  }

  /** What `update_tor_country` does with an input: the invalid codes that make it
      return False, or the ExitNodes value it passes to `modify_torrc`. */
  datatype CountryUpdate = Invalid(codes: seq<string>) | Updated(exitNodes: string)

  function UpdateTorCountry(raw: string): CountryUpdate {
    var invalid := InvalidCodes(Codes(raw));
    if invalid != [] then Invalid(invalid) else Updated(OutputString(raw))
  }

  /** The input is refused exactly when validation sees a code missing from the table,
      and the refusal names every such code and nothing else; otherwise the value is
      built from the comma-separated pieces. */
  lemma UpdateTorCountryValidates(raw: string)
    ensures UpdateTorCountry(raw).Invalid? <==> exists c :: c in Codes(raw) && c !in CountryCodes
    ensures UpdateTorCountry(raw).Invalid? ==>
      UpdateTorCountry(raw).codes != []
      && forall c :: c in UpdateTorCountry(raw).codes <==> c in Codes(raw) && c !in CountryCodes
    ensures UpdateTorCountry(raw).Updated? ==> UpdateTorCountry(raw).exitNodes == OutputString(raw)
  {
    var invalid := InvalidCodes(Codes(raw));
    InvalidCodesMembers(Codes(raw));
    if invalid != [] {
      assert invalid[0] in invalid;
    }
  }

  /** `update_tor_country` with its call: an invalid code returns before
      `modify_torrc`, so the file stays as it was; otherwise `modify_torrc` runs with
      the value as the new ExitNodes and no new SocksPort. */
  method UpdateTorCountryFile(raw: string, installed: bool, torrc: Option<string>, readOk: bool, writeOk: bool)
    returns (u: CountryUpdate, wrote: bool, after: Option<string>)
    ensures u == UpdateTorCountry(raw)
    ensures u.Invalid? ==> !wrote && after == torrc
    ensures u.Updated? ==>
      (wrote <==> installed && torrc.Some? && readOk && writeOk)
      && (wrote ==> after == Some(Concat(Rewrite(ReadLines(torrc.value), None, Some(u.exitNodes)))))
      && (!wrote ==> after == torrc)
  {
    u := UpdateTorCountry(raw);
    if u.Invalid? {
      return u, false, torrc;
    }
    wrote, after := ModifyTorrc(installed, torrc, None, Some(u.exitNodes), readOk, writeOk);
  }

  /** An input whose validation and construction both see `codes`, all of them in the
      table, is written as the brace groups of `codes`, which list `codes` back. */
  lemma SameWordsAccepted(raw: string, codes: seq<string>)
    requires Codes(raw) == codes && Items(raw) == codes
    requires forall i :: 0 <= i < |codes| ==> codes[i] in CountryCodes
    ensures UpdateTorCountry(raw) == Updated(ExitNodesValue(codes))
    ensures Groups(UpdateTorCountry(raw).exitNodes) == Some(codes)
  {
    AllKnownNoInvalid(codes);
    KnownCodesGroups(codes);
  }

  /** Validation and construction both see exactly the words of a comma-separated
      list, so for known codes `SameWordsAccepted` applies. */
  lemma CommaListWords(codes: seq<string>)
    requires codes != []
    requires forall i :: 0 <= i < |codes| ==> IsToken(codes[i]) && ',' !in codes[i]
    ensures Codes(JoinOn(codes, ',')) == codes && Items(JoinOn(codes, ',')) == codes
  {
    CodesOfCommaList(codes);
    ItemsOfCommaList(codes);
  }

  lemma CodesOfCommaList(codes: seq<string>)
    requires codes != []
    requires forall i :: 0 <= i < |codes| ==> IsToken(codes[i]) && ',' !in codes[i]
    ensures Codes(JoinOn(codes, ',')) == codes
  {
    ReplaceJoinOn(codes, ',', ' ');
    SplitJoinOnSpace(codes);
  }

  lemma ItemsOfCommaList(codes: seq<string>)
    requires codes != []
    requires forall i :: 0 <= i < |codes| ==> IsToken(codes[i]) && ',' !in codes[i]
    ensures Items(JoinOn(codes, ',')) == codes
  {
    SplitOnJoinOn(codes, ',');
    forall i | 0 <= i < |codes|
      ensures Strip(codes[i]) == codes[i]
    {
      TokenFramed(codes[i]);
      StripOfFramed(codes[i]);
    }
  }

  /** "tr,de" is accepted and written as "{tr}{de}". */
  lemma CommaInput(raw: string)
    requires raw == "tr,de"
    ensures UpdateTorCountry(raw) == Updated("{tr}{de}")
  {
    CommaInputWords(raw);
    KnownPair();
    WordsWritten(raw, ["tr", "de"], ["tr", "de"]);
  }

  lemma CommaInputWords(raw: string)
    requires raw == "tr,de"
    ensures Codes(raw) == ["tr", "de"] && Items(raw) == ["tr", "de"]
  {
    assert JoinOn(["tr", "de"], ',') == raw;
    CommaListWords(["tr", "de"]);
  }

  lemma KnownPair()
    ensures InvalidCodes(["tr", "de"]) == [] && ExitNodesValue(["tr", "de"]) == "{tr}{de}"
  {
    KnownPairCodes();
    assert ExitNodesValue(["tr", "de"]) == "{tr}{de}";
  }

  lemma KnownPairCodes()
    ensures InvalidCodes(["tr", "de"]) == []
  {
    assert "tr" in CountryCodes && "de" in CountryCodes;
    AllKnownNoInvalid(["tr", "de"]);
  }

  /** What `update_tor_country` writes once validation has passed: the brace groups of
      the comma-separated pieces. */
  lemma WordsWritten(raw: string, codes: seq<string>, items: seq<string>)
    requires Codes(raw) == codes && Items(raw) == items && InvalidCodes(codes) == []
    ensures UpdateTorCountry(raw) == Updated(ExitNodesValue(items))
  {
  }

  /** "tr de" passes validation, which sees the known codes "tr" and "de", but is
      written as the single group "{tr de}", which names no country in the table. */
  lemma SpaceInput(raw: string)
    requires raw == "tr de"
    ensures UpdateTorCountry(raw) == Updated("{tr de}")
    ensures Groups("{tr de}") == Some(["tr de"]) && "tr de" !in CountryCodes
  {
    SpaceInputCodes(raw);
    SpaceInputItems(raw);
    SpaceGroup();
    WordsWritten(raw, ["tr", "de"], ["tr de"]);
  }

  lemma SpaceInputCodes(raw: string)
    requires raw == "tr de"
    ensures Codes(raw) == ["tr", "de"]
  {
    SpaceInputSplit(raw);
    NoCommaCodes(raw, ["tr", "de"]);
  }

  lemma SpaceInputSplit(raw: string)
    requires raw == "tr de"
    ensures ',' !in raw && Split(raw) == ["tr", "de"]
  {
    SpaceJoined();
    SplitJoinOnSpace(["tr", "de"]);
    SpaceInputNoComma(raw);
  }

  lemma SpaceInputNoComma(raw: string)
    requires raw == "tr de"
    ensures ',' !in raw
  {
  }

  lemma SpaceJoined()
    ensures JoinOn(["tr", "de"], ' ') == "tr de"
  {
  }

  /** Without a comma, validation sees the words of the input. */
  lemma NoCommaCodes(raw: string, words: seq<string>)
    requires ',' !in raw && Split(raw) == words
    ensures Codes(raw) == words
  {
    assert ReplaceChar(raw, ',', ' ') == raw;
  }

  lemma SpaceInputItems(raw: string)
    requires raw == "tr de"
    ensures Items(raw) == ["tr de"]
  {
    assert IndexOf(raw, ',') == |raw|;
    assert SplitOn(raw, ',') == [raw];
    assert Framed(raw);
    StripOfFramed(raw);
  }

  lemma SpaceGroup()
    ensures InvalidCodes(["tr", "de"]) == [] && ExitNodesValue(["tr de"]) == "{tr de}"
    ensures Groups("{tr de}") == Some(["tr de"]) && "tr de" !in CountryCodes
  {
    KnownPairCodes();
    SpaceGroupValue();
    SpaceGroupUnknown();
  }

  lemma SpaceGroupValue()
    ensures ExitNodesValue(["tr de"]) == "{tr de}" && Groups("{tr de}") == Some(["tr de"])
  {
    assert ExitNodesValue(["tr de"]) == "{tr de}";
    GroupsOfExitNodesValue(["tr de"]);
  }

  lemma SpaceGroupUnknown()
    ensures "tr de" !in CountryCodes
  {
    forall c | c in CountryCodes
      ensures |c| == 2
    {
    }
  }

  /** An empty input passes validation, having no codes, and is written as "{}". */
  lemma EmptyInput(raw: string)
    requires raw == ""
    ensures UpdateTorCountry(raw) == Updated("{}")
  {
    assert Codes(raw) == [] && Items(raw) == [""];
    assert ExitNodesValue([""]) == "{}";
    WordsWritten(raw, [], [""]);
  }
}
