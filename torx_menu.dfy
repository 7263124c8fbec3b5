/** The checks torx.py's interactive menu (torx.py:352-372) and command line
    (torx.py:424-441) make on a new SocksPort or a country list before they call
    `modify_torrc`, and the ExitNodes string they build. */
module TorxMenu {
  import opened Wrappers
  import opened PyStr
  import opened Torrc
  import opened TorxConfig

  /** The words of the country input: commas count as spaces, and every word is
      lower-cased. */
  function CountryCodesOf(raw: string): (codes: seq<string>)
    ensures forall i :: 0 <= i < |codes| ==> IsToken(codes[i])
  {
    var words := Split(ReplaceChar(raw, ',', ' '));
    seq(|words|, i requires 0 <= i < |words| => Lower(words[i]))
  }

  /** A code as the user may type it back: a word with no comma and no upper-case letter. */
  predicate PlainCode(c: string) {
    IsToken(c) && ',' !in c && forall i :: 0 <= i < |c| ==> !('A' <= c[i] <= 'Z')
  }

  /** Typing plain codes separated by commas gives exactly those codes, in order. */
  lemma CountryCodesOfCommaList(codes: seq<string>)
    requires codes != []
    requires forall i :: 0 <= i < |codes| ==> PlainCode(codes[i])
    ensures CountryCodesOf(JoinOn(codes, ',')) == codes
  {
    ReplaceJoinOn(codes, ',', ' ');
    SplitJoinOnSpace(codes);
    var r := CountryCodesOf(JoinOn(codes, ','));
    forall i | 0 <= i < |codes|
      ensures r[i] == codes[i]
    {
      assert Lower(codes[i]) == codes[i];
    }
  }

  /** Plain codes separated by any runs of commas and whitespace ("tr, de", "tr de",
      " tr,,de ") give exactly those codes, in order: every comma becomes a space and
      `split()` takes the spacing apart. */
  lemma CountryCodesOfSeparated(seps: seq<string>, codes: seq<string>)
    requires |seps| == |codes| + 1
    requires forall i, j :: 0 <= i < |seps| && 0 <= j < |seps[i]| ==> seps[i][j] == ',' || IsSpace(seps[i][j])
    requires forall i :: 0 < i < |codes| ==> seps[i] != []
    requires forall i :: 0 <= i < |codes| ==> PlainCode(codes[i])
    ensures CountryCodesOf(Spaced(seps, codes)) == codes
  {
    ReplaceSpaced(seps, codes, ',', ' ');
    var gaps := ReplaceEach(seps, ',', ' ');
    forall i | 0 <= i < |gaps| ensures AllSpace(gaps[i]) {
      forall j | 0 <= j < |gaps[i]| ensures IsSpace(gaps[i][j]) {
        assert gaps[i][j] == (if seps[i][j] == ',' then ' ' else seps[i][j]);
      }
    }
    SplitSpaced(gaps, codes);
    var r := CountryCodesOf(Spaced(seps, codes));
    forall i | 0 <= i < |codes|
      ensures r[i] == codes[i]
    {
      assert Lower(codes[i]) == codes[i];
    }
  }

  /** What a country input leads to: the ExitNodes value to write, or the codes that
      block the write. */
  datatype Selection = Accepted(exitNodes: string) | Rejected(invalid: seq<string>)

  function SelectCountries(raw: string): Selection {
    var codes := CountryCodesOf(raw);
    var invalid := InvalidCodes(codes);
    if invalid != [] then Rejected(invalid) else Accepted(ExitNodesValue(codes))
  }

  /** The input is accepted exactly when every code is in the table; a rejection names
      every unknown code and nothing else. */
  lemma SelectCountriesValidates(raw: string)
    ensures SelectCountries(raw).Accepted? <==> forall c :: c in CountryCodesOf(raw) ==> c in CountryCodes
    ensures SelectCountries(raw).Rejected? ==>
      SelectCountries(raw).invalid != []
      && forall c :: c in SelectCountries(raw).invalid <==> c in CountryCodesOf(raw) && c !in CountryCodes
  {
    var invalid := InvalidCodes(CountryCodesOf(raw));
    InvalidCodesMembers(CountryCodesOf(raw));
    if invalid != [] {
      assert invalid[0] in invalid;
    }
  }

  /** An accepted value names the typed codes in order and is one word, unless no code
      was typed, in which case it is "" and `modify_torrc` treats it as not provided. */
  lemma AcceptedCountries(raw: string)
    requires SelectCountries(raw).Accepted?
    ensures var v := SelectCountries(raw).exitNodes;
      && Groups(v) == Some(CountryCodesOf(raw))
      && (CountryCodesOf(raw) != [] ==> IsToken(v))
      && (CountryCodesOf(raw) == [] ==> Provided(Some(v)) == None)
  {
    var codes := CountryCodesOf(raw);
    SelectCountriesValidates(raw);
    forall i | 0 <= i < |codes|
      ensures '}' !in codes[i]
    {
      assert codes[i] in codes;
      CodesHaveNoBraces(codes[i]);
    }
    GroupsOfExitNodesValue(codes);
    ExitNodesValueIsToken(codes);
  }

  /** Read after write for the country list: when the input is accepted and names at
      least one country, writing it into a file that is empty or ends with a newline
      makes `read_torrc` return exactly that ExitNodes value. */
  lemma CountriesReadBack(content: string, raw: string, v: string)
    requires content == [] || content[|content| - 1] == '\n'
    requires SelectCountries(raw) == Accepted(v) && CountryCodesOf(raw) != []
    ensures Parse(ReadLines(Concat(Rewrite(ReadLines(content), Provided(None), Provided(Some(v)))))).exitNodes == Some(v)
  {
    AcceptedCountries(raw);
    ExitTokenReadsBack(content, v);
  }

  /** A one-word ExitNodes value reads back. */
  lemma ExitTokenReadsBack(content: string, v: string)
    requires content == [] || content[|content| - 1] == '\n'
    requires IsToken(v)
    ensures Parse(ReadLines(Concat(Rewrite(ReadLines(content), Provided(None), Provided(Some(v)))))).exitNodes == Some(v)
  {
    TokenFramed(v);
    ReadBackExitNodes(content, None, v);
  }

  /** `p.isdigit() and is_port_available(p)` on the stripped input; `free` stands for the
      socket probe. */
  function PortChoice(raw: string, free: string -> bool): (p: Option<string>)
    ensures p.Some? <==> IsDigits(Strip(raw)) && free(Strip(raw))
    ensures p.Some? ==> p.value == Strip(raw) && IsToken(p.value)
  {
    var p := Strip(raw);
    if IsDigits(p) && free(p) then Some(p) else None
  }

  /** Read after write for a new port: an accepted port written into a file that is
      empty or ends with a newline is the SocksPort `read_torrc` then returns. */
  lemma PortReadsBack(content: string, raw: string, free: string -> bool)
    requires content == [] || content[|content| - 1] == '\n'
    requires PortChoice(raw, free).Some?
    ensures var p := PortChoice(raw, free).value;
      Parse(ReadLines(Concat(Rewrite(ReadLines(content), Provided(Some(p)), Provided(None))))).socksPort == Some(p)
  {
    ReadBackSocksPort(content, PortChoice(raw, free).value, None);
  }
}
