# torrc handling of meran77777/tor, in Dafny

The repository has two command-line front-ends for the Tor daemon, `torx.py` and the
older `torsina.py`. Each reads and rewrites the `SocksPort` and `ExitNodes` directives
of `/etc/tor/torrc`, and each validates a country list before turning it into an
`ExitNodes` value. `torx.py` also keeps a `TorManager` object. That object caches
whether Tor is installed and caches the parsed torrc pair. It gates `systemctl` actions
on the first cache and builds a crontab entry that restarts Tor at a chosen interval.
This project models that logic and proves what the code promises about it.

The modules, in dependency order:

- `Wrappers`: `Option`.
- `PyStr`: the Python string and file behaviour the code relies on. It covers
  `str.isspace`, `strip()`, `split()`, `split(maxsplit=1)`, `split(sep)`, `sep.join`,
  `startswith`, `replace`, `lower`, `isdigit` and `splitlines()`. It also covers
  `readlines()` and `writelines()` on a file whose content is a string. Each comes with
  the round trips the rest of the model needs.
- `Torrc`: the parts both front-ends share:
  - the two directive keywords;
  - the line written for a directive (`f"{directive} {value}\n"`);
  - the country table, which is identical in both files;
  - the rewrite both `modify_torrc`s perform, as the specification function `Rewrite`.
    It replaces every directive line in place, passes every other line through in order
    and appends a missing directive at the end.
  The lemmas about `Rewrite` cover passthrough, in-place replacement, appending and the
  fixed point it reaches.
- `TorxConfig`: the reader loop and the rewriter loop of `torx.py`. Both are methods
  proved against `Parse` and `Rewrite`. The module also has torx's change detection:
  it compares stripped lines, and `None` and `""` both mean "not provided". It proves
  that the last match wins, read after write, and idempotence.
- `TorxMenu`: what the menu and the command line check before they call
  `modify_torrc`. For a port, the input must be digits and the port must be free. For
  countries, the input is lower-cased and split on commas and whitespace, and every code
  must be known. This module also builds the `ExitNodes` value as `{code}` groups.
- `TorxManager`: the class `TorManager`, with fields for the two caches and the torrc
  content. Its methods are `is_tor_installed`, `_invalidate_cache`, `_require_tor`,
  `read_torrc`, `modify_torrc`, `install_tor`, `uninstall_tor`, `update_tor`,
  `tor_command` and the two configuration commands. Every method keeps the coherence
  invariant: a cached pair is the pair the file gives. This holds because in the model
  `modify_torrc` is the only writer of the file.
- `TorxCron`: the six-entry interval table and the crontab rebuild of `setup_cron_job`.
  It proves that each expression fires exactly every `minutes` minutes, that the rebuild
  keeps the other lines in order and adds exactly one entry, and that running the
  rebuild again changes nothing.
- `Torsina`: `torsina.py`'s reader, rewriter and port prompt. This reader ignores a
  directive line without a value. The rewriter always writes, and it treats `""` as a
  value. On an exception, `read_torrc` returns `None`.
- `TorsinaCountry`: `update_tor_country`. It validates the words of the input (commas
  and whitespace both separate) but builds the value from the comma-separated pieces.
  `"tr de"` therefore passes validation and is written as `{tr de}`.

External effects are parameters. The `which tor` probe is `probe`. Return codes of
`apt`, `systemctl` and `crontab` are `rc` values. Whether opening the torrc for reading
or writing succeeds is `readOk`/`writeOk`. The socket test for a free port is the
predicate `free`. The file itself is an `Option<string>`, None when it does not exist.

Points of the code's behaviour that the model keeps:

- Both readers let the last matching line win (torx.py:86-96, torsina.py:198-207).
- torx's change detection compares stripped lines, not bytes (torx.py:127, 134).
- Both rewriters replace every directive line, not only the first (torx.py:121-138,
  torsina.py:152-167).
- The crontab rebuild drops blank lines as well as lines naming the script (torx.py:293).
- torx's reader skips blank and `#` lines explicitly (torx.py:89-90). Neither kind can
  start with a directive, so this is the same as not matching.

## Model

| member | source | states |
|---|---|---|
| PyStr.StripShape | torx.py:88 | `strip()` returns a string with no whitespace at either end, no longer than its input, and empty exactly when the input is all whitespace |
| PyStr.StripFramed | torx.py:88 | whitespace around a string that has none at its ends is exactly what `strip()` removes |
| PyStr.Split | torx.py:92 | `split()` yields non-empty words without whitespace, and none at all exactly when the input is all whitespace |
| PyStr.SplitOnce | torx.py:96 | `split(maxsplit=1)` yields at most two parts: a word, then a rest starting with no whitespace |
| PyStr.SplitSpaced | torx.py:92 | `split()` of words set apart by whitespace runs of any kind and length, with any whitespace around them, gives back exactly the words |
| PyStr.SplitGapWord | torx.py:92 | whitespace, a word, and a rest that is empty or starts with whitespace: `split()` yields the word, then the words of the rest |
| PyStr.SplitOnceSpaced | torx.py:96 | `split(maxsplit=1)` of whitespace, a word, a non-empty whitespace run and a rest starting with no whitespace gives the word and the rest as it is, trailing whitespace included; with only whitespace after the word it gives the word alone |
| PyStr.SplitOnceAgreesWithSplit | torx.py:92-96 | `split(maxsplit=1)` has the same first word as `split()`, and its rest splits into the remaining words |
| PyStr.SplitJoinOnSpace | torx.py:364 | `split()` of words joined by spaces gives the words back |
| PyStr.JoinOnSplitOn | torsina.py:304 | joining the pieces of `split(',')` with ',' restores the string |
| PyStr.SplitOnJoinOn | torsina.py:304 | splitting a join of comma-free pieces on ',' gives the pieces back |
| PyStr.ReplaceJoinOn | torx.py:364 | `replace(",", " ")` on a comma-joined list is the space-joined list |
| PyStr.ReplaceSpaced | torx.py:364 | `replace` of a character the words do not contain changes only the separators between them |
| PyStr.ReadLines | torx.py:111 | `readlines()` splits the content into non-empty lines that concatenate back to it, each but the last ending in its only "\n" |
| PyStr.ReadLinesConcat | torx.py:155 | lines that each end in one "\n", written with `writelines()`, read back as the same lines |
| PyStr.ReadLinesTerminated | torx.py:111 | content that is empty or ends in "\n" reads as lines that each end in "\n" |
| PyStr.SplitLines | torx.py:293 | `splitlines()` yields lines free of line breaks |
| PyStr.SplitLinesOfJoinLines | torx.py:293-296 | `splitlines()` of lines joined by "\n" gives them back |
| Torrc.DirectivesExclusive | torx.py:123-130 | no line starts with both keywords, so the `elif` order never matters |
| Torrc.RewriteKeepsOtherLines | torx.py:121-138 | the lines that are not directives come out unchanged, in order, with nothing added among them |
| Torrc.RewriteInPlace | torx.py:121-138 | line i of the result is the directive line for the new value when line i is a directive line with a value to write, and line i itself otherwise |
| Torrc.RewriteAppendsMissing | torx.py:140-145 | exactly one line is appended per provided directive that no line carries, after the file's lines, SocksPort before ExitNodes |
| Torrc.RewriteNothing | torsina.py:152-174 | with no value to write the lines are unchanged |
| Torrc.RewriteSettles | torsina.py:152-174 | after a rewrite every directive line with a value to write is that value's line, and every provided directive has a line |
| Torrc.SettledIsFixed | torsina.py:152-174 | a file in that state is left as it is by the rewrite |
| Torrc.RewriteTerminated | torsina.py:176-177 | terminated lines rewritten with values free of "\n" stay terminated |
| Torrc.InvalidCodes | torsina.py:308 | the invalid codes are no more than the codes given |
| Torrc.InvalidCodesMembers | torsina.py:308 | a code is reported exactly when it was given and is not in the country table |
| Torrc.AllKnownNoInvalid | torx.py:365 | known codes leave nothing invalid |
| Torrc.GroupsOfExitNodesValue | torx.py:369 | the `{code}` groups of the value list the codes in input order |
| Torrc.ExitNodesValueIsToken | torx.py:369 | the value built from words is one word, and empty exactly when there are no codes |
| Torrc.CodesHaveNoBraces | torx.py:22-27 | no country code holds a brace |
| TorxConfig.ParseLines | torx.py:86-96 | the reader loop ends with the pair `Parse` gives for the lines |
| TorxConfig.StepSocks | torx.py:91-93 | a SocksPort line sets the port to the second word of the stripped line, None when there is none; any other line leaves it |
| TorxConfig.StepExit | torx.py:94-96 | an ExitNodes line sets the value to everything after the first whitespace run, None when there is nothing; any other line leaves it |
| TorxConfig.SpacedSocksLine | torx.py:88-93 | a SocksPort line with any whitespace before the keyword, any non-empty whitespace run (tabs, several spaces) before the port and any after it sets the port to that word |
| TorxConfig.SpacedExitLine | torx.py:88-96 | an ExitNodes line spaced the same way sets the value to everything between the whitespace run after the keyword and the trailing whitespace, inner whitespace included |
| TorxConfig.LastSocksLineWins | torx.py:86-96 | the last SocksPort line decides the port, whatever earlier lines said |
| TorxConfig.NoSocksLineReadsNone | torx.py:86-96 | with no SocksPort line the port is None |
| TorxConfig.LastExitLineWins | torx.py:86-96 | the last ExitNodes line decides the value |
| TorxConfig.NoExitLineReadsNone | torx.py:86-96 | with no ExitNodes line the value is None |
| TorxConfig.RewriteOne | torx.py:122-138 | one loop pass emits the rewritten line, reports the directive kind, and flags a change when the stripped line differs from the new text |
| TorxConfig.RewriteLines | torx.py:116-145 | the loop and the append step build `Rewrite` of the lines with `None` and `""` read as "not provided", and `modified` is set exactly when `NeedsWrite` holds |
| TorxConfig.NeedsWriteIff | torx.py:127-149 | for values that are non-empty and end in no whitespace (every value torx writes from its menu and command line), `modified` holds exactly when a line is appended or some line strips to something new |
| TorxConfig.SettledNeedsNoWrite | torx.py:147-149 | a file already holding the lines to write needs no write |
| TorxConfig.RewriteIdempotent | torx.py:147-149 | once rewritten, a file that was empty or ended in "\n" reads back as the lines written; rewriting it with the same values changes nothing and is detected as no change |
| TorxConfig.ParseRewriteSocks | torx.py:121-145 | after a rewrite with a one-word port the reader finds that port |
| TorxConfig.ParseRewriteExit | torx.py:121-145 | after a rewrite with an ExitNodes value that has no whitespace at its ends, the reader finds that value |
| TorxConfig.ReadBackSocksPort | torx.py:140-145 | a one-word port written into a file that is empty or ends in "\n" is what `read_torrc` then returns |
| TorxConfig.ReadBackExitNodes | torx.py:140-145 | likewise for an ExitNodes value without surrounding whitespace or newlines |
| TorxConfig.NotDirectiveByFirstChar | torx.py:123-130 | a line starting with a character that is neither whitespace, 'S' nor 'E' is no directive line |
| TorxConfig.GluedAppend | torx.py:140-145 | in a file whose last line has no "\n", the SocksPort line is glued to that line; the result reads back no port, so the next call writes again |
| TorxMenu.CountryCodesOf | torx.py:364 | the codes are words without whitespace |
| TorxMenu.CountryCodesOfCommaList | torx.py:364 | typing lower-case codes separated by commas gives exactly those codes, in order |
| TorxMenu.CountryCodesOfSeparated | torx.py:364 | lower-case codes separated by any runs of commas and whitespace ("tr, de", "tr de") give exactly those codes, in order |
| TorxMenu.SelectCountriesValidates | torx.py:365-369 | the input is accepted exactly when every code is known; a rejection names every unknown code and nothing else |
| TorxMenu.AcceptedCountries | torx.py:369 | an accepted value lists the typed codes in order and is one word, unless no code was typed, when it is "" and counts as not provided |
| TorxMenu.CountriesReadBack | torx.py:432-441 | an accepted non-empty country list, once written, is the ExitNodes value `read_torrc` returns |
| TorxMenu.PortChoice | torx.py:424-426 | the port is accepted exactly when the stripped input is digits and free; the accepted port is the stripped input, one word |
| TorxMenu.PortReadsBack | torx.py:352-354 | an accepted port, once written, is the SocksPort `read_torrc` returns |
| TorxManager.WrittenTorrc | torx.py:103-162 | a replacement file exists only when the file existed, was read, something needed writing and the write succeeded |
| TorxManager.RepeatWritesNothing | torx.py:147-149 | repeating `modify_torrc` with the same values on the file it wrote writes nothing |
| TorxManager.WrittenTorrcReads | torx.py:152-157 | the written file reads back as the rewritten lines, so the next read parses exactly those |
| TorxManager.TorManager.constructor | torx.py:35-37 | both caches start empty |
| TorxManager.TorManager.IsTorInstalled | torx.py:55-61 | the cached flag is returned when the cache is used and set; otherwise the probe's answer is returned and stored |
| TorxManager.TorManager.InvalidateCache | torx.py:63-64 | the torrc cache is cleared |
| TorxManager.TorManager.RequireTor | torx.py:66-70 | the gate answers from the cache when set, else from the probe, and stores its answer |
| TorxManager.TorManager.ReadTorrc | torx.py:73-101 | a cached pair is returned without reading; a missing file gives (None, None) and is cached; a failed read gives (None, None) and is not cached; otherwise the parsed pair is returned and cached; the cache stays coherent with the file |
| TorxManager.TorManager.ModifyTorrc | torx.py:103-162 | True exactly when the rewritten lines replace the file, and only then is the cache cleared; on every other path neither file nor cache changes |
| TorxManager.TorManager.InstallTor | torx.py:165-186 | the four apt steps run in order until the first that fails, which is the last one run; success exactly when all four return 0, which sets the installed flag to True, failure leaves it |
| TorxManager.TorManager.UninstallTor | torx.py:188-195 | success sets the installed flag to False, failure leaves it |
| TorxManager.TorManager.UpdateTor | torx.py:197-206 | the upgrade runs only when Tor is installed |
| TorxManager.TorManager.TorCommand | torx.py:238-250 | `systemctl <action> tor` runs exactly when Tor is installed and the action is start, stop, restart, reload or status; the result is that it ran and returned 0 |
| TorxManager.TorManager.SetPort | torx.py:424-430 | only an accepted port reaches `modify_torrc`; a refused one changes nothing and restarts nothing; an accepted one is followed by `tor_command("restart")`, which fills the installed cache and calls `systemctl restart tor` exactly when Tor is installed |
| TorxManager.TorManager.SetCountries | torx.py:432-441 | only an input without invalid codes reaches `modify_torrc`, with its `{code}` value; a rejected one changes nothing and restarts nothing; an accepted one is followed by the same restart as `SetPort` |
| TorxCron.CronExpression | torx.py:257-272 | exactly 1, 30, 60, 240, 720 and 1440 minutes have an expression |
| TorxCron.CronExpressionPeriod | torx.py:259-271 | each expression fires at minute t of the day exactly when t is a multiple of the interval |
| TorxCron.Kept | torx.py:293 | the kept lines are exactly the old lines that are not blank and do not name the script, and no more of them |
| TorxCron.KeptAppend | torx.py:293 | the filter keeps order |
| TorxCron.KeptTwice | torx.py:293 | filtering twice is filtering once |
| TorxCron.RebuildCrontab | torx.py:289-294 | the rebuilt table ends with the new entry, and every line before it is a kept line |
| TorxCron.RebuildKeepsOthers | torx.py:289-294 | the old lines that survive are exactly the kept lines of a readable old crontab, and the entry is the only line that names the script |
| TorxCron.SupportedExpressions | torx.py:259-271 | every expression is non-empty, starts with no whitespace and holds no line break |
| TorxCron.CrontabTextLines | torx.py:296 | the text handed to `crontab` lists the rebuilt table line by line |
| TorxCron.RebuildAgain | torx.py:289-296 | rebuilding from the installed crontab gives the same table, so no second entry is added |
| TorxCron.SetupCronJob | torx.py:274-307 | True exactly when the interval is supported, the script is written and `crontab` returns 0; an unsupported interval or a failed script write stops before any crontab is built; the crontab installed splits back into the rebuilt table |
| Torsina.ParseLines | torsina.py:198-207 | the reader loop ends with the pair `Parse` gives for the lines |
| Torsina.ReadTorrc | torsina.py:188-216 | (None, None) when Tor is not installed; None when the file is missing or unreadable; otherwise the parsed pair |
| Torsina.StepSocks | torsina.py:200-203 | a SocksPort line with a second word sets the port to it; any other line, including a valueless SocksPort line, leaves it |
| Torsina.StepExit | torsina.py:204-207 | an ExitNodes line with text after the keyword sets the value to that text; any other line leaves it |
| Torsina.LastValuedSocksWins | torsina.py:198-207 | the last SocksPort line that carries a port decides it |
| Torsina.LastValuedExitWins | torsina.py:198-207 | the last ExitNodes line that carries a value decides it |
| Torsina.ValuelessLineIgnored | torsina.py:198-207 | a directive line without a value leaves both values as they were |
| Torsina.NoValuedSocksReadsNone | torsina.py:198-207 | with no SocksPort line carrying a port the port is None |
| Torsina.NoValuedExitReadsNone | torsina.py:198-207 | with no ExitNodes line carrying a value the ExitNodes value is None |
| Torsina.RewriteLines | torsina.py:152-174 | the loop and the append step build `Rewrite` of the lines, with only `None` read as "not provided" |
| Torsina.ModifyTorrc | torsina.py:141-186 | the file is rewritten exactly when Tor is installed and the file exists, can be read and can be opened for writing; otherwise it stays as it was and a missing file is never created |
| Torsina.RewriteNothingKeepsContent | torsina.py:176-177 | with nothing to write the file is still rewritten, with the content it had |
| Torsina.SecondWriteSameContent | torsina.py:176-177 | writing the same values again rewrites the file with the content it already has |
| Torsina.ReadBackSocksPort | torsina.py:170-174 | a one-word port written into a file that is empty or ends in "\n" is what `read_torrc` then returns |
| Torsina.ReadBackExitNodes | torsina.py:170-174 | likewise for an ExitNodes value without surrounding whitespace or newlines |
| Torsina.EmptySocksLine | torsina.py:157 | the line written for an empty port is a SocksPort line without a value |
| Torsina.EmptyPortReadsNone | torsina.py:156-157 | an empty port is written, not skipped, and afterwards `read_torrc` finds no port at all |
| Torsina.PortEntry | torsina.py:374-381 | the prompt stops at the first answer that is all digits and free, after refusing every earlier one; None when no answer given is accepted |
| Torsina.ChangePort | torsina.py:371-383 | `modify_torrc` runs with the accepted port as the new SocksPort only once an answer is accepted |
| Torsina.AcceptedPortReadsBack | torsina.py:383 | an accepted port, once written, is the SocksPort `read_torrc` returns |
| TorsinaCountry.Items | torsina.py:304 | the comma-separated pieces are never fewer than one |
| TorsinaCountry.Codes | torsina.py:307 | validation sees words without whitespace |
| TorsinaCountry.UpdateTorCountryValidates | torsina.py:302-312 | the input is refused exactly when validation sees an unknown code, naming every such code and nothing else; otherwise the value is the brace groups of the comma-separated pieces |
| TorsinaCountry.UpdateTorCountryFile | torsina.py:302-316 | an invalid code returns before `modify_torrc`, so the file is unchanged; otherwise `modify_torrc` runs with the value as the new ExitNodes and no new SocksPort |
| TorsinaCountry.SameWordsAccepted | torsina.py:304-315 | an input whose validation and construction see the same known codes is written as their brace groups, which list the codes back |
| TorsinaCountry.CommaListWords | torsina.py:304-307 | for a comma-separated list, validation and construction both see exactly its words |
| TorsinaCountry.CommaInput | torsina.py:304-312 | "tr,de" is accepted and written as "{tr}{de}" |
| TorsinaCountry.SpaceInput | torsina.py:304-312 | "tr de" passes validation but is written as "{tr de}", one group naming no country in the table |
| TorsinaCountry.EmptyInput | torsina.py:304-312 | empty input passes validation and is written as "{}" |

## Left out

- Process calls: `apt`, `pip`, `systemctl`, `service`, `which`, `crontab` and `_run_command` are not run. Their outcomes are parameters (`probe`, `rc`, `stdout`).
- `show_status`, `status_tor`, `show_numbers`, `get_tor_ip` and `reload_tor`/`restart_tor`/`start_tor`/`stop_tor` of `torsina.py` are left out. They are process or HTTP I/O with no torrc logic.
- The socket probes `is_port_available` and `check_portNumber` are the predicate `free`.
- Menus, banners, `clear_screen`, `input`, `argparse` and logging are left out. Only the acceptance conditions inside them are modelled.
- `update_tor_country`'s `input()` is the parameter `raw`. `main`'s `while country_data == False` loop around it is not modelled.
- `Torsina.PortEntry`: the prompt loop in `main` never ends while answers are refused. The model takes a finite list of answers and returns None when none is accepted.
- The real filesystem is not modelled. The file is its content. `torx.py`'s temp-file write and `replace` are one assignment made only when the whole write succeeds.
- `Torsina.ModifyTorrc`: a write that fails after `open(..., "w")` has truncated the file is modelled as leaving the file unchanged. A partially written file is not modelled.
- UTF-8 decoding with `errors="ignore"` is not modelled, and neither is universal-newline translation. The content is a string whose lines end in "\n".
- `PyStr.Lower` only lower-cases ASCII letters, and `PyStr.IsDigits` only accepts ASCII digits. Python's versions also act on other Unicode letters and digits.
- `torsina.py`'s `main` unpacks the result of `read_torrc` and fails when it is None. That crash is not modelled; `Torsina.ReadTorrc` returns the None.
- Of `setup_cron_job` only the outcome is modelled. Writing and `chmod`-ing `restart_tor.sh` is the flag `scriptOk`, and the temporary crontab file is the text handed over.
- `TorxManager.TorManager.Coherent`: the torrc cache is coherent only because no one else writes the file in the model. In the program the cache can go stale: `install_tor` (torx.py:165-186) can create or replace `/etc/tor/torrc` without clearing it, and any edit from outside the program goes unnoticed until `modify_torrc` succeeds.
- `TorxCron.CronExpressionPeriod` reads the day, month and weekday fields only as `*`, which is all the six expressions use. It is not a general cron matcher.
