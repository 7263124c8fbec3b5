/** torx.py's cron support (torx.py:256-305): the table of supported intervals and the
    crontab that `setup_cron_job` hands to `crontab`. */
module TorxCron {
  import opened Wrappers
  import opened PyStr

  /** SCRIPT_PATH */
  const ScriptPath: string := "/usr/bin/restart_tor.sh"

  /** The restart script `setup_cron_job` writes to ScriptPath. */
  const ScriptContent: string := "#!/bin/bash\nsystemctl restart tor || service tor restart\n"

  /** `_cron_expression_for_minutes`: the six supported intervals, None for any other.
      Each expression is written as its five fields (minute, hour, day, month, weekday)
      joined by single spaces, which is the string on torx.py:259-271. */
  function CronExpression(minutes: int): (e: Option<string>)
    ensures e.Some? <==> minutes in {1, 30, 60, 240, 720, 1440}
  {
    match CronFields(minutes)
    case None => None
    case Some(fs) => Some(JoinOn(fs, ' '))
  }

  function CronFields(minutes: int): Option<seq<string>> {
    if minutes == 1 then Some(["*", "*", "*", "*", "*"])
    else if minutes == 30 then Some(["*/30", "*", "*", "*", "*"])
    else if minutes == 60 then Some(["0", "*", "*", "*", "*"])
    else if minutes == 240 then Some(["0", "*/4", "*", "*", "*"])
    else if minutes == 720 then Some(["0", "*/12", "*", "*", "*"])
    else if minutes == 1440 then Some(["0", "0", "*", "*", "*"])
    else None
  }

  /** A cron field matching the value v: a star (any value), a number n, or a star, a
      slash and a step n (multiples of n). */
  predicate FieldMatches(f: string, v: nat) {
    f == "*"
    || (IsDigits(f) && DecimalValue(f) == v)
    || (|f| > 2 && f[..2] == "*/" && IsDigits(f[2..]) && DecimalValue(f[2..]) > 0
        && v % DecimalValue(f[2..]) == 0)
  }

  /** Whether five fields whose day, month and weekday fields are `*` fire at minute t of
      every day (0 <= t < 1440). */
  predicate FieldsFire(fs: seq<string>, t: nat) {
    |fs| == 5 && FieldMatches(fs[0], t % 60) && FieldMatches(fs[1], t / 60)
    && fs[2] == "*" && fs[3] == "*" && fs[4] == "*"
  }

  /** Whether the expression, read as cron reads it (fields split on whitespace), fires
      at minute t of every day. */
  predicate FiresAt(expr: string, t: nat) {
    FieldsFire(Split(expr), t)
  }

  /** Every supported expression fires exactly every `minutes` minutes through the day,
      starting at midnight. */
  lemma CronExpressionPeriod(minutes: int, t: nat)
    requires CronExpression(minutes).Some? && t < 1440
    ensures FiresAt(CronExpression(minutes).value, t) <==> t % minutes == 0
  {
    var fs := CronFields(minutes).value;
    FieldWords(minutes);
    SplitJoinOnSpace(fs);
    if minutes == 30 {
      EveryHalfHour(t);
    } else if minutes == 60 {
      EveryHour(t);
    } else if minutes == 240 {
      EveryFourHours(t);
    } else if minutes == 720 {
      EveryTwelveHours(t);
    } else if minutes == 1440 {
      Daily(t);
    }
  }

  /** The fields are words without line breaks. */
  lemma FieldWords(minutes: int)
    requires CronFields(minutes).Some?
    ensures var fs := CronFields(minutes).value;
      forall i :: 0 <= i < |fs| ==> IsToken(fs[i]) && NoLineBreak(fs[i])
  {
    Word("*");
    if minutes == 30 {
      Word("*/30");
    } else if minutes != 1 {
      Word("0");
      if minutes == 240 {
        Word("*/4");
      } else if minutes == 720 {
        Word("*/12");
      }
    }
  }

  lemma Word(f: string)
    requires forall i :: 0 <= i < |f| ==> f[i] == '*' || f[i] == '/' || '0' <= f[i] <= '9'
    requires f != []
    ensures IsToken(f) && NoLineBreak(f)
  {
  }

  lemma DecimalZero()
    ensures DecimalValue("0") == 0
  {
    assert "0"[..0] == "";
  }

  lemma EveryHalfHour(t: nat)
    ensures FieldsFire(["*/30", "*", "*", "*", "*"], t) <==> t % 30 == 0
  {
    HalfHourField(t % 60);
    HalfHourStep(t);
  }

  lemma HalfHourField(v: nat)
    ensures FieldMatches("*/30", v) <==> v % 30 == 0
  {
    var f := "*/30";
    assert f[0] == '*' && f != "*";
    assert f[..2] == "*/" && f[2..] == "30";
    assert DecimalValue("30") == 30 by { assert "30"[..1] == "3"; assert "3"[..0] == ""; }
  }

  lemma HalfHourStep(t: nat)
    ensures (t % 60) % 30 == 0 <==> t % 30 == 0
  {
    var h, r := t / 60, t % 60;
    assert t == 30 * (2 * h) + r && 0 <= r < 60;
    if r < 30 {
      assert t == 30 * (2 * h) + r && t % 30 == r;
    } else {
      assert t == 30 * (2 * h + 1) + (r - 30) && t % 30 == r - 30;
    }
  }

  lemma EveryHour(t: nat)
    ensures FieldsFire(["0", "*", "*", "*", "*"], t) <==> t % 60 == 0
  {
    DecimalZero();
  }

  lemma EveryFourHours(t: nat)
    requires t < 1440
    ensures FieldsFire(["0", "*/4", "*", "*", "*"], t) <==> t % 240 == 0
  {
    DecimalZero();
    var f := "*/4";
    assert f[..2] == "*/" && f[2..] == "4";
    assert DecimalValue("4") == 4 by { assert "4"[..0] == ""; }
    HourSteps(t, 4);
  }

  lemma EveryTwelveHours(t: nat)
    requires t < 1440
    ensures FieldsFire(["0", "*/12", "*", "*", "*"], t) <==> t % 720 == 0
  {
    DecimalZero();
    var f := "*/12";
    assert f[..2] == "*/" && f[2..] == "12";
    assert DecimalValue("12") == 12 by { assert "12"[..1] == "1"; assert "1"[..0] == ""; }
    HourSteps(t, 12);
  }

  lemma Daily(t: nat)
    requires t < 1440
    ensures FieldsFire(["0", "0", "*", "*", "*"], t) <==> t % 1440 == 0
  {
    DecimalZero();
    assert t / 60 == 0 <==> t < 60;
  }

  /** Minute 0 of every k-th hour of the day is every 60k minutes, for k = 4 and 12. */
  lemma HourSteps(t: nat, k: nat)
    requires t < 1440 && (k == 4 || k == 12)
    ensures (t % 60 == 0 && (t / 60) % k == 0) <==> t % (60 * k) == 0
  {
    var h, r := t / 60, t % 60;
    assert t == 60 * h + r && 0 <= r < 60 && h < 24;
    if k == 4 {
      HourSteps4(t, h, r);
    } else {
      HourSteps12(t, h, r);
    }
  }

  lemma HourSteps4(t: nat, h: nat, r: nat)
    requires t == 60 * h + r && r < 60 && h < 24
    ensures (r == 0 && h % 4 == 0) <==> t % 240 == 0
  {
    assert t % 240 == 60 * (h % 4) + r;
  }

  lemma HourSteps12(t: nat, h: nat, r: nat)
    requires t == 60 * h + r && r < 60 && h < 24
    ensures (r == 0 && h % 12 == 0) <==> t % 720 == 0
  {
    assert t % 720 == 60 * (h % 12) + r;
  }

  /** A kept line of the old crontab: not blank and not mentioning the script. */
  predicate KeepLine(l: string) {
    !Contains(l, ScriptPath) && Strip(l) != []
  }

  /** `[l for l in lines if SCRIPT_PATH not in l and l.strip()]`. */
  function Kept(lines: seq<string>): (r: seq<string>)
    ensures forall l :: l in r <==> l in lines && KeepLine(l)
    ensures |r| <= |lines|
  {
    if lines == [] then []
    else (if KeepLine(lines[0]) then [lines[0]] else []) + Kept(lines[1..])
  }

  /** The filter keeps order: filtering a concatenation filters each part. */
  lemma {:induction false} KeptAppend(a: seq<string>, b: seq<string>)
    ensures Kept(a + b) == Kept(a) + Kept(b)
  {
    if a == [] {
      assert a + b == b;
    } else {
      assert (a + b)[0] == a[0];
      assert (a + b)[1..] == a[1..] + b;
      KeptAppend(a[1..], b);
    }
  }

  /** Filtering twice is filtering once. */
  lemma {:induction false} KeptTwice(lines: seq<string>)
    ensures Kept(Kept(lines)) == Kept(lines)
  {
    if lines != [] {
      var head := if KeepLine(lines[0]) then [lines[0]] else [];
      KeptAppend(head, Kept(lines[1..]));
      KeptTwice(lines[1..]);
    }
  }

  /** The line `setup_cron_job` adds. */
  function CronEntry(expr: string): string {
    expr + " " + ScriptPath
  }

  /** The crontab rebuilt from what `crontab -l` gave (its return code and its output,
      which `_run_command` strips): the kept old lines, in order, and then the new entry. */
  function RebuildCrontab(rc: int, stdout: string, expr: string): (table: seq<string>)
    ensures |table| >= 1 && table[|table| - 1] == CronEntry(expr)
    ensures forall i :: 0 <= i < |table| - 1 ==> KeepLine(table[i])
  {
    var out := Strip(stdout);
    var existing := if rc == 0 && out != [] then Kept(SplitLines(out)) else [];
    assert forall i :: 0 <= i < |existing| ==> existing[i] in existing;
    existing + [CronEntry(expr)]
  }

  /** The old lines that survive are exactly the kept lines of a readable old crontab,
      and the new entry is the only line that mentions the script. */
  lemma RebuildKeepsOthers(rc: int, stdout: string, expr: string)
    ensures var table := RebuildCrontab(rc, stdout, expr);
      && (forall l :: l in table[..|table| - 1] <==>
            rc == 0 && l in SplitLines(Strip(stdout)) && KeepLine(l))
      && (forall i :: 0 <= i < |table| ==> (Contains(table[i], ScriptPath) <==> i == |table| - 1))
  {
    var table := RebuildCrontab(rc, stdout, expr);
    assert table[..|table| - 1] == if rc == 0 && Strip(stdout) != [] then Kept(SplitLines(Strip(stdout))) else [];
    ContainsSuffix(expr + " ", ScriptPath);
  }

  /** `"\n".join(existing) + "\n"`, the text handed to `crontab`. */
  function CrontabText(table: seq<string>): string {
    JoinLines(table) + "\n"
  }

  /** An expression fit for a crontab line: non-empty, starting with no whitespace, and
      holding no line break. */
  predicate Expression(expr: string) {
    expr != [] && !IsSpace(expr[0]) && NoLineBreak(expr)
  }

  lemma SupportedExpressions(minutes: int)
    requires CronExpression(minutes).Some?
    ensures Expression(CronExpression(minutes).value)
  {
    var fs := CronFields(minutes).value;
    FieldWords(minutes);
    JoinOnNoLineBreak(fs, ' ');
  }

  lemma EntryLine(expr: string)
    requires NoLineBreak(expr)
    ensures NoLineBreak(CronEntry(expr))
  {
    var e := CronEntry(expr);
    forall i | 0 <= i < |e|
      ensures !IsLineBreak(e[i])
    {
      if i < |expr| {
        assert e[i] == expr[i];
      } else if i > |expr| {
        assert e[i] == ScriptPath[i - |expr| - 1];
      }
    }
  }

  /** The lines of a rebuilt crontab hold no line break. */
  lemma RebuiltLines(rc: int, stdout: string, expr: string)
    requires Expression(expr)
    ensures var table := RebuildCrontab(rc, stdout, expr);
      forall i :: 0 <= i < |table| ==> NoLineBreak(table[i]) && table[i] != []
  {
    var table := RebuildCrontab(rc, stdout, expr);
    var out := Strip(stdout);
    var existing := if rc == 0 && out != [] then Kept(SplitLines(out)) else [];
    assert table == existing + [CronEntry(expr)];
    EntryLine(expr);
    forall i | 0 <= i < |table|
      ensures NoLineBreak(table[i]) && table[i] != []
    {
      if i < |existing| {
        assert existing[i] in existing;
        assert existing[i] in SplitLines(out);
      }
    }
  }

  /** The text handed to `crontab` lists the rebuilt table line by line. */
  lemma CrontabTextLines(rc: int, stdout: string, expr: string)
    requires Expression(expr)
    ensures SplitLines(CrontabText(RebuildCrontab(rc, stdout, expr))) == RebuildCrontab(rc, stdout, expr)
  {
    RebuiltLines(rc, stdout, expr);
    SplitLinesOfJoin(RebuildCrontab(rc, stdout, expr));
  }

  /** Running the rebuild again on the crontab it installed gives the same table, when
      that crontab's first line starts with no whitespace: no second entry is added. */
  lemma RebuildAgain(rc: int, stdout: string, expr: string)
    requires Expression(expr)
    requires var table := RebuildCrontab(rc, stdout, expr); !IsSpace(table[0][0])
    ensures var table := RebuildCrontab(rc, stdout, expr);
      RebuildCrontab(0, CrontabText(table), expr) == table
  {
    var table := RebuildCrontab(rc, stdout, expr);
    var n := |table|;
    RebuiltLines(rc, stdout, expr);
    assert table[n - 1][|table[n - 1]| - 1] == ScriptPath[|ScriptPath| - 1];
    TextOfTable(table);
    KeptOfTable(rc, stdout, expr);
    assert table == table[..n - 1] + [CronEntry(expr)];
  }

  /** `crontab -l` of an installed table, stripped, is the join of its lines, and
      `splitlines()` of it is the table again. */
  lemma TextOfTable(table: seq<string>)
    requires |table| > 0
    requires forall i :: 0 <= i < |table| ==> NoLineBreak(table[i]) && table[i] != []
    requires !IsSpace(table[0][0])
    requires var z := table[|table| - 1]; !IsSpace(z[|z| - 1])
    ensures Strip(CrontabText(table)) == JoinLines(table) != []
    ensures SplitLines(JoinLines(table)) == table
  {
    var j := JoinLines(table);
    JoinLinesLast(table);
    assert j[0] == table[0][0] by {
      if |table| > 1 { assert j == table[0] + "\n" + JoinLines(table[1..]); }
    }
    StripFramed([], j, "\n");
    assert [] + j + "\n" == CrontabText(table);
    SplitLinesOfJoinLines(table);
  }

  /** The filter keeps every line a rebuilt table has before its entry, and drops the
      entry. */
  lemma KeptOfTable(rc: int, stdout: string, expr: string)
    ensures var table := RebuildCrontab(rc, stdout, expr);
      Kept(table) == table[..|table| - 1]
  {
    var table := RebuildCrontab(rc, stdout, expr);
    var kept := table[..|table| - 1];
    assert table == kept + [CronEntry(expr)];
    KeptAppend(kept, [CronEntry(expr)]);
    ContainsSuffix(expr + " ", ScriptPath);
    assert Kept([CronEntry(expr)]) == [];
    var out := Strip(stdout);
    if rc == 0 && out != [] {
      KeptTwice(SplitLines(out));
    }
  }

  /** What `setup_cron_job` leaves behind: its result, the restart script it wrote and the
      crontab text it installed, each None when that step is not reached. */
  datatype CronRun = CronRun(ok: bool, script: Option<string>, crontab: Option<string>)

  /** `setup_cron_job`: `scriptOk` is whether writing and chmod-ing the script
      succeeded, `listRc` and `stdout` are what `crontab -l` gave, `installRc` is what
      `crontab <file>` returned. */
  function SetupCronJob(minutes: int, scriptOk: bool, listRc: int, stdout: string, installRc: int): (r: CronRun)
    ensures CronExpression(minutes).None? ==> r == CronRun(false, None, None)
    ensures r.ok <==> CronExpression(minutes).Some? && scriptOk && installRc == 0
    ensures r.script.Some? <==> CronExpression(minutes).Some? && scriptOk
    ensures r.crontab.Some? <==> CronExpression(minutes).Some? && scriptOk
    ensures r.crontab.Some? ==>
      SplitLines(r.crontab.value) == RebuildCrontab(listRc, stdout, CronExpression(minutes).value)
  {
    var expr := CronExpression(minutes);
    if expr.None? || !scriptOk then CronRun(false, None, None)
    else
      SupportedExpressions(minutes);
      CrontabTextLines(listRc, stdout, expr.value);
      CronRun(installRc == 0, Some(ScriptContent), Some(CrontabText(RebuildCrontab(listRc, stdout, expr.value))))
  }
}
