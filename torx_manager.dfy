/** torx.py's `TorManager` (torx.py:33-250): the installed-flag cache, the torrc cache,
    and the operations that read, change and gate on them. The torrc file is a field of
    the object (None when /etc/tor/torrc does not exist); the `which tor` probe, the
    return codes of apt and systemctl, and whether a read or write of the file fails are
    parameters. */
module TorxManager {
  import opened Wrappers
  import opened PyStr
  import opened Torrc
  import opened TorxConfig
  import opened TorxMenu

  /** The actions `tor_command` passes on to systemctl. */
  const Actions: set<string> := {"start", "stop", "restart", "reload", "status"}

  /** The apt commands of `install_tor`, in order. */
  const InstallSteps: seq<seq<string>> := [
    ["apt", "update"],
    ["apt", "install", "-y", "tor"],
    ["apt", "install", "-y", "tor-geoipdb"],
    ["apt", "install", "-y", "python3-pip"]]

  /** The pair `read_torrc` computes from the file as it is: (None, None) when the file
      does not exist. */
  function Snapshot(torrc: Option<string>): Settings {
    if torrc.None? then NoSettings else Parse(ReadLines(torrc.value))
  }

  /** The file `modify_torrc` leaves behind when it replaces it, None when it writes
      nothing: the file is missing or unreadable, nothing differs, or the write fails. */
  function WrittenTorrc(torrc: Option<string>, socks: Option<string>, exit: Option<string>,
                        readOk: bool, writeOk: bool): (w: Option<string>)
    ensures w.Some? ==>
      torrc.Some? && readOk && writeOk && NeedsWrite(ReadLines(torrc.value), Provided(socks), Provided(exit))
  {
    if torrc.None? || !readOk then None
    else
      var lines := ReadLines(torrc.value);
      var s, e := Provided(socks), Provided(exit);
      if NeedsWrite(lines, s, e) && writeOk then Some(Concat(Rewrite(lines, s, e))) else None
  }

  /** Repeating `modify_torrc` with the same values on the file it wrote writes nothing,
      when the file first ended with a newline and the values are writable. */
  lemma RepeatWritesNothing(content: string, socks: Option<string>, exit: Option<string>)
    requires content == [] || content[|content| - 1] == '\n'
    requires Writable(Provided(socks)) && Writable(Provided(exit))
    ensures var w := WrittenTorrc(Some(content), socks, exit, true, true);
      w.Some? ==> WrittenTorrc(w, socks, exit, true, true) == None
  {
    RewriteIdempotent(content, socks, exit);
  }

  /** When values hold no newline and the file ended with one, the written file reads
      back as the rewritten lines, so the next `read_torrc` parses exactly those. */
  lemma WrittenTorrcReads(content: string, socks: Option<string>, exit: Option<string>)
    requires content == [] || content[|content| - 1] == '\n'
    requires socks.Some? ==> '\n' !in socks.value
    requires exit.Some? ==> '\n' !in exit.value
    requires WrittenTorrc(Some(content), socks, exit, true, true).Some?
    ensures var w := WrittenTorrc(Some(content), socks, exit, true, true);
      var out := Rewrite(ReadLines(content), Provided(socks), Provided(exit));
      ReadLines(w.value) == out && Snapshot(w) == Parse(out)
  {
    var lines := ReadLines(content);
    var out := Rewrite(lines, Provided(socks), Provided(exit));
    assert WrittenTorrc(Some(content), socks, exit, true, true) == Some(Concat(out));
    ReadLinesTerminated(content);
    RewriteTerminated(lines, Provided(socks), Provided(exit));
    ReadLinesConcat(out);
  }

  class TorManager {
    /** `_tor_installed_cache` */
    var installedCache: Option<bool>
    /** `_torrc_cache` */
    var torrcCache: Option<Settings>
    /** The content of /etc/tor/torrc. */
    var torrc: Option<string>

    /** A cached pair is the pair the file gives. */
    predicate Coherent()
      reads this
    {
      torrcCache.Some? ==> torrcCache.value == Snapshot(torrc)
    }

    constructor(file: Option<string>)
      ensures installedCache == None && torrcCache == None && torrc == file
      ensures Coherent()
    {
      installedCache, torrcCache, torrc := None, None, file;
    }

    /** `is_tor_installed`: the cached flag when asked to use it and it is set, else the
        probe, which is then cached. */
    method IsTorInstalled(useCache: bool, probe: bool) returns (found: bool)
      modifies this`installedCache
      ensures useCache && old(installedCache).Some? ==> found == old(installedCache).value
      ensures !(useCache && old(installedCache).Some?) ==> found == probe
      ensures installedCache == Some(found)
    {
      if useCache && installedCache.Some? {
        return installedCache.value;
      }
      found := probe;
      installedCache := Some(found);
    }

    /** `_invalidate_cache` */
    method InvalidateCache()
      modifies this`torrcCache
      ensures torrcCache == None
    {
      torrcCache := None;
    }

    /** `_require_tor`: `is_tor_installed()` with the cache. */
    method RequireTor(probe: bool) returns (ok: bool)
      modifies this`installedCache
      ensures ok == (if old(installedCache).Some? then old(installedCache).value else probe)
      ensures installedCache == Some(ok)
    {
      ok := IsTorInstalled(true, probe);
    }

    /** `read_torrc`: a cached pair is returned as is; a missing file gives (None, None)
        and caches it; a failed read gives (None, None) and caches nothing; otherwise the
        read loop runs and its pair is cached. */
    method ReadTorrc(readOk: bool) returns (pair: Settings)
      modifies this`torrcCache
      ensures old(torrcCache).Some? ==> pair == old(torrcCache).value && torrcCache == old(torrcCache)
      ensures old(torrcCache).None? && torrc.None? ==> pair == NoSettings && torrcCache == Some(NoSettings)
      ensures old(torrcCache).None? && torrc.Some? && !readOk ==> pair == NoSettings && torrcCache == None
      ensures old(torrcCache).None? && torrc.Some? && readOk ==> pair == Snapshot(torrc) && torrcCache == Some(pair)
      ensures old(Coherent()) && (readOk || torrc.None? || old(torrcCache).Some?) ==> pair == Snapshot(torrc)
      ensures old(Coherent()) ==> Coherent()
    {
      if torrcCache.Some? {
        return torrcCache.value;
      }
      if torrc.None? {
        torrcCache := Some(NoSettings);
        return NoSettings;
      }
      if !readOk {
        return NoSettings;
      }
      var socksPort, exitNodes := ParseLines(ReadLines(torrc.value));
      pair := Settings(socksPort, exitNodes);
      torrcCache := Some(pair);
    }

    /** `modify_torrc`: True exactly when the rewritten lines replaced the file, and only
        then is the torrc cache cleared; on every other path neither the file nor the
        cache changes. */
    method ModifyTorrc(newSocksPort: Option<string>, newExitNodes: Option<string>, readOk: bool, writeOk: bool)
      returns (changed: bool)
      modifies this`torrc, this`torrcCache
      ensures var w := WrittenTorrc(old(torrc), newSocksPort, newExitNodes, readOk, writeOk);
        changed == w.Some? && (changed ==> torrc == w && torrcCache == None)
      ensures !changed ==> torrc == old(torrc) && torrcCache == old(torrcCache)
      ensures old(Coherent()) ==> Coherent()
    {
      if torrc.None? || !readOk {
        return false;
      }
      var newLines, modified := RewriteLines(ReadLines(torrc.value), newSocksPort, newExitNodes);
      if !modified || !writeOk {
        return false;
      }
      torrc := Some(Concat(newLines));
      InvalidateCache();
      changed := true;
    }

    /** `install_tor`: the apt steps run in order until one fails (`rc(i)` is the return
        code of step i); success, and only success, sets the installed flag. */
    method InstallTor(rc: nat -> int) returns (ok: bool, ran: nat)
      modifies this`installedCache
      ensures 1 <= ran <= |InstallSteps|
      ensures forall i :: 0 <= i < ran - 1 ==> rc(i) == 0
      ensures ok <==> ran == |InstallSteps| && rc(ran - 1) == 0
      ensures !ok ==> rc(ran - 1) != 0
      ensures ok <==> forall i :: 0 <= i < |InstallSteps| ==> rc(i) == 0
      ensures ok ==> installedCache == Some(true)
      ensures !ok ==> installedCache == old(installedCache)
    {
      ran := 0;
      while ran < |InstallSteps|
        invariant 0 <= ran <= |InstallSteps|
        invariant forall i :: 0 <= i < ran ==> rc(i) == 0
        invariant installedCache == old(installedCache)
      {
        ran := ran + 1;
        if rc(ran - 1) != 0 {
          return false, ran;
        }
      }
      installedCache := Some(true);
      ok := true;
    }

    /** `uninstall_tor`: success clears the installed flag to False. */
    method UninstallTor(rc: int) returns (ok: bool)
      modifies this`installedCache
      ensures ok == (rc == 0)
      ensures ok ==> installedCache == Some(false)
      ensures !ok ==> installedCache == old(installedCache)
    {
      if rc == 0 {
        installedCache := Some(false);
        return true;
      }
      return false;
    }

    /** `update_tor`: apt upgrade runs only when Tor is installed. */
    method UpdateTor(probe: bool, rc: int) returns (ok: bool, ranUpgrade: bool)
      modifies this`installedCache
      ensures var installed := if old(installedCache).Some? then old(installedCache).value else probe;
        ranUpgrade == installed && ok == (installed && rc == 0) && installedCache == Some(installed)
    {
      var installed := IsTorInstalled(true, probe);
      if !installed {
        return false, false;
      }
      ranUpgrade := true;
      ok := rc == 0;
    }

    /** `tor_command`: systemctl runs only when Tor is installed and the action is one of
        the five it knows; the result is its return code being 0. */
    method TorCommand(action: string, probe: bool, rc: int) returns (ok: bool, invoked: Option<seq<string>>)
      modifies this`installedCache
      ensures var installed := if old(installedCache).Some? then old(installedCache).value else probe;
        && installedCache == Some(installed)
        && (invoked.Some? <==> installed && action in Actions)
        && (invoked.Some? ==> invoked.value == ["systemctl", action, "tor"])
        && (ok <==> invoked.Some? && rc == 0)
    {
      var installed := RequireTor(probe);
      if !installed {
        return false, None;
      }
      if action !in Actions {
        return false, None;
      }
      invoked := Some(["systemctl", action, "tor"]);
      ok := rc == 0;
    }

    /** `--set-port` and menu entry 7: an accepted port is written, then Tor restarted
        through `tor_command`, whose systemctl call is `restart` (None when the gate
        refuses it). */
    method SetPort(raw: string, free: string -> bool, readOk: bool, writeOk: bool, probe: bool, rc: int)
      returns (accepted: bool, changed: bool, restart: Option<seq<string>>)
      modifies this`torrc, this`torrcCache, this`installedCache
      ensures accepted == PortChoice(raw, free).Some?
      ensures !accepted ==>
        !changed && restart == None
        && torrc == old(torrc) && torrcCache == old(torrcCache) && installedCache == old(installedCache)
      ensures accepted ==>
        var installed := if old(installedCache).Some? then old(installedCache).value else probe;
        installedCache == Some(installed)
        && restart == (if installed then Some(["systemctl", "restart", "tor"]) else None)
      ensures accepted ==>
        var w := WrittenTorrc(old(torrc), PortChoice(raw, free), None, readOk, writeOk);
        changed == w.Some? && (changed ==> torrc == w && torrcCache == None)
        && (!changed ==> torrc == old(torrc) && torrcCache == old(torrcCache))
      ensures old(Coherent()) ==> Coherent()
    {
      var p := PortChoice(raw, free);
      if p.None? {
        return false, false, None;
      }
      accepted := true;
      changed := ModifyTorrc(p, None, readOk, writeOk);
      var _, invoked := TorCommand("restart", probe, rc);
      restart := invoked;
    }

    /** `--set-countries` and menu entry 8: an input with no invalid code is written as
        an ExitNodes value, then Tor restarted as in `SetPort`; otherwise nothing happens. */
    method SetCountries(raw: string, readOk: bool, writeOk: bool, probe: bool, rc: int)
      returns (sel: Selection, changed: bool, restart: Option<seq<string>>)
      modifies this`torrc, this`torrcCache, this`installedCache
      ensures sel == SelectCountries(raw)
      ensures sel.Rejected? ==>
        !changed && restart == None
        && torrc == old(torrc) && torrcCache == old(torrcCache) && installedCache == old(installedCache)
      ensures sel.Accepted? ==>
        var installed := if old(installedCache).Some? then old(installedCache).value else probe;
        installedCache == Some(installed)
        && restart == (if installed then Some(["systemctl", "restart", "tor"]) else None)
      ensures sel.Accepted? ==>
        var w := WrittenTorrc(old(torrc), None, Some(sel.exitNodes), readOk, writeOk);
        changed == w.Some? && (changed ==> torrc == w && torrcCache == None)
        && (!changed ==> torrc == old(torrc) && torrcCache == old(torrcCache))
      ensures old(Coherent()) ==> Coherent()
    {
      sel := SelectCountries(raw);
      if sel.Rejected? {
        return sel, false, None;
      }
      changed := ModifyTorrc(None, Some(sel.exitNodes), readOk, writeOk);
      var _, invoked := TorCommand("restart", probe, rc);
      restart := invoked;
    }
  }
}
