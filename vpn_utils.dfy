/** The self-contained logic of the VPN helper utilities: reading a setting
    from the process environment, extracting the tunnel address from the
    interface dump, rendering a connection's duration, and building a log
    entry. The environment, the `ifconfig` run and the clock are inputs. */
module VpnUtils {
  import opened Wrappers
  import opened PyStr

  // ===========================================================================
  // read_env_var

  /** The exception `read_env_var` raises for an unset variable without a
      default. */
  datatype EnvError = NotSet(name: string) {
    function Message(): (m: string)
      ensures Contains(m, name)
    {
      var m := "Environment variable " + name + " not set";
      assert name <= m[21..];
      m
    }
  }

  /** `read_env_var(var_name, default)` over the environment `env`; a
      `default` of `None` means no default was passed. */
  function ReadEnvVar(env: map<string, string>, name: string, default: Option<string>)
    : (r: Result<string, EnvError>)
    ensures r.Ok? <==> name in env || default.Some?
    ensures name in env ==> r == Ok(env[name])
    ensures r.Err? ==> r.error.name == name
  {
    if name !in env then
      if default.None? then Err(NotSet(name)) else Ok(default.value)
    else
      Ok(env[name])
  }

  /** A value set in the environment wins over any default, even an empty one. */
  lemma EnvValueIgnoresDefault(
    env: map<string, string>, name: string, d1: Option<string>, d2: Option<string>)
    requires name in env
    ensures ReadEnvVar(env, name, d1) == ReadEnvVar(env, name, d2)
  {
  }

  /** With a default the lookup never fails, and an unset variable gives the
      default back unchanged. */
  lemma EnvDefaultUsed(env: map<string, string>, name: string, d: string)
    ensures ReadEnvVar(env, name, Some(d)).Ok?
    ensures name !in env ==> ReadEnvVar(env, name, Some(d)) == Ok(d)
  {
  }

  /** Setting one variable does not change what another one reads. */
  lemma EnvLookupLocal(
    env: map<string, string>, name: string, other: string, v: string, d: Option<string>)
    requires other != name
    ensures ReadEnvVar(env[other := v], name, d) == ReadEnvVar(env, name, d)
    ensures ReadEnvVar(env[name := v], name, d) == Ok(v)
  {
  }

  // ===========================================================================
  // get_vpn_ip: the scan of the `ifconfig tun0` output

  /** How the `ifconfig tun0` run ended: it printed `stdout`, or it exited
      with a non-zero status (`CalledProcessError`). */
  datatype IfconfigRun = Completed(stdout: string) | CalledProcessError

  /** Token `t` is the word `inet` and another token follows it. */
  predicate InetPairAt(parts: seq<string>, t: int) {
    0 <= t && t + 1 < |parts| && parts[t] == "inet"
  }

  /** The inner loop of the scan from index `i` on: the token after the first
      `inet` at or past `i` that has a successor. */
  function AfterInetFrom(parts: seq<string>, i: nat): Option<string>
    decreases |parts| - i
  {
    if i >= |parts| then None
    else if parts[i] == "inet" && i + 1 < |parts| then Some(parts[i + 1])
    else AfterInetFrom(parts, i + 1)
  }

  /** What one line of the dump yields: lines without the substring `"inet "`
      are skipped; the others are split on whitespace and scanned. */
  function LineAddress(line: string): Option<string> {
    if Contains(line, "inet ") then AfterInetFrom(Fields(line), 0) else None
  }

  /** The outer loop of the scan from line `l` on. */
  function FirstAddressFrom(lines: seq<string>, l: nat): Option<string>
    decreases |lines| - l
  {
    if l >= |lines| then None
    else if LineAddress(lines[l]).Some? then LineAddress(lines[l])
    else FirstAddressFrom(lines, l + 1)
  }

  /** The dump cut into lines, `text.split('\n')`. */
  function DumpLines(text: string): seq<string> {
    SplitOn(text, '\n')
  }

  /** The address the scan returns for the text of the dump. */
  function InetAddress(text: string): Option<string> {
    FirstAddressFrom(DumpLines(text), 0)
  }

  /** `get_vpn_ip()`, given the outcome of the `ifconfig tun0` run: the scan
      of the dump's lines and, within each line holding `"inet "`, of its
      whitespace-separated tokens, returning at the first hit. */
  method GetVpnIp(ifconfig: IfconfigRun) returns (ip: Option<string>)
    ensures ifconfig.CalledProcessError? ==> ip == None
    ensures ifconfig.Completed? ==> ip == InetAddress(ifconfig.stdout)
  {
    if ifconfig.CalledProcessError? {
      return None;
    }
    var lines := DumpLines(ifconfig.stdout);
    var l := 0;
    while l < |lines|
      invariant 0 <= l <= |lines|
      invariant FirstAddressFrom(lines, l) == InetAddress(ifconfig.stdout)
    {
      var line := lines[l];
      if Contains(line, "inet ") {
        var parts := Fields(line);
        var i := 0;
        while i < |parts|
          invariant 0 <= i <= |parts|
          invariant AfterInetFrom(parts, i) == LineAddress(line)
        {
          if parts[i] == "inet" && i + 1 < |parts| {
            return Some(parts[i + 1]);
          }
          i := i + 1;
        }
      }
      l := l + 1;
    }
    return None;
  }

  /** `line` contains `"inet "` and its token `t` is an `inet` with a
      successor. */
  ghost predicate LineHit(line: string, t: int) {
    Contains(line, "inet ") && InetPairAt(Fields(line), t)
  }

  /** Line `l` of the dump has a hit at token `t`. */
  ghost predicate IsHit(lines: seq<string>, l: int, t: int) {
    0 <= l < |lines| && LineHit(lines[l], t)
  }

  /** (`l`, `t`) is a hit and no hit comes before it in reading order. */
  ghost predicate IsFirstHit(lines: seq<string>, l: int, t: int) {
    IsHit(lines, l, t)
    && forall l2, t2 :: IsHit(lines, l2, t2) ==> l < l2 || (l == l2 && t <= t2)
  }

  lemma {:induction false} AfterInetFromSpec(parts: seq<string>, i: nat)
    ensures AfterInetFrom(parts, i).None? <==> forall t :: i <= t ==> !InetPairAt(parts, t)
    ensures AfterInetFrom(parts, i).Some? ==>
      exists t :: i <= t && InetPairAt(parts, t) && AfterInetFrom(parts, i).value == parts[t + 1]
        && forall t2 :: i <= t2 < t ==> !InetPairAt(parts, t2)
    decreases |parts| - i
  {
    if i >= |parts| {
      assert forall t :: i <= t ==> !InetPairAt(parts, t);
    } else if parts[i] == "inet" && i + 1 < |parts| {
      assert InetPairAt(parts, i);
    } else {
      AfterInetFromSpec(parts, i + 1);
      assert !InetPairAt(parts, i);
      if AfterInetFrom(parts, i).Some? {
        var t :| i + 1 <= t && InetPairAt(parts, t) && AfterInetFrom(parts, i).value == parts[t + 1]
          && forall t2 :: i + 1 <= t2 < t ==> !InetPairAt(parts, t2);
        assert forall t2 :: i <= t2 < t ==> !InetPairAt(parts, t2);
      }
    }
  }

  /** One line yields nothing exactly when it has no hit, and otherwise the
      token after its first hit. */
  lemma LineAddressSpec(line: string)
    ensures LineAddress(line).None? <==> forall t :: !LineHit(line, t)
    ensures LineAddress(line).Some? ==>
      exists t :: LineHit(line, t) && LineAddress(line).value == Fields(line)[t + 1]
        && forall t2 :: LineHit(line, t2) ==> t <= t2
  {
    var parts := Fields(line);
    if Contains(line, "inet ") {
      AfterInetFromSpec(parts, 0);
      assert LineAddress(line) == AfterInetFrom(parts, 0);
      assert forall t :: LineHit(line, t) <==> InetPairAt(parts, t);
    } else {
      assert forall t :: !LineHit(line, t);
    }
  }

  lemma {:induction false} FirstAddressFromNone(lines: seq<string>, l: nat)
    ensures FirstAddressFrom(lines, l).None? <==> forall l2, t :: l <= l2 ==> !IsHit(lines, l2, t)
    decreases |lines| - l
  {
    if l < |lines| {
      LineAddressSpec(lines[l]);
      FirstAddressFromNone(lines, l + 1);
      forall t ensures IsHit(lines, l, t) <==> LineHit(lines[l], t) {
      }
    } else {
      assert forall l2, t :: l <= l2 ==> !IsHit(lines, l2, t);
    }
  }

  lemma {:induction false} FirstAddressFromSome(lines: seq<string>, l: nat)
    requires FirstAddressFrom(lines, l).Some?
    ensures exists l1, t ::
      && l <= l1 && IsHit(lines, l1, t)
      && FirstAddressFrom(lines, l).value == Fields(lines[l1])[t + 1]
      && forall l2, t2 :: l <= l2 && IsHit(lines, l2, t2) ==> l1 < l2 || (l1 == l2 && t <= t2)
    decreases |lines| - l
  {
    var line := lines[l];
    LineAddressSpec(line);
    if LineAddress(line).None? {
      FirstAddressFromSome(lines, l + 1);
      assert forall t :: !IsHit(lines, l, t);
    } else {
      var t :| LineHit(line, t) && LineAddress(line).value == Fields(line)[t + 1]
        && forall t2 :: LineHit(line, t2) ==> t <= t2;
      assert IsHit(lines, l, t);
    }
  }

  /** There is at most one first hit. */
  lemma FirstHitUnique(lines: seq<string>, l1: int, t1: int, l2: int, t2: int)
    requires IsFirstHit(lines, l1, t1) && IsFirstHit(lines, l2, t2)
    ensures l1 == l2 && t1 == t2
  {
    assert l1 < l2 || (l1 == l2 && t1 <= t2);
    assert l2 < l1 || (l2 == l1 && t2 <= t1);
  }

  /** A value found by the scan comes from the first hit. */
  lemma FirstAddressFirstHit(lines: seq<string>)
    requires FirstAddressFrom(lines, 0).Some?
    ensures exists l, t ::
      && IsFirstHit(lines, l, t)
      && Fields(lines[l])[t + 1] == FirstAddressFrom(lines, 0).value
  {
    FirstAddressFromSome(lines, 0);
    var l1, t1 :| 0 <= l1 && IsHit(lines, l1, t1)
      && FirstAddressFrom(lines, 0).value == Fields(lines[l1])[t1 + 1]
      && forall l2, t2 :: 0 <= l2 && IsHit(lines, l2, t2) ==> l1 < l2 || (l1 == l2 && t1 <= t2);
    assert IsFirstHit(lines, l1, t1);
  }

  lemma ScanFound(lines: seq<string>, v: string)
    ensures FirstAddressFrom(lines, 0) == Some(v) <==>
      exists l, t :: IsFirstHit(lines, l, t) && Fields(lines[l])[t + 1] == v
  {
    var r := FirstAddressFrom(lines, 0);
    if r.Some? {
      FirstAddressFirstHit(lines);
      var l1, t1 :| IsFirstHit(lines, l1, t1) && Fields(lines[l1])[t1 + 1] == r.value;
      forall l, t | IsFirstHit(lines, l, t) ensures Fields(lines[l])[t + 1] == r.value {
        FirstHitUnique(lines, l, t, l1, t1);
      }
    } else {
      FirstAddressFromNone(lines, 0);
      assert forall l, t :: !IsFirstHit(lines, l, t);
    }
  }

  lemma ScanAbsent(lines: seq<string>)
    ensures FirstAddressFrom(lines, 0) == None <==> forall l, t :: !IsHit(lines, l, t)
  {
    FirstAddressFromNone(lines, 0);
  }

  /** The scan returns `v` exactly when `v` is the token right after the
      first `inet` token (with a successor) on the first line, in input order,
      that contains `"inet "` and has such a pair. */
  lemma InetAddressFound(text: string, v: string)
    ensures InetAddress(text) == Some(v) <==>
      exists l, t :: IsFirstHit(DumpLines(text), l, t) && Fields(DumpLines(text)[l])[t + 1] == v
  {
    ScanFound(DumpLines(text), v);
  }

  /** The scan returns `None` exactly when no line holding `"inet "` has an
      `inet` token followed by another token. */
  lemma InetAddressAbsent(text: string)
    ensures InetAddress(text) == None <==> forall l, t :: !IsHit(DumpLines(text), l, t)
  {
    ScanAbsent(DumpLines(text));
  }

  /** A returned address is one whole token: non-empty, free of whitespace
      (so it never spans lines). */
  lemma InetAddressIsToken(text: string)
    requires InetAddress(text).Some?
    ensures InetAddress(text).value != [] && NoSpace(InetAddress(text).value)
  {
    FirstAddressFromSome(DumpLines(text), 0);
  }

  // Examples of lines the scan accepts and skips.

  lemma SingleLineDump(line: string)
    requires '\n' !in line
    ensures InetAddress(line) == LineAddress(line)
  {
    SplitOnNoSep(line, '\n');
  }

  /** A dump of one line made of two tokens is scanned as that line, and the
      line splits into exactly those two tokens. */
  lemma TwoTokenDump(w: string, a: string)
    requires w != [] && NoSpace(w) && a != [] && NoSpace(a)
    ensures InetAddress(w + " " + a) == LineAddress(w + " " + a)
    ensures Fields(w + " " + a) == [w, a]
  {
    var line := w + " " + a;
    assert '\n' !in line by {
      forall i | 0 <= i < |line| ensures line[i] != '\n' {
        if i < |w| {
          assert line[i] == w[i] && !IsSpace(w[i]);
        } else if i > |w| {
          assert line[i] == a[i - |w| - 1] && !IsSpace(a[i - |w| - 1]);
        }
      }
    }
    SingleLineDump(line);
    FieldsOfPair(w, a);
  }

  /** `inet X` yields `X`, whatever the token `X` is, including `inet` itself. */
  lemma InetLineYields(a: string)
    requires a != [] && NoSpace(a)
    ensures InetAddress("inet " + a) == Some(a)
  {
    assert "inet " + a == "inet" + " " + a;
    TwoTokenDump("inet", a);
    assert "inet " <= ("inet " + a)[0..];
  }

  /** An IPv6 line `inet6 X` is skipped: it has no substring `"inet "`
      (and no `inet` token of it is followed by another token either). */
  lemma Inet6LineSkipped(a: string)
    requires a != [] && NoSpace(a)
    ensures !Contains("inet6 " + a, "inet ")
    ensures InetAddress("inet6 " + a) == None
  {
    var line := "inet6 " + a;
    forall i | 0 <= i <= |line| ensures !("inet " <= line[i..]) {
      if i == 0 { assert line[4] == '6'; }
      else if i < 6 { assert line[i] != 'i'; }
      else if i + 5 <= |line| { assert line[i + 4] == a[i - 2] && !IsSpace(a[i - 2]); }
    }
    assert "inet6 " + a == "inet6" + " " + a;
    TwoTokenDump("inet6", a);
    assert AfterInetFrom(["inet6", a], 1) == None;
  }

  /** `xinet X` passes the substring test for `"inet "`, yet yields nothing:
      no `inet` token of it is followed by another token (`X` may itself be
      `inet`, but it is the last token). */
  lemma XinetLineSkipped(a: string)
    requires a != [] && NoSpace(a)
    ensures Contains("xinet " + a, "inet ")
    ensures InetAddress("xinet " + a) == None
  {
    assert "inet " <= ("xinet " + a)[1..];
    assert "xinet " + a == "xinet" + " " + a;
    TwoTokenDump("xinet", a);
    assert AfterInetFrom(["xinet", a], 1) == None;
  }

  /** A tab between `inet` and the address hides the line from the scan: the
      substring test asks for `inet` followed by a space. */
  lemma TabAfterInetSkipped(a: string)
    requires a != [] && NoSpace(a)
    ensures InetAddress("inet\t" + a) == None
  {
    var line := "inet\t" + a;
    assert '\n' !in line by { assert forall i :: 5 <= i < |line| ==> line[i] == a[i - 5]; }
    SingleLineDump(line);
    assert !Contains(line, "inet ") by {
      forall i | 0 <= i <= |line| ensures !("inet " <= line[i..]) {
        if i == 0 { assert line[4] == '\t'; }
        else if i < 5 { assert line[i] != 'i'; }
        else if i + 5 <= |line| { assert line[i + 4] == a[i - 1]; }
      }
    }
  }

  lemma DumpOfTwoLines(first: string, second: string)
    requires '\n' !in first && '\n' !in second
    ensures DumpLines(first + "\n" + second + "\n") == [first, second, ""]
  {
    assert first + "\n" + second + "\n" == first + ['\n'] + (second + ['\n'] + "");
    SplitOnCons(first, '\n', second + ['\n'] + "");
    SplitOnCons(second, '\n', "");
  }

  /** A tab-indented `inet X` line yields `X`. */
  lemma IndentedInetLine(addr: string)
    requires addr != [] && NoSpace(addr)
    ensures LineAddress("\tinet " + addr) == Some(addr)
  {
    var pair := "inet" + " " + addr;
    var line := "\t" + pair;
    assert line == "\tinet " + addr;
    TwoTokenDump("inet", addr);
    FieldsSkipSpace("\t", pair);
    assert "inet " <= line[1..];
  }

  /** Nor does a tab-indented `inet X` line hold a newline. */
  lemma IndentedInetLineSingle(addr: string)
    requires NoSpace(addr)
    ensures '\n' !in "\tinet " + addr
  {
    var line := "\tinet " + addr;
    forall i | 6 <= i < |line| ensures line[i] != '\n' {
      assert line[i] == addr[i - 6] && !IsSpace(addr[i - 6]);
    }
  }

  /** The shape of a tunnel dump: a header line without `"inet "`, then the
      indented address line; the scan returns the address. */
  lemma TunnelDumpAddress(header: string, addr: string)
    requires '\n' !in header && !Contains(header, "inet ")
    requires addr != [] && NoSpace(addr)
    ensures InetAddress(header + "\n" + ("\tinet " + addr) + "\n") == Some(addr)
  {
    var l2 := "\tinet " + addr;
    IndentedInetLine(addr);
    IndentedInetLineSingle(addr);
    DumpOfTwoLines(header, l2);
    var lines := [header, l2, ""];
    assert LineAddress(header) == None;
    assert FirstAddressFrom(lines, 1) == Some(addr);
  }

  // ===========================================================================
  // format_duration

  /** A duration split into hours, minutes and seconds. */
  datatype Hms = Hms(hours: nat, minutes: nat, secs: nat)

  /** The integer unit conversion at the start of `format_duration`. */
  function Components(seconds: nat): (c: Hms)
    ensures c.hours * 3600 + c.minutes * 60 + c.secs == seconds
    ensures c.minutes < 60 && c.secs < 60
  {
    Hms(seconds / 3600, (seconds % 3600) / 60, seconds % 60)
  }

  /** The split is the only one with minutes and seconds below 60. */
  lemma ComponentsUnique(seconds: nat, h: nat, m: nat, s: nat)
    requires m < 60 && s < 60
    requires h * 3600 + m * 60 + s == seconds
    ensures Components(seconds) == Hms(h, m, s)
  {
    var c := Components(seconds);
    assert (c.hours - h) * 3600 == (m * 60 + s) - (c.minutes * 60 + c.secs);
    assert c.hours == h;
    assert (c.minutes - m) * 60 == s - c.secs;
  }

  /** `format_duration(seconds)` for a whole, non-negative number of seconds:
      leading zero components are dropped, the rest are all printed. */
  function FormatDuration(seconds: nat): string {
    var c := Components(seconds);
    if c.hours > 0 then
      NatToDecimal(c.hours) + "h " + NatToDecimal(c.minutes) + "m " + NatToDecimal(c.secs) + "s"
    else if c.minutes > 0 then
      NatToDecimal(c.minutes) + "m " + NatToDecimal(c.secs) + "s"
    else
      NatToDecimal(c.secs) + "s"
  }

  /** Which of the three shapes the text takes depends only on the range of
      `seconds`; once hours are shown, zero minutes and seconds are printed too. */
  lemma FormatDurationShape(seconds: nat)
    ensures seconds >= 3600 ==>
      (FormatDuration(seconds)
       == NatToDecimal(seconds / 3600) + "h " + NatToDecimal(seconds % 3600 / 60) + "m "
          + NatToDecimal(seconds % 60) + "s")
    ensures 60 <= seconds < 3600 ==>
      (FormatDuration(seconds) == NatToDecimal(seconds / 60) + "m " + NatToDecimal(seconds % 60) + "s")
    ensures seconds < 60 ==> FormatDuration(seconds) == NatToDecimal(seconds) + "s"
  {
    if seconds < 3600 {
      assert seconds % 3600 == seconds;
    }
  }

  /** Reads one printed component: digits followed by the unit letter. */
  function ParseComponent(piece: string, unit: char): Option<nat> {
    if |piece| >= 2 && piece[|piece| - 1] == unit && IsDigits(piece[..|piece| - 1]) then
      Some(DecimalToNat(piece[..|piece| - 1]))
    else
      None
  }

  /** Reads the space-separated parts of a printed duration back to seconds. */
  function ParseDurationParts(pieces: seq<string>): Option<nat> {
    if |pieces| == 1 then
      ParseComponent(pieces[0], 's')
    else if |pieces| == 2 then
      match (ParseComponent(pieces[0], 'm'), ParseComponent(pieces[1], 's'))
      case (Some(m), Some(s)) => Some(m * 60 + s)
      case _ => None
    else if |pieces| == 3 then
      match (ParseComponent(pieces[0], 'h'), ParseComponent(pieces[1], 'm'),
             ParseComponent(pieces[2], 's'))
      case (Some(h), Some(m), Some(s)) => Some(h * 3600 + m * 60 + s)
      case _ => None
    else
      None
  }

  /** Reads a duration in any of the three printed shapes back to seconds. */
  function ParseDuration(text: string): Option<nat> {
    ParseDurationParts(SplitOn(text, ' '))
  }

  lemma ComponentRoundTrip(n: nat, unit: char)
    requires !IsDigit(unit) && unit != ' '
    ensures ' ' !in NatToDecimal(n) + [unit]
    ensures ParseComponent(NatToDecimal(n) + [unit], unit) == Some(n)
  {
    var d := NatToDecimal(n);
    var p := d + [unit];
    assert p[..|p| - 1] == d;
    DecimalRoundTrip(n);
    assert ' ' !in p by {
      forall i | 0 <= i < |p| ensures p[i] != ' ' {
        if i < |d| { assert IsDigit(d[i]); }
      }
    }
  }

  /** The space-separated parts `format_duration` prints. */
  function DurationParts(seconds: nat): seq<string> {
    var c := Components(seconds);
    var hp, mp, sp := NatToDecimal(c.hours) + "h", NatToDecimal(c.minutes) + "m", NatToDecimal(c.secs) + "s";
    if c.hours > 0 then [hp, mp, sp] else if c.minutes > 0 then [mp, sp] else [sp]
  }

  lemma JoinHms(h: string, m: string, s: string)
    ensures h + "h " + m + "m " + s + "s" == Join([h + "h", m + "m", s + "s"], ' ')
  {
    var parts := [h + "h", m + "m", s + "s"];
    assert parts[1..] == [m + "m", s + "s"];
    JoinMs(m, s);
    calc {
      Join(parts, ' ');
      h + "h" + [' '] + Join(parts[1..], ' ');
      h + "h" + [' '] + (m + "m " + s + "s");
      { assert "h" + [' '] == "h "; }
      h + "h " + m + "m " + s + "s";
    }
  }

  lemma JoinMs(m: string, s: string)
    ensures m + "m " + s + "s" == Join([m + "m", s + "s"], ' ')
  {
    assert [m + "m", s + "s"][1..] == [s + "s"];
  }

  lemma FormatDurationJoin(seconds: nat)
    ensures FormatDuration(seconds) == Join(DurationParts(seconds), ' ')
  {
    var c := Components(seconds);
    var h, m, s := NatToDecimal(c.hours), NatToDecimal(c.minutes), NatToDecimal(c.secs);
    if c.hours > 0 {
      JoinHms(h, m, s);
    } else if c.minutes > 0 {
      JoinMs(m, s);
    }
  }

  /** The printed parts read back to the number of seconds, and none of
      them holds a space. */
  lemma DurationPartsRoundTrip(seconds: nat)
    ensures forall k :: 0 <= k < |DurationParts(seconds)| ==> ' ' !in DurationParts(seconds)[k]
    ensures ParseDurationParts(DurationParts(seconds)) == Some(seconds)
  {
    var c := Components(seconds);
    ComponentRoundTrip(c.hours, 'h');
    ComponentRoundTrip(c.minutes, 'm');
    ComponentRoundTrip(c.secs, 's');
  }

  /** The printed text is lossless: it reads back to the same number of
      seconds, and it has three, two or one space-separated parts exactly when
      `seconds` is at least an hour, at least a minute, or under a minute. */
  lemma FormatDurationRoundTrip(seconds: nat)
    ensures ParseDuration(FormatDuration(seconds)) == Some(seconds)
    ensures |SplitOn(FormatDuration(seconds), ' ')| == 3 <==> seconds >= 3600
    ensures |SplitOn(FormatDuration(seconds), ' ')| == 2 <==> 60 <= seconds < 3600
    ensures |SplitOn(FormatDuration(seconds), ' ')| == 1 <==> seconds < 60
  {
    var parts := DurationParts(seconds);
    DurationPartsRoundTrip(seconds);
    FormatDurationJoin(seconds);
    SplitJoin(parts, ' ');
    assert SplitOn(FormatDuration(seconds), ' ') == parts;
  }

  lemma FormatDurationExamples()
    ensures FormatDuration(0) == "0s" && FormatDuration(59) == "59s"
    ensures FormatDuration(60) == "1m 0s" && FormatDuration(3599) == "59m 59s"
    ensures FormatDuration(3600) == "1h 0m 0s" && FormatDuration(3725) == "1h 2m 5s"
  {
    FormatDurationShape(0);
    FormatDurationShape(59);
    FormatDurationShape(60);
    FormatDurationShape(3599);
    FormatDurationShape(3600);
    FormatDurationShape(3725);
  }

  /** Different durations are printed differently. */
  lemma FormatDurationInjective(a: nat, b: nat)
    requires FormatDuration(a) == FormatDuration(b)
    ensures a == b
  {
    FormatDurationRoundTrip(a);
    FormatDurationRoundTrip(b);
  }

  // ===========================================================================
  // log_message

  const DefaultLevel := "INFO"

  /** The fields of one line of the application log. */
  datatype LogLine = LogLine(timestamp: string, level: string, message: string)

  /** `"[" + timestamp + "] [" + level + "] "`, the part of an entry before
      the message. */
  function EntryPrefix(timestamp: string, level: string): string {
    "[" + timestamp + "] [" + level + "] "
  }

  /** The text `log_message` appends to the log file: the prefix, the message
      and a newline. */
  function LogEntry(timestamp: string, level: string, message: string): string {
    EntryPrefix(timestamp, level) + (message + "\n")
  }

  /** `log_message(log_file, message, level)` with `timestamp` standing for
      the formatted current time: the entry with surrounding whitespace
      stripped. The default level is `DefaultLevel`. */
  function LogMessage(timestamp: string, message: string, level: string): string {
    Strip(LogEntry(timestamp, level, message))
  }

  /** `log_message(log_file, message)` called without a level. */
  function LogMessageDefault(timestamp: string, message: string): string {
    LogMessage(timestamp, message, DefaultLevel)
  }

  /** The prefix opens with `[` and is the bracketed fields followed by one
      space. */
  lemma EntryPrefixShape(timestamp: string, level: string)
    ensures var p := EntryPrefix(timestamp, level);
      p != [] && p[0] == '['
      && p == ("[" + timestamp + "] [" + level + "]") + " "
    ensures var q := "[" + timestamp + "] [" + level + "]";
      q != [] && q[|q| - 1] == ']'
  {
  }

  /** Position of the first `c` in `s`, or `|s|` when there is none. */
  function IndexOf(s: string, c: char): (i: nat)
    ensures i <= |s| && c !in s[..i]
    ensures i < |s| ==> s[i] == c
    decreases |s|
  {
    if s == [] || s[0] == c then 0 else 1 + IndexOf(s[1..], c)
  }

  lemma {:induction false} IndexOfAppend(a: string, c: char, b: string)
    requires c !in a && b != [] && b[0] == c
    ensures IndexOf(a + b, c) == |a|
    decreases |a|
  {
    if a != [] {
      assert (a + b)[1..] == a[1..] + b;
      IndexOfAppend(a[1..], c, b);
    }
  }

  /** Reads the level and message of a log line: the level runs up to the
      first `]`, which must be followed by a space. */
  function ParseLevelAndMessage(rest: string): Option<(string, string)> {
    var j := IndexOf(rest, ']');
    if "] " <= rest[j..] then Some((rest[..j], rest[j + 2..])) else None
  }

  /** Reads the timestamp, level and message of a log line after its opening
      `[`: the timestamp runs up to the first `]`, which must be followed by
      `" ["`. */
  function ParseAfterBracket(rest: string): Option<LogLine> {
    var i := IndexOf(rest, ']');
    if "] [" <= rest[i..] then
      match ParseLevelAndMessage(rest[i + 3..])
      case Some((level, message)) => Some(LogLine(rest[..i], level, message))
      case None => None
    else
      None
  }

  /** Reads a log line `"[ts] [level] message"` back into its fields. */
  function ParseLogLine(line: string): Option<LogLine> {
    if line != [] && line[0] == '[' then ParseAfterBracket(line[1..]) else None
  }

  lemma ParseLevelAndMessageOf(level: string, message: string)
    requires ']' !in level
    ensures ParseLevelAndMessage(level + ("] " + message)) == Some((level, message))
  {
    var rest := level + ("] " + message);
    IndexOfAppend(level, ']', "] " + message);
    assert rest[|level|..] == "] " + message;
    assert rest[..|level|] == level;
    assert rest[|level| + 2..] == message;
  }

  lemma ParseAfterBracketOf(timestamp: string, level: string, message: string)
    requires ']' !in timestamp && ']' !in level
    ensures ParseAfterBracket(timestamp + ("] [" + (level + ("] " + message))))
      == Some(LogLine(timestamp, level, message))
  {
    var rest2 := level + ("] " + message);
    var rest := timestamp + ("] [" + rest2);
    IndexOfAppend(timestamp, ']', "] [" + rest2);
    assert rest[|timestamp|..] == "] [" + rest2;
    assert rest[..|timestamp|] == timestamp;
    assert rest[|timestamp| + 3..] == rest2;
    ParseLevelAndMessageOf(level, message);
  }

  /** A line made of the prefix and a message reads back to its fields
      when neither the timestamp nor the level contains `]`. */
  lemma ParseLogLineOfPrefix(timestamp: string, level: string, message: string)
    requires ']' !in timestamp && ']' !in level
    ensures ParseLogLine(EntryPrefix(timestamp, level) + message)
      == Some(LogLine(timestamp, level, message))
  {
    var line := EntryPrefix(timestamp, level) + message;
    var rest := timestamp + ("] [" + (level + ("] " + message)));
    assert line == "[" + rest;
    assert line[1..] == rest;
    ParseAfterBracketOf(timestamp, level, message);
  }

  /** The appended entry ends in the newline `log_message` adds, and without
      it the entry reads back to its timestamp, level and message whenever
      neither the timestamp nor the level contains `]`. */
  lemma LogEntryRoundTrip(timestamp: string, level: string, message: string)
    requires ']' !in timestamp && ']' !in level
    ensures var e := LogEntry(timestamp, level, message);
      e[|e| - 1] == '\n'
      && ParseLogLine(e[..|e| - 1]) == Some(LogLine(timestamp, level, message))
  {
    var p := EntryPrefix(timestamp, level);
    var e := LogEntry(timestamp, level, message);
    assert e == (p + message) + "\n";
    assert e[..|e| - 1] == p + message;
    ParseLogLineOfPrefix(timestamp, level, message);
  }

  /** Stripping the entry only touches its right end. */
  lemma LogMessageIsRStrip(timestamp: string, message: string, level: string)
    ensures LogMessage(timestamp, message, level)
      == RStrip(EntryPrefix(timestamp, level) + (message + "\n"))
  {
    var p := EntryPrefix(timestamp, level);
    EntryPrefixShape(timestamp, level);
    LStripLeadingText(p, message + "\n");
  }

  /** When the message has a non-whitespace character, the returned text is
      the entry's prefix followed by the message with its trailing whitespace
      (and the added newline) removed. */
  lemma LogMessageStripped(timestamp: string, message: string, level: string)
    requires !AllSpace(message)
    ensures LogMessage(timestamp, message, level) == EntryPrefix(timestamp, level) + RStrip(message)
  {
    var p := EntryPrefix(timestamp, level);
    var m := message + "\n";
    AllSpaceAppend(message, "\n");
    calc {
      LogMessage(timestamp, message, level);
      { LogMessageIsRStrip(timestamp, message, level); }
      RStrip(p + m);
      { RStripAppend(p, m); }
      p + RStrip(m);
      { RStripDropBlank(message, "\n"); }
      p + RStrip(message);
    }
  }

  /** When the message is empty or all whitespace, the space after `[level]`
      is stripped as well, so the text no longer ends with the full prefix. */
  lemma LogMessageBlank(timestamp: string, message: string, level: string)
    requires AllSpace(message)
    ensures LogMessage(timestamp, message, level) == "[" + timestamp + "] [" + level + "]"
  {
    var q := "[" + timestamp + "] [" + level + "]";
    var p := EntryPrefix(timestamp, level);
    EntryPrefixShape(timestamp, level);
    calc {
      LogMessage(timestamp, message, level);
      { LogMessageIsRStrip(timestamp, message, level); }
      RStrip(p + (message + "\n"));
      { AllSpaceAppend(message, "\n"); RStripDropBlank(p, message + "\n"); }
      RStrip(p);
      { RStripDropBlank(q, " "); }
      RStrip(q);
      { RStripTrimmed(q); }
      q;
    }
  }

  /** The returned text reads back to the timestamp, the level and the
      message without its trailing whitespace. */
  lemma LogMessageParses(timestamp: string, message: string, level: string)
    requires ']' !in timestamp && ']' !in level
    requires !AllSpace(message)
    ensures ParseLogLine(LogMessage(timestamp, message, level))
      == Some(LogLine(timestamp, level, RStrip(message)))
  {
    LogMessageStripped(timestamp, message, level);
    ParseLogLineOfPrefix(timestamp, level, RStrip(message));
  }
}
