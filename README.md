# VPN helper utilities — a Dafny model

This project models the self-contained logic of `vpn_utils.py`, the helper
module of a tool that connects to a VPN with a PIN plus a time-based one-time
code. Most of that module calls into the operating system. Four pieces are
plain computation, and they are what this model covers:

- **`read_env_var`**: looks up a setting in the process environment. The
  caller may pass a default. If the variable is unset and no default was
  passed, it raises an error naming the variable. Here the environment is a
  `map<string, string>`, and the raised exception is the `Err` side of a
  `Result`.
- **`get_vpn_ip`**: runs `ifconfig tun0` and scans the dump for the tunnel
  address. It cuts the text into lines on `'\n'` and skips lines without the
  substring `"inet "`. It splits each remaining line on whitespace and returns
  the token right after the first `inet` token that has a successor. If no line
  yields one, or `ifconfig` exits with an error status, it returns `None`. The
  `ifconfig` run is an input (`IfconfigRun`). The scan is a method with the
  source's nested loops and early return. It is proved equal to a
  specification function, `InetAddress`, and lemmas characterise that function
  declaratively in both directions.
- **`format_duration`**: turns a whole number of seconds into hours, minutes
  and seconds. It prints `"{h}h {m}m {s}s"`, `"{m}m {s}s"` or `"{s}s"`,
  dropping leading zero components only. The model proves three things:
  - the recomposition identity and bounds of the conversion;
  - which shape the text takes for each range of inputs;
  - that the text reads back to the same number of seconds.
- **`log_message`**: builds the entry `"[ts] [level] message\n"`, appends it
  to the log file and returns the entry stripped of surrounding whitespace.
  The timestamp is an input string. The model proves that the entry reads back
  into its fields when neither the timestamp nor the level contains `]`. It
  also states exactly what stripping does to the returned text.

Module `PyStr` defines the Python `str` operations these rely on, with the
meanings CPython gives them:

- `s.split('\n')` keeps empty pieces.
- `s.split()` splits on runs of whitespace and drops empty tokens.
- `s.strip()` removes leading and trailing whitespace.
- `sub in s` is a substring test.
- `str(n)` prints a decimal numeral.

"Whitespace" is the set `str.isspace()` accepts. Module `Wrappers` holds
`Option` and `Result`.

Two properties one might expect do not hold of the code as written. The model
states what does hold:

- The returned log text begins with `"[ts] [level] "` only when the message
  has a non-whitespace character (`LogMessageStripped`). For an empty or
  all-whitespace message, `strip()` also removes the space after `[level]`
  (`LogMessageBlank`).
- The address returned by the scan can be the word `inet` itself, since the
  line `inet inet` yields `inet` (`InetLineYields`). What always holds is
  positional: the value is the token right after an `inet` token
  (`InetAddressFound`). It is also a single non-empty, whitespace-free token
  (`InetAddressIsToken`).

The wider system around this module is not part of this model. That includes
the session supervisor, the log classifier and the connect/disconnect
commands, which live in other scripts of the repository.

## Model

| member | source | states |
|---|---|---|
| `VpnUtils.ReadEnvVar` | vpn_utils.py:17-23 | succeeds exactly when the variable is set or a default is passed; a set variable's value is returned as is (even `""`); the error names the variable |
| `VpnUtils.EnvError.Message` | vpn_utils.py:21 | the error message mentions the variable's name |
| `VpnUtils.EnvValueIgnoresDefault` | vpn_utils.py:18-23 | when the variable is set, the result is the same whatever default is passed |
| `VpnUtils.EnvDefaultUsed` | vpn_utils.py:19-22 | with a default the lookup never fails, and an unset variable yields that default |
| `VpnUtils.EnvLookupLocal` | vpn_utils.py:18 | setting another variable does not change the result; setting this one makes the lookup return the new value |
| `VpnUtils.GetVpnIp` | vpn_utils.py:44-60 | the nested line/token loops with early return compute `InetAddress` of the dump; a `CalledProcessError` gives `None` |
| `VpnUtils.AfterInetFrom` | vpn_utils.py:55-57 | the token loop from index `i`; specified by `AfterInetFromSpec` |
| `VpnUtils.LineAddress` | vpn_utils.py:53-57 | the substring guard and token loop for one line; specified by `LineAddressSpec` |
| `VpnUtils.FirstAddressFrom` | vpn_utils.py:52-57 | the line loop from line `l`, returning at the first line that yields; specified by `FirstAddressFromNone` and `FirstAddressFromSome` |
| `VpnUtils.DumpLines` | vpn_utils.py:52 | `stdout.split('\n')`; specified by the contract of `PyStr.SplitOn` |
| `VpnUtils.InetAddress` | vpn_utils.py:52-60 | the whole scan of the dump; specified by `InetAddressFound`, `InetAddressAbsent` and `InetAddressIsToken`, and computed by `GetVpnIp` |
| `VpnUtils.AfterInetFromSpec` | vpn_utils.py:55-57 | the token loop finds nothing exactly when no `inet` token from `i` on has a successor; otherwise it returns the successor of the first such token |
| `VpnUtils.LineAddressSpec` | vpn_utils.py:53-57 | one line yields nothing exactly when it has no hit (the substring `"inet "` and an `inet` token with a successor); otherwise it yields the token after its first hit |
| `VpnUtils.FirstAddressFromNone` | vpn_utils.py:52-57 | the line loop from line `l` finds nothing exactly when no line from `l` on has a hit |
| `VpnUtils.FirstAddressFromSome` | vpn_utils.py:52-57 | when the line loop from line `l` finds a value, it is the token after the first hit in reading order from `l` on |
| `VpnUtils.FirstHitUnique` | vpn_utils.py:52-57 | two first hits in reading order are the same line and token |
| `VpnUtils.FirstAddressFirstHit` | vpn_utils.py:52-57 | a value the line loop returns is the token after the first hit of the whole dump |
| `VpnUtils.ScanFound` | vpn_utils.py:52-57 | on a list of lines, the scan returns `v` exactly when `v` follows the first hit |
| `VpnUtils.ScanAbsent` | vpn_utils.py:52-60 | on a list of lines, the scan returns `None` exactly when there is no hit |
| `VpnUtils.InetAddressFound` | vpn_utils.py:52-57 | the scan returns `v` if and only if `v` is the token after the first `inet` token (with a successor) on the first line, in input order, that contains `"inet "` and has such a pair |
| `VpnUtils.InetAddressAbsent` | vpn_utils.py:52-60 | the scan returns `None` if and only if no line containing `"inet "` has an `inet` token followed by another token |
| `VpnUtils.InetAddressIsToken` | vpn_utils.py:54-57 | a returned address is non-empty and contains no whitespace |
| `VpnUtils.SingleLineDump` | vpn_utils.py:52 | a dump without a newline is scanned as one line |
| `VpnUtils.TwoTokenDump` | vpn_utils.py:52-54 | a dump made of one line of two tokens is scanned as that line, which splits into exactly those tokens |
| `VpnUtils.InetLineYields` | vpn_utils.py:53-57 | the line `inet X` yields `X` for every token `X`, including `inet` |
| `VpnUtils.Inet6LineSkipped` | vpn_utils.py:53 | the line `inet6 X` fails the substring test for `"inet "` and yields nothing |
| `VpnUtils.XinetLineSkipped` | vpn_utils.py:53-56 | the line `xinet X` passes the substring test for `"inet "` but yields nothing, since no `inet` token of it is followed by another token (`X` may be `inet`, but it is last) |
| `VpnUtils.TabAfterInetSkipped` | vpn_utils.py:53 | the line `inet<TAB>X` is skipped: the substring test needs a space after `inet` |
| `VpnUtils.DumpOfTwoLines` | vpn_utils.py:52 | a two-line dump ending in a newline splits into the two lines and an empty last piece |
| `VpnUtils.IndentedInetLine` | vpn_utils.py:53-57 | the indented line `\tinet X` yields `X` |
| `VpnUtils.IndentedInetLineSingle` | vpn_utils.py:52 | the indented line `\tinet X` holds no newline, so it stays one line of the dump |
| `VpnUtils.TunnelDumpAddress` | vpn_utils.py:46-57 | a dump made of a header line without `"inet "` and an indented `inet X` line yields `X` |
| `VpnUtils.Components` | vpn_utils.py:63-65 | `hours*3600 + minutes*60 + secs == seconds` with `minutes < 60` and `secs < 60` |
| `VpnUtils.FormatDuration` | vpn_utils.py:62-72 | `format_duration`; specified by `FormatDurationShape`, `FormatDurationRoundTrip`, `FormatDurationInjective` and `FormatDurationExamples` |
| `VpnUtils.ComponentsUnique` | vpn_utils.py:63-65 | that decomposition is the only one with minutes and seconds below 60 |
| `VpnUtils.FormatDurationShape` | vpn_utils.py:67-72 | the text is `{h}h {m}m {s}s` when `seconds >= 3600`, `{m}m {s}s` when `60 <= seconds < 3600` and `{s}s` when `seconds < 60`; zero minutes and seconds are still printed once hours are shown |
| `VpnUtils.ComponentRoundTrip` | vpn_utils.py:68-72 | one printed component (numeral plus unit letter) has no space and reads back to its number |
| `VpnUtils.FormatDurationJoin` | vpn_utils.py:67-72 | the text is its hour, minute and second parts joined by single spaces |
| `VpnUtils.DurationPartsRoundTrip` | vpn_utils.py:63-72 | the printed parts hold no space and read back to the number of seconds |
| `VpnUtils.FormatDurationRoundTrip` | vpn_utils.py:62-72 | the text reads back to the same number of seconds; it has 3, 2 or 1 space-separated parts exactly when `seconds >= 3600`, `60 <= seconds < 3600` or `seconds < 60` |
| `VpnUtils.FormatDurationExamples` | vpn_utils.py:67-72 | 0 → `0s`, 59 → `59s`, 60 → `1m 0s`, 3599 → `59m 59s`, 3600 → `1h 0m 0s`, 3725 → `1h 2m 5s` |
| `VpnUtils.FormatDurationInjective` | vpn_utils.py:62-72 | different durations print differently |
| `VpnUtils.EntryPrefix` | vpn_utils.py:90 | the part `"[ts] [level] "` of the entry's f-string; specified by `EntryPrefixShape` and `ParseLogLineOfPrefix` |
| `VpnUtils.LogEntry` | vpn_utils.py:90 | the entry `"[ts] [level] message\n"` written to the file; specified by `LogEntryRoundTrip` |
| `VpnUtils.LogMessage` | vpn_utils.py:88-95 | the text `log_message` returns; specified by `LogMessageIsRStrip`, `LogMessageStripped`, `LogMessageBlank` and `LogMessageParses` |
| `VpnUtils.LogMessageDefault` | vpn_utils.py:88 | `log_message` with its default level `INFO`; the `LogMessage` lemmas apply with that level |
| `VpnUtils.EntryPrefixShape` | vpn_utils.py:90 | the prefix opens with `[` and is the two bracketed fields followed by one space |
| `VpnUtils.IndexOf` | vpn_utils.py:90 | a helper of the reading-back parser, not code of `log_message`: position of the first `c` (none before it), or the length when there is none |
| `VpnUtils.IndexOfAppend` | vpn_utils.py:90 | a helper of the reading-back parser, not code of `log_message`: the first `c` in `a + b` is at the end of `a` when `a` holds no `c` and `b` starts with `c`: the `]` closing a bracket-free field is found first |
| `VpnUtils.ParseLogLineOfPrefix` | vpn_utils.py:90 | the prefix `"[ts] [level] "` followed by any text reads back to the timestamp, the level and that text when neither field contains `]` |
| `VpnUtils.LogEntryRoundTrip` | vpn_utils.py:90 | the entry ends in the added newline; without it, it reads back to its timestamp, level and message when neither timestamp nor level contains `]` |
| `VpnUtils.LogMessageIsRStrip` | vpn_utils.py:90-95 | stripping the entry only touches its right end, since it begins with `[` |
| `VpnUtils.LogMessageStripped` | vpn_utils.py:95 | for a message with a non-whitespace character, the returned text is `"[ts] [level] "` followed by the message without trailing whitespace |
| `VpnUtils.LogMessageBlank` | vpn_utils.py:95 | for an empty or all-whitespace message, the returned text is `"[ts] [level]"` |
| `VpnUtils.LogMessageParses` | vpn_utils.py:88-95 | for a message with a non-whitespace character, and a timestamp and level without `]`, the returned text reads back to the timestamp, the level and the right-stripped message |
| `PyStr.IsSpace` | vpn_utils.py:54 | the whitespace set of CPython's `str.isspace()` (U+0009–U+000D, U+001C–U+0020, U+0085, U+00A0, U+1680, U+2000–U+200A, U+2028, U+2029, U+202F, U+205F, U+3000), on which `line.split()` here and `.strip()` at vpn_utils.py:95 both rely |
| `PyStr.Contains` | vpn_utils.py:53 | `sub in s` holds exactly when some position of `s` starts with `sub` |
| `PyStr.Join` | vpn_utils.py:52 | `sep.join(parts)`, not called by the source; the inverse against which `SplitOn` is specified (`SplitJoin`) |
| `PyStr.SplitOn` | vpn_utils.py:52 | `s.split('\n')`: at least one piece, no piece holds the separator, and joining the pieces gives `s` back |
| `PyStr.SplitOnNoSep` | vpn_utils.py:52 | a text without the separator is one piece |
| `PyStr.SplitOnCons` | vpn_utils.py:52 | the piece before the first separator comes off intact |
| `PyStr.SplitJoin` | vpn_utils.py:52 | splitting the join of separator-free pieces gives the pieces back |
| `PyStr.TokenLength` | vpn_utils.py:54 | the leading run of non-whitespace ends at whitespace or at the end |
| `PyStr.Fields` | vpn_utils.py:54 | `s.split()`: every token is non-empty and free of whitespace |
| `PyStr.FieldsSkipSpace` | vpn_utils.py:54 | leading whitespace does not change the tokens |
| `PyStr.TokenLengthOf` | vpn_utils.py:54 | a whitespace-free prefix followed by whitespace is one token long |
| `PyStr.FieldsCons` | vpn_utils.py:54 | a token followed by whitespace is split off first |
| `PyStr.FieldsJoin` | vpn_utils.py:54 | splitting tokens joined by single spaces gives the tokens back |
| `PyStr.FieldsOfPair` | vpn_utils.py:54 | `a b` splits into `[a, b]` |
| `PyStr.LStrip` | vpn_utils.py:95 | removes exactly the longest all-whitespace prefix |
| `PyStr.RStrip` | vpn_utils.py:95 | removes exactly the longest all-whitespace suffix |
| `PyStr.Strip` | vpn_utils.py:95 | `s.strip()` as right-stripping after left-stripping; specified by the contracts of `LStrip` and `RStrip`, `StripTrimmed` and `StripIdempotent` |
| `PyStr.AllSpaceAppend` | vpn_utils.py:95 | a concatenation is all whitespace exactly when both parts are |
| `PyStr.RStripAppend` | vpn_utils.py:95 | right-stripping `a + b` reaches into `a` only when `b` is all whitespace |
| `PyStr.RStripDropBlank` | vpn_utils.py:95 | an all-whitespace tail is dropped entirely |
| `PyStr.LStripLeadingText` | vpn_utils.py:95 | left-stripping does not change a text that starts with non-whitespace |
| `PyStr.RStripTrimmed` | vpn_utils.py:95 | a text ending in non-whitespace is not changed by right-stripping |
| `PyStr.StripTrimmed` | vpn_utils.py:95 | a text starting and ending in non-whitespace is not changed by stripping |
| `PyStr.StripIdempotent` | vpn_utils.py:95 | stripping twice is stripping once |
| `PyStr.DigitChar` | vpn_utils.py:68-72 | a digit's character is an ASCII digit with that value |
| `PyStr.DigitValue` | vpn_utils.py:68-72 | a digit character's value is below 10 and maps back to the character |
| `PyStr.NatToDecimal` | vpn_utils.py:68-72 | `str(n)` is a non-empty string of digits with no leading zero (except `"0"` itself) |
| `PyStr.DecimalRoundTrip` | vpn_utils.py:68-72 | `int(str(n)) == n` |
| `PyStr.DecimalInjective` | vpn_utils.py:68-72 | different numbers have different numerals |

## Left out

- `generate_totp` (vpn_utils.py:10-15): a wrapper around the `pyotp` library, which depends on the wall clock.
- The `ifconfig` and `ps` processes (vpn_utils.py:46-51, 106-111) are not run. The `ifconfig` outcome is an input. The text is taken after Python's universal-newline translation (`text=True`). An exception other than `CalledProcessError` when launching `ifconfig` (a missing binary, say) propagates in the source and is not modelled.
- `get_process_start_time` (vpn_utils.py:104-118): process listing and `strptime` date parsing, both library calls.
- `is_process_running` (vpn_utils.py:37-42): an operating-system signal probe.
- `read_pid_file`, `write_pid_file`, `setup_logging`, `cleanup_auth_file` and the file append in `log_message` (vpn_utils.py:25-35, 82-86, 92-93, 97-102): filesystem I/O.
- `get_log_file` and `get_connection_log_file` (vpn_utils.py:74-80): a path join over an environment value.
- `load_dotenv()` at import and `datetime.now()` (vpn_utils.py:8, 89): the environment map and the formatted timestamp are inputs.
- `FormatDuration`: takes whole non-negative seconds only. Float and negative inputs, which the source also accepts, are not modelled.
