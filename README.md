# Palworld RCON / SSH text handling in Dafny

The repository talks to a Palworld dedicated server over two channels. RCON carries
text commands and replies. SSH is used to read `/proc/meminfo` remotely. The transports
themselves are external crates. This project models the repository's own logic
around them:

- **`ServerRcon`** models `PalworldRCON` of `palworld_server/src/rcon.rs`:
  - the roster parser for the reply to `showplayers`
  - the `save` and `shutdown` success checks, and the shutdown command string
  - the space rewriting in `broadcast`
  - extraction of the `[vA.B.C.D]` version token from the reply to `info`

  Every parser takes the reply text as a parameter instead of calling `send_command`.
- **`LegacyRcon`** models the older copy, `palworld_rcon/src/lib.rs`:
  - a constructor whose port defaults to 25575
  - a `broadcast` that takes a boolean flag that replaces each space with `_`

  Its roster parser and save check are the same code as in `palworld_server`, so the
  `ServerRcon` members model both copies.
- **`Mem`** models `MemInfo` from `palworld_server/src/mem.rs`. It covers the checked
  `used` and whether `used_percent` is defined.
- **`MemInfoDecoder`** models `get_memory_info` from `palworld_server/src/ssh.rs`. The
  line loop is an imperative method, `GetMemoryInfo`. It is proved equal to a
  line-by-line fold, `DecodeMemInfo`, and the fold's meaning is stated by lemmas:
  - each field holds its own last setting
  - the result is an error exactly when a line overflows
- **`Cli`** models the decisions `palworldcli/src/main.rs` makes:
  - the log level
  - the host, port and user defaults
  - the precedence of `--memory` over `--memory_ssh`
  - the command-line shutdown
- **`Text`** and **`Wrappers`/`Ints`** are the supporting modules:
  - `Text` defines `split`, `join`, `contains`, single-character `replace`, decimal
    formatting and digit values, with their round trips.
  - `Wrappers` defines `Option` and `Result`; `Ints` defines `u16` and `u64`.

Three regular expressions are matched by hand-written matchers:

- The version pattern `\[v[0-9]{1,9}\.[0-9]{1,9}\.[0-9]{1,9}\.[0-9]{1,9}\]` is matched by
  `ServerRcon.MatchVersionAt`. It is proved sound and complete against the declarative
  `IsVersionToken`, and `FindVersion` gives leftmost-first `find`.
- The meminfo pattern `[0-9]{1,99} kB$` is `MemInfoDecoder.KbMatch`. It is proved to be
  the leftmost start at which the pattern matches.
- The bracket remover `(\[)|(\])` is `ServerRcon.StripBrackets`.

`str::parse::<u64>` is modelled digit by digit with checked arithmetic
(`MemInfoDecoder.ParseU64`). It is proved to fail exactly when the value is 2^64 or more.

Two details of the meminfo decoder in `palworld_server/src/ssh.rs` shape the model:

- The key tests (lines 85–99) are case-sensitive `contains` tests anywhere in the line,
  not tests on the line's start: see `MemInfoDecoder.KeyAnywhere` and
  `MemInfoDecoder.MemKeysNeedCapitalM`.
- The unit is exactly ` kB` as the last three characters of the line (line 72). A run
  of more than 99 digits before it still matches, and only its last 99 digits are
  read: see `MemInfoDecoder.LongRunTruncated`.

## Model

| member | source | states |
|---|---|---|
| ServerRcon.New | palworld_server/src/rcon.rs:73-79 | host, port and password are stored as given, as the doc example asserts |
| ServerRcon.ParseRow | palworld_server/src/rcon.rs:160-170 | a line gives a record iff it has exactly two commas; the record's fields joined with `,` give back the line verbatim (no trimming), and no field holds a comma |
| ServerRcon.ParseFormatRow | palworld_server/src/rcon.rs:161-169 | a record whose fields hold no comma survives the format/parse round trip |
| ServerRcon.Rows | palworld_server/src/rcon.rs:160-171 | the `filter_map` keeps at most one record per line; `ServerRcon.RowsIndexed` pins which records, in which order |
| ServerRcon.RowsIndexed | palworld_server/src/rcon.rs:160-171 | the records come from an increasing selection of the lines, covering every line with exactly two commas and only those, in order |
| ServerRcon.RowsAppend | palworld_server/src/rcon.rs:160-171 | the roster of concatenated line lists is the concatenation of their rosters |
| ServerRcon.GetPlayerInfo | palworld_server/src/rcon.rs:154-174 | the result is the roster of the lines after the first one: in line order, one record for each line with exactly two commas, the other lines dropped silently |
| ServerRcon.HeaderDiscarded | palworld_server/src/rcon.rs:158-159 | the first line never contributes, whatever it holds: the roster depends only on the text after the first newline |
| ServerRcon.SingleLineReplyIsEmpty | palworld_server/src/rcon.rs:158-159 | a reply without a newline yields no records |
| ServerRcon.OneRowRoster | palworld_server/src/rcon.rs:155-171 | a header, one well-formed row and a final newline yield exactly that row's record, even when the header has three fields itself; the empty last line is dropped |
| ServerRcon.EmptyFieldsRecord | palworld_server/src/rcon.rs:161-169 | `",,"` yields a record of three empty strings |
| ServerRcon.SaveSucceeded | palworld_server/src/rcon.rs:177-180 | `save` reports success iff the reply contains `Complete Save` somewhere |
| ServerRcon.ShutdownCommand | palworld_server/src/rcon.rs:184-188 | the command is `shutdown `, then the delay's whole seconds as decimal digits without a leading zero (so, by `Text.DecimalStringOfDigits`, exactly their decimal form), then a space and the message; it is `shutdown 30 <msg>` when no delay is given |
| ServerRcon.ShutdownSucceeded | palworld_server/src/rcon.rs:189-191 | `shutdown` reports success iff the reply contains `The server will shut down in` |
| ServerRcon.BroadcastCommand | palworld_server/src/rcon.rs:126-131 | the command is `broadcast ` and then the message; without a replacement the message is unchanged; with a space-free replacement no space is left after the prefix |
| ServerRcon.BroadcastJoinsPieces | palworld_server/src/rcon.rs:127-128 | with a replacement, the message part is the message's space-separated pieces joined by the replacement |
| ServerRcon.BroadcastTwoWords | palworld_server/src/rcon.rs:112-117 | the documented example in general form: two space-free words joined by a space and the replacement `r` give `broadcast <first><r><second>` (`Test Message` with `_` gives `broadcast Test_Message`) |
| ServerRcon.MatchVersionAt | palworld_server/src/rcon.rs:197 | a match at `p` begins with `[v` and ends with `]` after at least one more character, within the text; `MatchVersionSound` and `MatchVersionComplete` tie it to version tokens both ways |
| ServerRcon.MatchVersionSound | palworld_server/src/rcon.rs:197 | every match the hand-written matcher reports is a version token: `[v`, four dot-separated groups of 1 to 9 digits, `]` |
| ServerRcon.MatchVersionComplete | palworld_server/src/rcon.rs:197 | every version token occurring in the text is found by the matcher at its start, with its end |
| ServerRcon.FindVersion | palworld_server/src/rcon.rs:201-204 | the leftmost start of a match at or after the given position, and no match starts before it; none when there is no match |
| ServerRcon.StripBrackets | palworld_server/src/rcon.rs:207 | the result holds no `[` and no `]`, and every other character occurs in it iff it occurs in the input |
| ServerRcon.StripVersionToken | palworld_server/src/rcon.rs:206-207 | removing all brackets from a version token leaves its inside, `v` and the dotted groups |
| ServerRcon.GetVersion | palworld_server/src/rcon.rs:194-210 | a returned version holds no bracket; `GetVersionFails` and `GetVersionLeftmost` state when it fails and which token it returns |
| ServerRcon.GetVersionFails | palworld_server/src/rcon.rs:198-200 | `get_version` fails iff no substring of the reply is a version token |
| ServerRcon.GetVersionLeftmost | palworld_server/src/rcon.rs:201-209 | on success the result is the inside of the leftmost version token of the reply |
| ServerRcon.GetVersionAfterPlainText | palworld_server/src/rcon.rs:195-209 | text without `[` followed by a version token and anything else yields the token's inside; the banner in the source comment yields `v0.1.3.0` |
| ServerRcon.BannerToken | palworld_server/src/rcon.rs:195 | `[v0.1.3.0]` from the source's banner comment is a version token |
| LegacyRcon.New | palworld_rcon/src/lib.rs:71-80 | host and password are stored verbatim; without a port the port is 25575, and with a port `p` the result equals the newer constructor with `p` |
| LegacyRcon.BroadcastCommand | palworld_rcon/src/lib.rs:107-120 | the command is `broadcast ` and then the message; with the flag the message part has the message's length, every space becomes `_`, every other character stays in place, and no space remains; without the flag the message is unchanged; in both cases it equals the newer `broadcast` with `Some("_")` or `None` |
| LegacyRcon.UnderscoreByPosition | palworld_rcon/src/lib.rs:113-114 | `replace(" ", "_")` keeps the length and rewrites the text character by character |
| Mem.Used | palworld_server/src/mem.rs:15-17 | `None` iff `mem_available > mem_total`; otherwise the value plus `mem_available` equals `mem_total` |
| Mem.UsedPercent | palworld_server/src/mem.rs:19-27 | defined iff `used` is defined, as `used` over `mem_total` |
| Mem.UsedAtMostTotal | palworld_server/src/mem.rs:15-17 | when defined, `used` is at most `mem_total` |
| Mem.UsedIgnoresOtherCounters | palworld_server/src/mem.rs:15-17 | `mem_free`, `buffers` and `cached` do not affect `used` |
| Mem.DefaultUsed | palworld_server/src/mem.rs:5-12 | the default report has all fields 0 and its `used` is `Some(0)` |
| Mem.ZeroTotalHasRatio | palworld_server/src/mem.rs:19-27 | a zero total with nothing available still gives a ratio (0 over 0) rather than `None` |
| MemInfoDecoder.New | palworld_server/src/ssh.rs:24-34 | hostname, username and password are stored as given |
| MemInfoDecoder.KbMatch | palworld_server/src/ssh.rs:72-84 | a reported start is one where `[0-9]{1,99} kB$` matches: 1 to 99 digits from there up to a final ` kB` |
| MemInfoDecoder.KbMatchLeftmost | palworld_server/src/ssh.rs:72-84 | no match starts left of the reported one, and none is reported iff the pattern matches nowhere in the line |
| MemInfoDecoder.KbDigits | palworld_server/src/ssh.rs:81-86 | the matched text is 1 to 99 digits followed by ` kB`, and removing ` kB` leaves the digits |
| MemInfoDecoder.ParseU64 | palworld_server/src/ssh.rs:86 | parsing succeeds iff the digits' value is below 2^64, and then gives that value |
| MemInfoDecoder.KeyTestsOk | palworld_server/src/ssh.rs:85-99 | with a value that parses, exactly the fields whose key test holds take it and the others keep theirs |
| MemInfoDecoder.KeyTestsErr | palworld_server/src/ssh.rs:85-99 | with a value that overflows, the tests fail iff some key test holds, and otherwise change nothing |
| MemInfoDecoder.ApplyLine | palworld_server/src/ssh.rs:78-99 | one pass of the loop body over a line, as a function; `ApplyLineSpec` states its meaning |
| MemInfoDecoder.ApplyLineSpec | palworld_server/src/ssh.rs:77-100 | one line fails iff it matches, some key test holds and its number overflows; otherwise each field takes the line's number iff the line sets it, and keeps its value if not |
| MemInfoDecoder.GetMemoryInfo | palworld_server/src/ssh.rs:71-103 | the loop, with in-place field updates and early error return, yields exactly the line-by-line decoding of the output split at `\n` |
| MemInfoDecoder.DecodeLines | palworld_server/src/ssh.rs:76-102 | the loop as a fold over the lines, stopping at the first error; `DecodeFailsIff` and `DecodeFields` state its meaning |
| MemInfoDecoder.LineAborts | palworld_server/src/ssh.rs:85-99 | a matched line that passes a key test and whose number overflows makes the decoding fail with that parse error |
| MemInfoDecoder.LineApplied | palworld_server/src/ssh.rs:85-99 | a matched line whose fields are updated as the key tests say moves the decoding to the updated report |
| MemInfoDecoder.FailurePersists | palworld_server/src/ssh.rs:85-99 | once a prefix of the lines fails, the whole decoding fails with that error |
| MemInfoDecoder.DecodeFailsIff | palworld_server/src/ssh.rs:85-99 | the decoding fails iff some line matches the pattern, passes a key test and holds a number of 2^64 or more |
| MemInfoDecoder.DecodeFields | palworld_server/src/ssh.rs:76-100 | on success each field is its own last setting, 0 when never set, independent of the other fields |
| MemInfoDecoder.LastSettingWins | palworld_server/src/ssh.rs:77-100 | a field holds the number of the last line that sets it; later lines overwrite earlier ones |
| MemInfoDecoder.UnsetFieldIsZero | palworld_server/src/ssh.rs:76 | a field that no line sets stays 0; a missing key is not an error |
| MemInfoDecoder.UnmatchedLineIgnored | palworld_server/src/ssh.rs:78-80 | a line the pattern does not match changes nothing |
| MemInfoDecoder.SwapCachedNeverSetsCached | palworld_server/src/ssh.rs:97-99 | a line containing `SwapCached` never changes `cached` |
| MemInfoDecoder.KeyAnywhere | palworld_server/src/ssh.rs:85-96 | a key anywhere in the line passes its test, not only at the line's start |
| MemInfoDecoder.MemKeysNeedCapitalM | palworld_server/src/ssh.rs:85-93 | the tests are case-sensitive: a line without a capital `M` (such as `memtotal:`) sets none of the `Mem` fields |
| MemInfoDecoder.OneLineSeveralFields | palworld_server/src/ssh.rs:85-99 | one line can set several fields, all to the same number |
| MemInfoDecoder.LongRunTruncated | palworld_server/src/ssh.rs:72-86 | a run of 99 or more digits before ` kB` is matched by its last 99 digits |
| MemInfoDecoder.OverflowAborts | palworld_server/src/ssh.rs:85-99 | an overflowing number on a line that passes a key test aborts the whole decoding, whatever the other lines hold |
| Cli.Lower | palworldcli/src/main.rs:166 | lowercasing keeps the length, maps each character by itself and leaves no ASCII capital |
| Cli.Classify | palworldcli/src/main.rs:166-173 | the level is the one of the first keyword, in the order trace, debug, info, warn, error, that the text contains; `Off` iff it contains none |
| Cli.LevelFromArg | palworldcli/src/main.rs:165-175 | no argument gives `Off`; otherwise the level is the classification of the lowercased argument |
| Cli.LevelIgnoresCase | palworldcli/src/main.rs:166 | an argument and its lowercase select the same level |
| Cli.DebugBeforeLaterKeywords | palworldcli/src/main.rs:167-171 | text containing `debug` but not `trace` is `Debug`, whatever later keywords it holds |
| Cli.UppercaseDebug | palworldcli/src/main.rs:166-168 | `DEBUG` selects `Debug` |
| Cli.DebugErrorIsDebug | palworldcli/src/main.rs:167-171 | `debug-error` selects `Debug` |
| Cli.RconServer | palworldcli/src/main.rs:81-85 | the host defaults to `localhost`, the port to 25575, and the password is passed through |
| Cli.SshConnection | palworldcli/src/main.rs:149-152 | the SSH target is the host, a `:` and the port as decimal digits without a leading zero, with port 22 and user `root` when not given |
| Cli.MemorySourceOf | palworldcli/src/main.rs:140-147 | `--memory` selects the local report; `--memory_ssh` selects the SSH report only without `--memory`; neither flag selects nothing |
| Cli.ShutdownCommandOf | palworldcli/src/main.rs:114-118 | a command is sent iff `--shutdown` is given, with that delay in whole seconds and an empty message |
| Cli.ShutdownFromCli | palworldcli/src/main.rs:114-118 | the command-line shutdown is `shutdown `, the delay's digits without a leading zero and a trailing space |
| Text.DecimalString | palworld_server/src/rcon.rs:184-187 | decimal formatting gives digits without a leading zero whose value is the number |
| Text.DecimalStringOfDigits | palworld_server/src/rcon.rs:184-187 | reading a decimal string back and formatting it again gives the same string |
| Text.SplitJoin | palworld_server/src/rcon.rs:158-161 | joining the pieces of a split with the separator gives back the text |
| Text.JoinSplit | palworld_server/src/rcon.rs:158-161 | splitting separator-free pieces joined with the separator gives back the pieces |
| Text.Contains | palworld_server/src/rcon.rs:179 | `contains` holds iff the pattern occurs at some position |
| Text.ReplaceIsSplitJoin | palworld_server/src/rcon.rs:128 | replacing a character is splitting at it and joining with the replacement |
| Text.ReplaceRemovesAll | palworld_server/src/rcon.rs:128 | a replacement free of the character leaves none of it |

## Left out

- RCON networking is left out: `connect`, `send_command`, TCP, authentication, packet framing and the
  multi-packet "factorio quirks" reassembly. These live in the external `rcon` crate.
  Every parser takes the reply text as a parameter, so the fixed command strings sent
  (`showplayers`, `save`, `info` and the remote `cat /proc/meminfo | grep …` pipeline) are not modelled.
- The SSH transport is left out: `PalworldConnection::connect` and `command`, the ssh2 session,
  `spawn_blocking` and channel I/O. The decoder takes the command output as a parameter.
  Like the source, it does not look at the exit status.
- `MemInfo::get_memory_info` is left out. It is a foreign call into psutil on the local machine.
- Mem.UsedPercent: only whether the value is defined is modelled, as the pair it divides. The
  floating-point quotient is not modelled.
- The regex engine in general is left out. Only the three fixed patterns are modelled, by
  hand-written matchers.
- MemInfoDecoder.KbDigits: the matched text is always digits followed by ` kB`, so
  `replace(" kB", "")` is modelled as dropping the last three characters. A general
  multi-character `replace` is not modelled.
- MemInfoDecoder.ParseU64: only decimal digit strings reach `parse` here, so the sign,
  empty-string and invalid-digit errors of `str::parse` are not modelled.
- Cli.Lower: `to_lowercase` is modelled for ASCII letters only. Unicode case mapping,
  including mappings that change a string's length, is not modelled.
- CLI plumbing is left out: clap parsing, the fern logger setup, `println!`, JSON output, the
  `--command` pass-through, the `--json`/`--list`/`--server_version` printing, and the
  `println!` in `shutdown`. They are output only and decide nothing modelled here.
- The `#[tokio::test]` functions are left out. They need live servers and credentials.
