/**
 * The text side of `PalworldRCON` in the palworld_server crate: the
 * command strings it sends and the parsers it applies to the server's
 * replies. `send_command` is not modelled: every parser takes the reply
 * text it would have returned as a parameter.
 */
module ServerRcon {
  import opened Wrappers
  import opened Ints
  import opened Text

  /** Default Source Engine RCON port, which Palworld uses as well. */
  const DEFAULT_SOURCE_PORT: u16 := 25575

  /** One row of the `showplayers` reply. */
  datatype PlayerInfo = PlayerInfo(name: string, uid: string, steamid: string)

  /** The endpoint of a server's RCON channel. */
  datatype PalworldRcon = PalworldRcon(host: string, port: u16, password: string)

  /** `PalworldRCON::new`: host, port and password are kept as given. */
  function New(host: string, port: u16, password: string): (r: PalworldRcon)
    ensures r.host == host && r.port == port && r.password == password
  {
    PalworldRcon(host, port, password)
  }

  // ---------------------------------------------------------------------
  // get_player_info: the roster in the reply to `showplayers`
  // ---------------------------------------------------------------------

  /** The row a record would be read from. */
  function FormatRow(p: PlayerInfo): string {
    JoinWith([p.name, p.uid, p.steamid], ",")
  }

  /** The `filter_map` closure: a line gives a record exactly when it splits on
      `,` into three pieces, and the pieces become the fields verbatim. */
  function ParseRow(line: string): (r: Option<PlayerInfo>)
    ensures r.Some? <==> Count(line, ',') == 2
    ensures r.Some? ==> FormatRow(r.value) == line
    ensures r.Some? ==> ',' !in r.value.name && ',' !in r.value.uid && ',' !in r.value.steamid
  {
    var split := Split(line, ',');
    if |split| != 3 then None
    else
      SplitJoin(line, ',');
      assert split == [split[0], split[1], split[2]];
      JoinThree(split[0], split[1], split[2], ",");
      Some(PlayerInfo(split[0], split[1], split[2]))
  }

  /** A record whose fields hold no comma survives a format/parse round trip. */
  lemma ParseFormatRow(p: PlayerInfo)
    requires ',' !in p.name && ',' !in p.uid && ',' !in p.steamid
    ensures ParseRow(FormatRow(p)) == Some(p)
  {
    JoinSplit([p.name, p.uid, p.steamid], ',');
    JoinThree(p.name, p.uid, p.steamid, ",");
  }

  /** The records of the lines, in line order. */
  function Rows(lines: seq<string>): (r: seq<PlayerInfo>)
    ensures |r| <= |lines|
    decreases |lines|
  {
    if lines == [] then []
    else
      (match ParseRow(lines[0]) case None => [] case Some(p) => [p]) + Rows(lines[1..])
  }

  /** `roster[k]` is the record of line `idx[k]`. */
  ghost predicate RecordsFrom(lines: seq<string>, roster: seq<PlayerInfo>, idx: seq<int>) {
    && |idx| == |roster|
    && forall k :: 0 <= k < |idx| ==> 0 <= idx[k] < |lines| && ParseRow(lines[idx[k]]) == Some(roster[k])
  }

  ghost predicate Increasing(idx: seq<int>) {
    forall k, l :: 0 <= k < l < |idx| ==> idx[k] < idx[l]
  }

  /** Every line that gives a record is listed in `idx`. */
  ghost predicate CoversRecordLines(lines: seq<string>, idx: seq<int>) {
    forall j :: 0 <= j < |lines| && ParseRow(lines[j]).Some? ==> j in idx
  }

  /** `idx` lists, in increasing order, exactly the positions of the lines that
      give a record, and `roster[k]` is the record of line `idx[k]`. */
  ghost predicate RosterIndices(lines: seq<string>, roster: seq<PlayerInfo>, idx: seq<int>) {
    RecordsFrom(lines, roster, idx) && Increasing(idx) && CoversRecordLines(lines, idx)
  }

  /** `roster` holds one record per well-formed line, in the lines' order, and nothing else. */
  ghost predicate IsRosterOf(lines: seq<string>, roster: seq<PlayerInfo>) {
    exists idx :: RosterIndices(lines, roster, idx)
  }

  function Shift(idx: seq<int>): (r: seq<int>)
    ensures |r| == |idx| && forall k :: 0 <= k < |idx| ==> r[k] == idx[k] + 1
  {
    seq(|idx|, k requires 0 <= k < |idx| => idx[k] + 1)
  }

  /** A line without a record in front moves every index one on. */
  lemma ConsSkip(line: string, tail: seq<string>, roster: seq<PlayerInfo>, idx: seq<int>)
    requires ParseRow(line).None? && RosterIndices(tail, roster, idx)
    ensures RosterIndices([line] + tail, roster, Shift(idx))
  {
    var lines := [line] + tail;
    var sh := Shift(idx);
    assert RecordsFrom(lines, roster, sh) by {
      forall k | 0 <= k < |sh| ensures lines[sh[k]] == tail[idx[k]] {
      }
    }
    assert CoversRecordLines(lines, sh) by {
      forall j | 0 <= j < |lines| && ParseRow(lines[j]).Some? ensures j in sh {
        assert lines[j] == tail[j - 1];
        var k :| 0 <= k < |idx| && idx[k] == j - 1;
        assert sh[k] == j;
      }
    }
  }

  /** A line with a record in front puts that record first, at index 0. */
  lemma ConsKeep(line: string, tail: seq<string>, roster: seq<PlayerInfo>, idx: seq<int>)
    requires ParseRow(line).Some? && RosterIndices(tail, roster, idx)
    ensures RosterIndices([line] + tail, [ParseRow(line).value] + roster, [0] + Shift(idx))
  {
    ConsKeepRecords(line, tail, roster, idx);
    ConsKeepCovers(line, tail, idx);
  }

  lemma ConsKeepRecords(line: string, tail: seq<string>, roster: seq<PlayerInfo>, idx: seq<int>)
    requires ParseRow(line).Some? && RecordsFrom(tail, roster, idx)
    ensures RecordsFrom([line] + tail, [ParseRow(line).value] + roster, [0] + Shift(idx))
  {
    var lines := [line] + tail;
    var all := [0] + Shift(idx);
    var r := [ParseRow(line).value] + roster;
    forall k | 1 <= k < |all|
      ensures 0 <= all[k] < |lines| && ParseRow(lines[all[k]]) == Some(r[k])
    {
      assert all[k] == idx[k - 1] + 1 && r[k] == roster[k - 1];
      assert lines[all[k]] == tail[idx[k - 1]];
    }
  }

  lemma ConsKeepCovers(line: string, tail: seq<string>, idx: seq<int>)
    requires CoversRecordLines(tail, idx)
    ensures CoversRecordLines([line] + tail, [0] + Shift(idx))
  {
    var lines := [line] + tail;
    var all := [0] + Shift(idx);
    forall j | 1 <= j < |lines| && ParseRow(lines[j]).Some? ensures j in all {
      assert lines[j] == tail[j - 1];
      var k :| 0 <= k < |idx| && idx[k] == j - 1;
      assert all[k + 1] == j;
    }
    assert all[0] == 0;
  }

  lemma {:induction false} RowsIndexed(lines: seq<string>) returns (idx: seq<int>)
    ensures RosterIndices(lines, Rows(lines), idx)
    decreases |lines|
  {
    if lines == [] {
      idx := [];
    } else {
      var inner := RowsIndexed(lines[1..]);
      assert lines == [lines[0]] + lines[1..];
      if ParseRow(lines[0]).Some? {
        ConsKeep(lines[0], lines[1..], Rows(lines[1..]), inner);
        idx := [0] + Shift(inner);
      } else {
        ConsSkip(lines[0], lines[1..], Rows(lines[1..]), inner);
        idx := Shift(inner);
      }
    }
  }

  /** Record selection distributes over concatenation of the lines. */
  lemma {:induction false} RowsAppend(a: seq<string>, b: seq<string>)
    ensures Rows(a + b) == Rows(a) + Rows(b)
    decreases |a|
  {
    if a != [] {
      RowsAppend(a[1..], b);
      assert (a + b)[0] == a[0] && (a + b)[1..] == a[1..] + b;
    } else {
      assert a + b == b;
    }
  }

  /** The lines of the reply after the first. */
  function BodyLines(response: string): seq<string> {
    Split(response, '\n')[1..]
  }

  /** `get_player_info` on the reply to `showplayers`: the first line is skipped,
      and the rest are reduced to the records of their well-formed rows, in order. */
  function GetPlayerInfo(response: string): (roster: seq<PlayerInfo>)
    ensures IsRosterOf(BodyLines(response), roster)
  {
    var roster := Rows(BodyLines(response));
    assert IsRosterOf(BodyLines(response), roster) by {
      var idx := RowsIndexed(BodyLines(response));
    }
    roster
  }

  /** The first line never contributes, whatever it holds: the roster depends only
      on what follows the first newline. */
  lemma HeaderDiscarded(header: string, body: string)
    requires '\n' !in header
    ensures GetPlayerInfo(header + "\n" + body) == Rows(Split(body, '\n'))
  {
    SplitPrefix(header, body, '\n');
    assert header + "\n" + body == header + ['\n'] + body;
  }

  /** A reply without a newline is all header: the roster is empty. */
  lemma SingleLineReplyIsEmpty(response: string)
    requires '\n' !in response
    ensures GetPlayerInfo(response) == []
  {
    CountZero(response, '\n');
  }

  /** A reply of a header and one well-formed row ended by a newline gives exactly
      that row's record: the header is dropped even when it has three fields itself
      (the server's own header is `name,playeruid,steamid`), and so is the empty
      line after the final newline. */
  lemma OneRowRoster(header: string, p: PlayerInfo)
    requires '\n' !in header
    requires ',' !in p.name && ',' !in p.uid && ',' !in p.steamid
    requires '\n' !in FormatRow(p)
    ensures GetPlayerInfo(header + "\n" + FormatRow(p) + "\n") == [p]
  {
    var row := FormatRow(p);
    assert header + "\n" + row + "\n" == header + "\n" + (row + "\n");
    HeaderDiscarded(header, row + "\n");
    SplitPrefix(row, "", '\n');
    assert row + "\n" == row + ['\n'] + "";
    var lines := [row, ""];
    assert Split(row + "\n", '\n') == lines;
    ParseFormatRow(p);
    assert ParseRow("") == None by {
      assert Count("", ',') == 0;
    }
    assert lines[1..] == [""];
    assert Rows(lines) == [p] + Rows([""]);
  }

  /** Fields are not trimmed or checked: a line of two commas is a record of three empty fields. */
  lemma EmptyFieldsRecord()
    ensures ParseRow(",,") == Some(PlayerInfo("", "", ""))
  {
    JoinThree("", "", "", ",");
    ParseFormatRow(PlayerInfo("", "", ""));
  }

  // ---------------------------------------------------------------------
  // save and shutdown
  // ---------------------------------------------------------------------

  const SAVE_MARKER := "Complete Save"
  const SHUTDOWN_MARKER := "The server will shut down in"

  /** `save`: the reply reports success exactly when it contains the marker. */
  function SaveSucceeded(response: string): (saved: bool)
    ensures saved <==> exists i :: OccursAt(response, SAVE_MARKER, i)
  {
    Contains(response, SAVE_MARKER)
  }

  /** A `std::time::Duration`: whole seconds and the nanoseconds beyond them. */
  datatype Duration = Duration(secs: u64, nanos: Nanos)
  type Nanos = x: int | 0 <= x < 1_000_000_000

  const DEFAULT_SHUTDOWN_DELAY: Duration := Duration(30, 0)

  /** The delay in whole seconds the shutdown command carries: `as_secs`, 30 when absent. */
  function ShutdownSeconds(delay: Option<Duration>): u64 {
    delay.UnwrapOr(DEFAULT_SHUTDOWN_DELAY).secs
  }

  /** `shutdown`'s command: `shutdown <seconds> <msg>`, the seconds in decimal. */
  function ShutdownCommand(delay: Option<Duration>, msg: string): (cmd: string)
    ensures |cmd| >= 11 + |msg| && cmd[..9] == "shutdown "
    ensures var end := |cmd| - |msg| - 1;
      && cmd[end] == ' ' && cmd[end + 1..] == msg
      && AllDigits(cmd[9..end]) && DigitsValue(cmd[9..end]) == ShutdownSeconds(delay)
      && (cmd[9] == '0' ==> end == 10)
    ensures delay.None? ==> cmd == "shutdown 30 " + msg
  {
    var secs := DecimalString(ShutdownSeconds(delay));
    var cmd := "shutdown " + secs + " " + msg;
    assert cmd[9..|cmd| - |msg| - 1] == secs;
    assert delay.None? ==> secs == "30" by {
      if delay.None? {
        DecimalStringOfDigits("30");
      }
    }
    cmd
  }

  /** `shutdown`: the reply reports success exactly when it contains the marker. */
  function ShutdownSucceeded(response: string): (accepted: bool)
    ensures accepted <==> exists i :: OccursAt(response, SHUTDOWN_MARKER, i)
  {
    Contains(response, SHUTDOWN_MARKER)
  }

  // ---------------------------------------------------------------------
  // broadcast
  // ---------------------------------------------------------------------

  const BROADCAST_PREFIX := "broadcast "

  /** `broadcast`'s command. With a replacement every space of the message is
      replaced by it; without one the message is sent as it is. */
  function BroadcastCommand(message: string, replaceSpace: Option<string>): (cmd: string)
    ensures |cmd| >= 10 && cmd[..10] == BROADCAST_PREFIX
    ensures replaceSpace.None? ==> cmd[10..] == message
    ensures replaceSpace.Some? && ' ' !in replaceSpace.value ==> ' ' !in cmd[10..]
  {
    var body := match replaceSpace
      case Some(s) => ReplaceChar(message, ' ', s)
      case None => message;
    var cmd := BROADCAST_PREFIX + body;
    assert cmd[10..] == body;
    assert replaceSpace.Some? && ' ' !in replaceSpace.value ==> ' ' !in body by {
      if replaceSpace.Some? && ' ' !in replaceSpace.value {
        ReplaceRemovesAll(message, ' ', replaceSpace.value);
      }
    }
    cmd
  }

  /** With a replacement, the message part is the message's space-separated
      pieces joined by the replacement. */
  lemma BroadcastJoinsPieces(message: string, replacement: string)
    ensures BroadcastCommand(message, Some(replacement))
         == BROADCAST_PREFIX + JoinWith(Split(message, ' '), replacement)
  {
    ReplaceIsSplitJoin(message, ' ', replacement);
  }

  /** The documented example, `"Test Message"` with `"_"` giving
      `broadcast Test_Message`, for any two space-free words and any replacement. */
  lemma BroadcastTwoWords(first: string, second: string, replacement: string)
    requires ' ' !in first && ' ' !in second
    ensures BroadcastCommand(first + " " + second, Some(replacement))
         == BROADCAST_PREFIX + first + replacement + second
  {
    var message := first + " " + second;
    calc {
      ReplaceChar(message, ' ', replacement);
      { assert message == first + (" " + second); }
      ReplaceChar(first + (" " + second), ' ', replacement);
      { ReplaceConcat(first, " " + second, ' ', replacement); }
      ReplaceChar(first, ' ', replacement) + ReplaceChar(" " + second, ' ', replacement);
      { ReplaceWithoutOccurrence(first, ' ', replacement); }
      first + ReplaceChar(" " + second, ' ', replacement);
      { ReplaceConcat(" ", second, ' ', replacement); }
      first + (ReplaceChar(" ", ' ', replacement) + ReplaceChar(second, ' ', replacement));
      { ReplaceSingle(' ', replacement); ReplaceWithoutOccurrence(second, ' ', replacement); }
      first + (replacement + second);
    }
    BroadcastReplaces(message, replacement);
    assert BROADCAST_PREFIX + first + replacement + second == BROADCAST_PREFIX + (first + (replacement + second));
  }

  lemma BroadcastReplaces(message: string, replacement: string)
    ensures BroadcastCommand(message, Some(replacement)) == BROADCAST_PREFIX + ReplaceChar(message, ' ', replacement)
  {
  }

  // ---------------------------------------------------------------------
  // get_version: \[v[0-9]{1,9}\.[0-9]{1,9}\.[0-9]{1,9}\.[0-9]{1,9}\]
  // ---------------------------------------------------------------------

  predicate IsVersionGroup(g: string) {
    1 <= |g| <= 9 && AllDigits(g)
  }

  /** The strings the version pattern matches: `[v`, four groups of one to nine
      digits separated by dots, and `]`. */
  ghost predicate IsVersionToken(t: string) {
    |t| >= 3 && t[0] == '[' && t[1] == 'v' && t[|t| - 1] == ']' && IsDottedVersion(t[2..|t| - 1])
  }

  /** Four version groups separated by dots. */
  ghost predicate IsDottedVersion(inner: string) {
    var groups := Split(inner, '.');
    |groups| == 4 && forall k :: 0 <= k < 4 ==> IsVersionGroup(groups[k])
  }

  /** A token inside a text, read through the text's own positions. */
  lemma TokenAt(s: string, p: nat, q: nat)
    requires p + 3 <= q <= |s|
    ensures IsVersionToken(s[p..q]) <==>
      s[p] == '[' && s[p + 1] == 'v' && s[q - 1] == ']' && IsDottedVersion(s[p + 2..q - 1])
  {
    var t := s[p..q];
    assert t[0] == s[p] && t[1] == s[p + 1] && t[|t| - 1] == s[q - 1];
    assert t[2..] == s[p + 2..q];
    assert t[2..|t| - 1] == t[2..][..|t| - 3];
    assert s[p + 2..q][..q - p - 3] == s[p + 2..q - 1];
  }

  /** A version group read in place: `s[i..j]` is one to nine digits. */
  predicate GroupAt(s: string, i: nat, j: nat)
    requires i <= j <= |s|
  {
    1 <= j - i <= 9 && forall k :: i <= k < j ==> IsDigit(s[k])
  }

  lemma GroupAtSlice(s: string, i: nat, j: nat)
    requires i <= j <= |s|
    ensures GroupAt(s, i, j) <==> IsVersionGroup(s[i..j])
  {
    if IsVersionGroup(s[i..j]) {
      forall k | i <= k < j ensures IsDigit(s[k]) {
        assert s[k] == s[i..j][k - i];
      }
    }
  }

  /** The number of digits in `s` from position `i` on. */
  function DigitRun(s: string, i: nat): (n: nat)
    requires i <= |s|
    ensures i + n <= |s|
    decreases |s| - i
  {
    if i < |s| && IsDigit(s[i]) then 1 + DigitRun(s, i + 1) else 0
  }

  /** The run is all digits and stops at a non-digit or at the end. */
  lemma {:induction false} DigitRunSpec(s: string, i: nat)
    requires i <= |s|
    ensures forall k :: i <= k < i + DigitRun(s, i) ==> IsDigit(s[k])
    ensures i + DigitRun(s, i) < |s| ==> !IsDigit(s[i + DigitRun(s, i)])
    decreases |s| - i
  {
    if i < |s| && IsDigit(s[i]) {
      DigitRunSpec(s, i + 1);
    }
  }

  lemma {:induction false} DigitRunOf(s: string, i: nat, n: nat)
    requires i + n <= |s| && forall k :: i <= k < i + n ==> IsDigit(s[k])
    requires i + n < |s| ==> !IsDigit(s[i + n])
    ensures DigitRun(s, i) == n
    decreases n
  {
    if n > 0 {
      DigitRunOf(s, i + 1, n - 1);
    }
  }

  /** One version group starting at `i` and the character `term` after it:
      the position after `term`. */
  function MatchGroup(s: string, i: nat, term: char): (r: Option<nat>)
    requires i <= |s|
    ensures r.Some? ==> i < r.value <= |s|
  {
    var n := DigitRun(s, i);
    if 1 <= n <= 9 && i + n < |s| && s[i + n] == term then Some(i + n + 1) else None
  }

  /** What a group match covers: a version group, then `term`. */
  lemma MatchGroupSound(s: string, i: nat, term: char)
    requires i <= |s| && MatchGroup(s, i, term).Some?
    ensures var j := MatchGroup(s, i, term).value; GroupAt(s, i, j - 1) && s[j - 1] == term
  {
    DigitRunSpec(s, i);
  }

  lemma MatchGroupOf(s: string, i: nat, j: nat, term: char)
    requires i <= j < |s| && GroupAt(s, i, j) && s[j] == term && !IsDigit(term)
    ensures MatchGroup(s, i, term) == Some(j + 1)
  {
    DigitRunOf(s, i, j - i);
  }

  /** The end of the version pattern's match starting at `p`, if there is one
      (at most one: each group must run up to the next non-digit). */
  function MatchVersionAt(s: string, p: nat): (r: Option<nat>)
    requires p <= |s|
    ensures r.Some? ==> p + 2 < r.value <= |s| && s[p] == '[' && s[p + 1] == 'v' && s[r.value - 1] == ']'
  {
    if p + 2 <= |s| && s[p] == '[' && s[p + 1] == 'v' then
      match MatchGroup(s, p + 2, '.')
      case None => None
      case Some(q1) =>
        match MatchGroup(s, q1, '.')
        case None => None
        case Some(q2) =>
          match MatchGroup(s, q2, '.')
          case None => None
          case Some(q3) =>
            var last := MatchGroup(s, q3, ']');
            if last.Some? then MatchGroupSound(s, q3, ']'); last else last
    else None
  }

  lemma NoDotInGroup(g: string)
    requires IsVersionGroup(g)
    ensures '.' !in g
  {
  }

  /** Four groups with a dot after each of the first three: the dotted text joins them. */
  lemma DottedGroups(s: string, i0: nat, q1: nat, q2: nat, q3: nat, q: nat)
    requires i0 < q1 < q2 < q3 < q <= |s|
    requires s[q1 - 1] == '.' && s[q2 - 1] == '.' && s[q3 - 1] == '.'
    ensures s[i0..q - 1] == JoinWith([s[i0..q1 - 1], s[q1..q2 - 1], s[q2..q3 - 1], s[q3..q - 1]], ".")
  {
    JoinFour(s[i0..q1 - 1], s[q1..q2 - 1], s[q2..q3 - 1], s[q3..q - 1], ".");
    DotBetween(s, q3, q);
    DotBetween(s, q2, q);
    DotBetween(s, q1, q);
    calc {
      s[i0..q - 1];
      s[i0..q1 - 1] + s[q1 - 1..q - 1];
      s[i0..q1 - 1] + ("." + s[q1..q - 1]);
      s[i0..q1 - 1] + ("." + (s[q1..q2 - 1] + ("." + s[q2..q - 1])));
      s[i0..q1 - 1] + ("." + (s[q1..q2 - 1] + ("." + (s[q2..q3 - 1] + ("." + s[q3..q - 1])))));
      s[i0..q1 - 1] + "." + s[q1..q2 - 1] + "." + s[q2..q3 - 1] + "." + s[q3..q - 1];
    }
  }

  /** A dot at `k - 1` splits a slice ending at `q - 1` into the dot and the rest. */
  lemma DotBetween(s: string, k: nat, q: nat)
    requires 1 <= k < q <= |s| && s[k - 1] == '.'
    ensures s[k - 1..q - 1] == "." + s[k..q - 1]
  {
  }

  /** Four version groups joined by dots make a dotted version. */
  lemma DottedOfGroups(g0: string, g1: string, g2: string, g3: string)
    requires IsVersionGroup(g0) && IsVersionGroup(g1) && IsVersionGroup(g2) && IsVersionGroup(g3)
    ensures IsDottedVersion(JoinWith([g0, g1, g2, g3], "."))
  {
    var groups := [g0, g1, g2, g3];
    forall k | 0 <= k < 4 ensures '.' !in groups[k] {
      NoDotInGroup(groups[k]);
    }
    JoinSplit(groups, '.');
  }

  /** The four groups read as slices rather than in place. */
  lemma GroupsAsSlices(s: string, p: nat, q1: nat, q2: nat, q3: nat, q: nat)
    requires p + 2 < q1 < q2 < q3 < q <= |s|
    requires GroupAt(s, p + 2, q1 - 1) && GroupAt(s, q1, q2 - 1)
    requires GroupAt(s, q2, q3 - 1) && GroupAt(s, q3, q - 1)
    ensures IsVersionGroup(s[p + 2..q1 - 1]) && IsVersionGroup(s[q1..q2 - 1])
    ensures IsVersionGroup(s[q2..q3 - 1]) && IsVersionGroup(s[q3..q - 1])
  {
    GroupAtSlice(s, p + 2, q1 - 1);
    GroupAtSlice(s, q1, q2 - 1);
    GroupAtSlice(s, q2, q3 - 1);
    GroupAtSlice(s, q3, q - 1);
  }

  /** Four groups at the given positions, with `[v` before them, dots between them and
      `]` after them, make a version token. */
  lemma TokenFromPositions(s: string, p: nat, q1: nat, q2: nat, q3: nat, q: nat)
    requires p + 2 < q1 < q2 < q3 < q <= |s|
    requires s[p] == '[' && s[p + 1] == 'v' && s[q - 1] == ']'
    requires s[q1 - 1] == '.' && s[q2 - 1] == '.' && s[q3 - 1] == '.'
    requires GroupAt(s, p + 2, q1 - 1) && GroupAt(s, q1, q2 - 1)
    requires GroupAt(s, q2, q3 - 1) && GroupAt(s, q3, q - 1)
    ensures IsVersionToken(s[p..q])
  {
    GroupsAsSlices(s, p, q1, q2, q3, q);
    DottedGroups(s, p + 2, q1, q2, q3, q);
    DottedOfGroups(s[p + 2..q1 - 1], s[q1..q2 - 1], s[q2..q3 - 1], s[q3..q - 1]);
    TokenAt(s, p, q);
  }

  /** Everything the matcher accepts is a version token. */
  lemma MatchVersionSound(s: string, p: nat)
    requires p <= |s| && MatchVersionAt(s, p).Some?
    ensures IsVersionToken(s[p..MatchVersionAt(s, p).value])
  {
    var q1 := MatchGroup(s, p + 2, '.').value;
    MatchGroupSound(s, p + 2, '.');
    var q2 := MatchGroup(s, q1, '.').value;
    MatchGroupSound(s, q1, '.');
    var q3 := MatchGroup(s, q2, '.').value;
    MatchGroupSound(s, q2, '.');
    var q := MatchGroup(s, q3, ']').value;
    MatchGroupSound(s, q3, ']');
    TokenFromPositions(s, p, q1, q2, q3, q);
  }

  /** A slice made of a head, one character and a tail, read back by position. */
  lemma SliceParts(s: string, i: nat, j: nat, a: string, c: char, b: string)
    requires i <= j <= |s| && s[i..j] == a + [c] + b
    ensures i + |a| < j && s[i..i + |a|] == a && s[i + |a|] == c && s[i + |a| + 1..j] == b
  {
    assert s[i..i + |a|] == s[i..j][..|a|];
    assert s[i + |a|] == s[i..j][|a|];
    assert s[i + |a| + 1..j] == s[i..j][|a| + 1..];
  }

  /** The four groups of a dotted version, with the dots between them. */
  lemma DottedParts(inner: string) returns (g0: string, g1: string, g2: string, g3: string)
    requires IsDottedVersion(inner)
    ensures inner == g0 + "." + (g1 + "." + (g2 + "." + g3))
    ensures IsVersionGroup(g0) && IsVersionGroup(g1) && IsVersionGroup(g2) && IsVersionGroup(g3)
  {
    var groups := Split(inner, '.');
    SplitJoin(inner, '.');
    g0, g1, g2, g3 := groups[0], groups[1], groups[2], groups[3];
    assert groups == [g0, g1, g2, g3];
    JoinFour(g0, g1, g2, g3, ".");
  }

  /** A version token's four groups, at the positions the matcher visits. */
  lemma TokenGroups(s: string, p: nat, q: nat) returns (q1: nat, q2: nat, q3: nat)
    requires p <= q <= |s| && IsVersionToken(s[p..q])
    ensures p + 2 < q1 < q2 < q3 < q
    ensures s[p] == '[' && s[p + 1] == 'v' && s[q - 1] == ']'
    ensures s[q1 - 1] == '.' && s[q2 - 1] == '.' && s[q3 - 1] == '.'
    ensures IsVersionGroup(s[p + 2..q1 - 1]) && IsVersionGroup(s[q1..q2 - 1])
    ensures IsVersionGroup(s[q2..q3 - 1]) && IsVersionGroup(s[q3..q - 1])
  {
    TokenAt(s, p, q);
    var g0, g1, g2, g3 := DottedParts(s[p + 2..q - 1]);
    SliceParts(s, p + 2, q - 1, g0, '.', g1 + "." + (g2 + "." + g3));
    q1 := p + 2 + |g0| + 1;
    SliceParts(s, q1, q - 1, g1, '.', g2 + "." + g3);
    q2 := q1 + |g1| + 1;
    SliceParts(s, q2, q - 1, g2, '.', g3);
    q3 := q2 + |g2| + 1;
    assert s[p + 2..q1 - 1] == g0 && s[q1..q2 - 1] == g1;
    assert s[q2..q3 - 1] == g2 && s[q3..q - 1] == g3;
  }

  /** The four groups read in place rather than as slices. */
  lemma GroupsInPlace(s: string, p: nat, q1: nat, q2: nat, q3: nat, q: nat)
    requires p + 2 < q1 < q2 < q3 < q <= |s|
    requires IsVersionGroup(s[p + 2..q1 - 1]) && IsVersionGroup(s[q1..q2 - 1])
    requires IsVersionGroup(s[q2..q3 - 1]) && IsVersionGroup(s[q3..q - 1])
    ensures GroupAt(s, p + 2, q1 - 1) && GroupAt(s, q1, q2 - 1)
    ensures GroupAt(s, q2, q3 - 1) && GroupAt(s, q3, q - 1)
  {
    GroupAtSlice(s, p + 2, q1 - 1);
    GroupAtSlice(s, q1, q2 - 1);
    GroupAtSlice(s, q2, q3 - 1);
    GroupAtSlice(s, q3, q - 1);
  }

  /** The matcher follows four groups laid out at the given positions. */
  lemma MatchFromPositions(s: string, p: nat, q1: nat, q2: nat, q3: nat, q: nat)
    requires p + 2 < q1 < q2 < q3 < q <= |s|
    requires s[p] == '[' && s[p + 1] == 'v' && s[q - 1] == ']'
    requires s[q1 - 1] == '.' && s[q2 - 1] == '.' && s[q3 - 1] == '.'
    requires GroupAt(s, p + 2, q1 - 1) && GroupAt(s, q1, q2 - 1)
    requires GroupAt(s, q2, q3 - 1) && GroupAt(s, q3, q - 1)
    ensures MatchVersionAt(s, p) == Some(q)
  {
    MatchGroupOf(s, p + 2, q1 - 1, '.');
    MatchGroupOf(s, q1, q2 - 1, '.');
    MatchGroupOf(s, q2, q3 - 1, '.');
    MatchGroupOf(s, q3, q - 1, ']');
    MatchFromGroups(s, p, q1, q2, q3, q);
  }

  /** The matcher follows four group matches chained end to start. */
  lemma MatchFromGroups(s: string, p: nat, q1: nat, q2: nat, q3: nat, q: nat)
    requires p + 2 <= |s| && s[p] == '[' && s[p + 1] == 'v' && q1 <= |s| && q2 <= |s| && q3 <= |s|
    requires MatchGroup(s, p + 2, '.') == Some(q1) && MatchGroup(s, q1, '.') == Some(q2)
    requires MatchGroup(s, q2, '.') == Some(q3) && MatchGroup(s, q3, ']') == Some(q)
    ensures MatchVersionAt(s, p) == Some(q)
  {
  }

  /** Every version token is found by the matcher, with the right end. */
  lemma MatchVersionComplete(s: string, p: nat, q: nat)
    requires p <= q <= |s| && IsVersionToken(s[p..q])
    ensures MatchVersionAt(s, p) == Some(q)
  {
    var q1, q2, q3 := TokenGroups(s, p, q);
    GroupsInPlace(s, p, q1, q2, q3, q);
    MatchFromPositions(s, p, q1, q2, q3, q);
  }

  /** The leftmost start at or after `from` where the pattern matches, and the
      end of that match: what `Regex::find` reports. */
  function FindVersion(s: string, from: nat): (r: Option<(nat, nat)>)
    requires from <= |s|
    ensures r.Some? ==> from <= r.value.0 <= |s| && MatchVersionAt(s, r.value.0) == Some(r.value.1)
    ensures r.Some? ==> forall p :: from <= p < r.value.0 ==> MatchVersionAt(s, p).None?
    ensures r.None? ==> forall p :: from <= p <= |s| ==> MatchVersionAt(s, p).None?
    decreases |s| - from
  {
    var m := MatchVersionAt(s, from);
    if m.Some? then Some((from, m.value))
    else if from == |s| then None
    else FindVersion(s, from + 1)
  }

  /** `replace_all` of `(\[)|(\])` with the empty string: every bracket removed. */
  function StripBrackets(s: string): (r: string)
    ensures '[' !in r && ']' !in r
    ensures forall d :: d != '[' && d != ']' ==> (d in r <==> d in s)
  {
    var withoutOpen := ReplaceChar(s, '[', "");
    var stripped := ReplaceChar(withoutOpen, ']', "");
    ReplaceRemovesAll(s, '[', "");
    ReplaceKeepsOthers(withoutOpen, ']', "", '[');
    ReplaceRemovesAll(withoutOpen, ']', "");
    assert forall d :: d != '[' && d != ']' ==> (d in stripped <==> d in s) by {
      forall d | d != '[' && d != ']' ensures d in stripped <==> d in s {
        ReplaceKeepsOthers(s, '[', "", d);
        ReplaceKeepsOthers(withoutOpen, ']', "", d);
      }
    }
    stripped
  }

  lemma StripVersionToken(t: string)
    requires IsVersionToken(t)
    ensures StripBrackets(t) == t[1..|t| - 1]
  {
    var inner := t[1..|t| - 1];
    var groups := Split(t[2..|t| - 1], '.');
    SplitJoin(t[2..|t| - 1], '.');
    assert inner == "v" + JoinWith(groups, ".");
    DigitGroupsHaveNoBrackets(groups);
    assert t == "[" + inner + "]";
    ReplaceConcat("[" + inner, "]", '[', "");
    ReplaceConcat("[", inner, '[', "");
    ReplaceWithoutOccurrence(inner, '[', "");
    ReplaceWithoutOccurrence("]", '[', "");
    assert ReplaceChar(t, '[', "") == inner + "]";
    ReplaceConcat(inner, "]", ']', "");
    ReplaceWithoutOccurrence(inner, ']', "");
  }

  lemma {:induction false} DigitGroupsHaveNoBrackets(groups: seq<string>)
    requires forall k :: 0 <= k < |groups| ==> AllDigits(groups[k])
    ensures '[' !in JoinWith(groups, ".") && ']' !in JoinWith(groups, ".")
    decreases |groups|
  {
    if |groups| > 1 {
      DigitGroupsHaveNoBrackets(groups[1..]);
    }
    if |groups| >= 1 {
      assert !IsDigit('[') && !IsDigit(']');
    }
  }

  datatype VersionError = VersionNotFound

  /** `get_version` on the reply to `info`: the leftmost version token with its
      brackets stripped, or an error when there is none. */
  function GetVersion(info: string): (r: Result<string, VersionError>)
    ensures r.Ok? ==> '[' !in r.value && ']' !in r.value
  {
    match FindVersion(info, 0)
    case None => Err(VersionNotFound)
    case Some((p, q)) => Ok(StripBrackets(info[p..q]))
  }

  /** `[p..q)` is a version token of `info` and none starts further left. */
  ghost predicate LeftmostVersion(info: string, p: int, q: int) {
    && 0 <= p <= q <= |info| && IsVersionToken(info[p..q])
    && forall p', q' :: 0 <= p' < p && p' <= q' <= |info| ==> !IsVersionToken(info[p'..q'])
  }

  /** Where the matcher finds nothing, no version token starts. */
  lemma NoTokenWhereNoMatch(info: string, from: nat, to: nat)
    requires from <= to <= |info| + 1
    requires forall p :: from <= p < to ==> MatchVersionAt(info, p).None?
    ensures forall p, q :: from <= p < to && p <= q <= |info| ==> !IsVersionToken(info[p..q])
  {
    forall p, q | from <= p < to && p <= q <= |info| ensures !IsVersionToken(info[p..q]) {
      if IsVersionToken(info[p..q]) {
        MatchVersionComplete(info, p, q);
      }
    }
  }

  /** `get_version` fails exactly when no version token occurs in the text. */
  lemma GetVersionFails(info: string)
    ensures GetVersion(info).Err? <==> forall p, q :: 0 <= p <= q <= |info| ==> !IsVersionToken(info[p..q])
  {
    if GetVersion(info).Err? {
      NoTokenWhereNoMatch(info, 0, |info| + 1);
    } else {
      var (p, q) := FindVersion(info, 0).value;
      MatchVersionSound(info, p);
    }
  }

  /** The inside of a token found in a text, with its brackets stripped. */
  lemma StripFound(info: string, p: nat, q: nat)
    requires p <= q <= |info| && IsVersionToken(info[p..q])
    ensures StripBrackets(info[p..q]) == info[p + 1..q - 1]
  {
    StripVersionToken(info[p..q]);
    var t := info[p..q];
    assert t[1..] == info[p + 1..q];
    assert t[1..|t| - 1] == t[1..][..|t| - 2];
    assert info[p + 1..q][..q - p - 2] == info[p + 1..q - 1];
  }

  /** A successful `get_version` returns the inside of the leftmost version token. */
  lemma GetVersionLeftmost(info: string)
    requires GetVersion(info).Ok?
    ensures exists p, q :: LeftmostVersion(info, p, q) && GetVersion(info).value == info[p + 1..q - 1]
  {
    var (p, q) := FindVersion(info, 0).value;
    MatchVersionSound(info, p);
    NoTokenWhereNoMatch(info, 0, p);
    StripFound(info, p, q);
    assert LeftmostVersion(info, p, q);
  }

  /** `find` reports the first match when nothing matches before it. */
  lemma {:induction false} FindFirst(s: string, from: nat, p: nat)
    requires from <= p <= |s| && MatchVersionAt(s, p).Some?
    requires forall p' :: from <= p' < p ==> MatchVersionAt(s, p').None?
    ensures FindVersion(s, from) == Some((p, MatchVersionAt(s, p).value))
    decreases p - from
  {
    if from < p {
      assert MatchVersionAt(s, from).None?;
      FindFirst(s, from + 1, p);
      assert FindVersion(s, from) == FindVersion(s, from + 1);
    }
  }

  /** A reply whose text before the first version token holds no `[`: the
      token's inside is the version, whatever follows it. */
  lemma GetVersionAfterPlainText(before: string, token: string, after: string)
    requires '[' !in before && IsVersionToken(token)
    ensures GetVersion(before + token + after) == Ok(token[1..|token| - 1])
  {
    var info := before + token + after;
    PlainTextParts(before, token, after);
    assert forall k :: 0 <= k < |before| ==> info[k] != '[';
    FirstTokenAfterPlainText(info, |before|, |before| + |token|, token);
  }

  /** A version token with no `[` before it is what `get_version` returns. */
  lemma FirstTokenAfterPlainText(info: string, p: nat, q: nat, token: string)
    requires p <= q <= |info| && info[p..q] == token && IsVersionToken(token)
    requires forall k :: 0 <= k < p ==> info[k] != '['
    ensures GetVersion(info) == Ok(token[1..|token| - 1])
  {
    MatchVersionComplete(info, p, q);
    NoMatchWithoutBracket(info, p);
    FindFirst(info, 0, p);
    FoundVersion(info, p, q);
    assert info[p + 1..q - 1] == token[1..|token| - 1];
  }

  /** Where the parts of `before + token + after` lie. */
  lemma PlainTextParts(before: string, token: string, after: string)
    requires |token| >= 2
    ensures var info := before + token + after;
      && info[|before|..|before| + |token|] == token
      && forall k :: 0 <= k < |before| ==> info[k] == before[k]
  {
  }

  /** No match starts before the first `[`. */
  lemma NoMatchWithoutBracket(s: string, to: nat)
    requires to <= |s| && forall k :: 0 <= k < to ==> s[k] != '['
    ensures forall p :: 0 <= p < to ==> MatchVersionAt(s, p).None?
  {
  }

  /** The token `find` reports is the one `get_version` strips. */
  lemma FoundVersion(info: string, p: nat, q: nat)
    requires p <= q <= |info| && FindVersion(info, 0) == Some((p, q)) && IsVersionToken(info[p..q])
    ensures GetVersion(info) == Ok(info[p + 1..q - 1])
  {
    StripFound(info, p, q);
  }

  /** The banner in the source's own comment carries the token `[v0.1.3.0]`. */
  lemma BannerToken()
    ensures IsVersionToken("[v0.1.3.0]")
  {
    var groups := ["0", "1", "3", "0"];
    JoinSplit(groups, '.');
    JoinFour("0", "1", "3", "0", ".");
    assert "[v0.1.3.0]"[2..9] == JoinWith(groups, ".");
  }
}
