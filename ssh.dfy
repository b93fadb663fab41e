/**
 * The `/proc/meminfo` decoder inside `PalworldConnection::get_memory_info`:
 * the reply of the remote `cat /proc/meminfo | grep ...` is read line by
 * line into a `MemInfo`. The SSH session that produces the reply is not
 * modelled; the decoder takes the reply text as a parameter.
 */
module MemInfoDecoder {
  import opened Wrappers
  import opened Ints
  import opened Text
  import opened Mem

  /** The login of an SSH connection to the server's host. */
  datatype PalworldConnection = PalworldConnection(hostname: string, username: string, password: string)

  /** `PalworldConnection::new`: the three credentials kept as given. */
  function New(hostname: string, username: string, password: string): (c: PalworldConnection)
    ensures c.hostname == hostname && c.username == username && c.password == password
  {
    PalworldConnection(hostname, username, password)
  }

  // ---------------------------------------------------------------------
  // The pattern [0-9]{1,99} kB$
  // ---------------------------------------------------------------------

  const MAX_KB_DIGITS := 99

  predicate EndsWithKb(line: string) {
    |line| >= 3 && line[|line| - 3..] == " kB"
  }

  /** The pattern matches `line` from position `i` on: one to 99 digits, then
      ` kB` as the last three characters. */
  ghost predicate KbMatchAt(line: string, i: int) {
    && EndsWithKb(line) && 0 <= i && 1 <= |line| - 3 - i <= MAX_KB_DIGITS
    && forall k :: i <= k < |line| - 3 ==> IsDigit(line[k])
  }

  /** The number of digits ending just before position `e`. */
  function DigitsBefore(s: string, e: nat): (n: nat)
    requires e <= |s|
    ensures n <= e && forall k :: e - n <= k < e ==> IsDigit(s[k])
    ensures n < e ==> !IsDigit(s[e - n - 1])
  {
    if e > 0 && IsDigit(s[e - 1]) then 1 + DigitsBefore(s, e - 1) else 0
  }

  /** `bytes_regex.find(line)`: the leftmost start of a match. A run of more than
      99 digits before ` kB` is matched by its last 99 digits only. */
  function KbMatch(line: string): (r: Option<nat>)
    ensures r.Some? ==> KbMatchAt(line, r.value)
  {
    if !EndsWithKb(line) then None
    else
      var e := |line| - 3;
      var run := DigitsBefore(line, e);
      if run == 0 then
        None
      else
        var start := if run <= MAX_KB_DIGITS then e - run else e - MAX_KB_DIGITS;
        assert KbMatchAt(line, start);
        Some(start)
  }

  /** The start `KbMatch` reports is the leftmost one, and it reports none only
      when the pattern matches nowhere. */
  lemma KbMatchLeftmost(line: string)
    ensures KbMatch(line).Some? ==> forall j :: 0 <= j < KbMatch(line).value ==> !KbMatchAt(line, j)
    ensures KbMatch(line).None? <==> forall j :: !KbMatchAt(line, j)
  {
  }

  /** The digits of the match: the matched text `line[start..]` with its ` kB`
      removed, which is what `kb.replace(" kB", "")` leaves of it. */
  function KbDigits(line: string, start: nat): (digits: string)
    requires KbMatchAt(line, start)
    ensures 1 <= |digits| <= MAX_KB_DIGITS && AllDigits(digits)
    ensures line[start..] == digits + " kB"
  {
    var digits := line[start..|line| - 3];
    assert forall k :: 0 <= k < |digits| ==> digits[k] == line[start + k];
    digits
  }

  // ---------------------------------------------------------------------
  // str::parse::<u64>
  // ---------------------------------------------------------------------

  datatype ParseError = PosOverflow

  /** `parse::<u64>` of a digit string: the value is accumulated digit by digit
      with checked arithmetic, and fails as soon as it leaves the `u64` range. */
  function ParseU64(digits: string): (r: Result<u64, ParseError>)
    requires AllDigits(digits)
    ensures r.Ok? <==> DigitsValue(digits) < U64_LIMIT
    ensures r.Ok? ==> r.value == DigitsValue(digits)
  {
    if digits == [] then Ok(0)
    else
      var init := digits[..|digits| - 1];
      assert AllDigits(init) by {
        assert forall k :: 0 <= k < |init| ==> init[k] == digits[k];
      }
      match ParseU64(init)
      case Err(e) => Err(e)
      case Ok(acc) =>
        var v := 10 * acc + DigitValue(digits[|digits| - 1]);
        if v < U64_LIMIT then Ok(v) else Err(PosOverflow)
  }

  // ---------------------------------------------------------------------
  // One line
  // ---------------------------------------------------------------------

  /** The five counters, each named by the key the decoder looks for. */
  datatype Field = MemTotal | MemFree | MemAvailable | Buffers | Cached

  function Key(f: Field): string {
    match f
    case MemTotal => "MemTotal:"
    case MemFree => "MemFree:"
    case MemAvailable => "MemAvailable:"
    case Buffers => "Buffers:"
    case Cached => "Cached:"
  }

  const SWAP_CACHED := "SwapCached"

  /** Whether the decoder's test for `f` accepts `line`: a case-sensitive
      containment test of the key anywhere in the line, and for `Cached:` also
      the absence of `SwapCached`. */
  predicate KeyMatches(line: string, f: Field) {
    Contains(line, Key(f)) && (f == Cached ==> !Contains(line, SWAP_CACHED))
  }

  function Get(m: MemInfo, f: Field): u64 {
    match f
    case MemTotal => m.memTotal
    case MemFree => m.memFree
    case MemAvailable => m.memAvailable
    case Buffers => m.buffers
    case Cached => m.cached
  }

  /** One field assigned, every other field kept. */
  function Set(m: MemInfo, f: Field, v: u64): (r: MemInfo)
    ensures Get(r, f) == v
    ensures forall g :: g != f ==> Get(r, g) == Get(m, g)
  {
    match f
    case MemTotal => m.(memTotal := v)
    case MemFree => m.(memFree := v)
    case MemAvailable => m.(memAvailable := v)
    case Buffers => m.(buffers := v)
    case Cached => m.(cached := v)
  }

  /** The parsed number a line carries, when it matches the pattern. */
  function LineValue(line: string): Option<Result<u64, ParseError>> {
    match KbMatch(line)
    case None => None
    case Some(start) => Some(ParseU64(KbDigits(line, start)))
  }

  /** The line assigns `f`: it matches the pattern, its number parses and its key test holds. */
  predicate Sets(line: string, f: Field) {
    LineValue(line).Some? && LineValue(line).value.Ok? && KeyMatches(line, f)
  }

  /** The line aborts the decoding: it matches, some key test holds and its number overflows. */
  predicate Overflows(line: string) {
    LineValue(line).Some? && LineValue(line).value.Err? && exists f :: KeyMatches(line, f)
  }

  /** One `if line.contains(key) { field = value? }` of the loop body. */
  function Assign(acc: Result<MemInfo, ParseError>, line: string, f: Field, value: Result<u64, ParseError>)
    : Result<MemInfo, ParseError>
  {
    match acc
    case Err(_) => acc
    case Ok(m) =>
      if !KeyMatches(line, f) then acc
      else match value
        case Err(e) => Err(e)
        case Ok(v) => Ok(Set(m, f, v))
  }

  /** The five key tests of the loop body, in the source's order, on a line's value. */
  function KeyTests(m: MemInfo, line: string, value: Result<u64, ParseError>): Result<MemInfo, ParseError> {
    var r1 := Assign(Ok(m), line, MemTotal, value);
    var r2 := Assign(r1, line, MemFree, value);
    var r3 := Assign(r2, line, MemAvailable, value);
    var r4 := Assign(r3, line, Buffers, value);
    Assign(r4, line, Cached, value)
  }

  /** With a number that parses, the tests assign it to exactly the fields whose
      key test holds, independently of each other. */
  lemma KeyTestsOk(m: MemInfo, line: string, v: u64)
    ensures KeyTests(m, line, Ok(v)).Ok?
    ensures forall f :: Get(KeyTests(m, line, Ok(v)).value, f) == if KeyMatches(line, f) then v else Get(m, f)
  {
  }

  /** With a number that overflows, the tests fail exactly when one of them holds. */
  lemma KeyTestsErr(m: MemInfo, line: string, e: ParseError)
    ensures KeyTests(m, line, Err(e)).Err? <==> exists f :: KeyMatches(line, f)
    ensures KeyTests(m, line, Err(e)).Ok? ==> KeyTests(m, line, Err(e)).value == m
  {
    if exists f :: KeyMatches(line, f) {
      var f :| KeyMatches(line, f);
      assert f in {MemTotal, MemFree, MemAvailable, Buffers, Cached};
    }
  }

  /** The loop body on one line: skipped unless it matches the pattern, then
      the five key tests. */
  function ApplyLine(m: MemInfo, line: string): Result<MemInfo, ParseError> {
    match KbMatch(line)
    case None => Ok(m)
    case Some(start) => KeyTests(m, line, ParseU64(KbDigits(line, start)))
  }

  /** A line fails exactly when it overflows; otherwise each field takes the
      line's number if the line sets it and keeps its value if not. */
  lemma ApplyLineSpec(m: MemInfo, line: string)
    ensures ApplyLine(m, line).Err? <==> Overflows(line)
    ensures ApplyLine(m, line).Ok? ==> forall f ::
      Get(ApplyLine(m, line).value, f) == if Sets(line, f) then LineValue(line).value.value else Get(m, f)
  {
    match KbMatch(line)
    case None =>
    case Some(start) =>
      var value := ParseU64(KbDigits(line, start));
      if value.Ok? {
        KeyTestsOk(m, line, value.value);
      } else {
        KeyTestsErr(m, line, value.error);
      }
  }

  // ---------------------------------------------------------------------
  // All lines
  // ---------------------------------------------------------------------

  /** The decoding of a sequence of lines, one line after another from the
      default report; the first overflow ends it with an error. */
  function DecodeLines(lines: seq<string>): Result<MemInfo, ParseError>
    decreases |lines|
  {
    if lines == [] then Ok(DEFAULT_MEM_INFO)
    else match DecodeLines(lines[..|lines| - 1])
      case Err(e) => Err(e)
      case Ok(m) => ApplyLine(m, lines[|lines| - 1])
  }

  /** The decoder on the command's whole output, split at `\n`. */
  function DecodeMemInfo(output: string): Result<MemInfo, ParseError> {
    DecodeLines(Split(output, '\n'))
  }

  /** The `get_memory_info` loop: one pass over the lines, each field assigned
      in place, the first overflow returned as the error. */
  method GetMemoryInfo(output: string) returns (r: Result<MemInfo, ParseError>)
    ensures r == DecodeMemInfo(output)
  {
    var lines := Split(output, '\n');
    var memInfo := DEFAULT_MEM_INFO;
    var i := 0;
    while i < |lines|
      invariant 0 <= i <= |lines|
      invariant DecodeLines(lines[..i]) == Ok(memInfo)
    {
      var line := lines[i];
      var found := KbMatch(line);
      if found.None? {
        LineSkipped(lines, i, memInfo);
        i := i + 1;
        continue;
      }
      var kb := KbDigits(line, found.value);
      var value := ParseU64(kb);
      ghost var before := memInfo;
      if KeyMatches(line, MemTotal) {
        if value.Err? {
          LineAborts(lines, i, before, found.value, MemTotal);
          ErrorPersists(output, i + 1, value.error);
          return Err(value.error);
        }
        memInfo := memInfo.(memTotal := value.value);
      }
      if KeyMatches(line, MemFree) {
        if value.Err? {
          LineAborts(lines, i, before, found.value, MemFree);
          ErrorPersists(output, i + 1, value.error);
          return Err(value.error);
        }
        memInfo := memInfo.(memFree := value.value);
      }
      if KeyMatches(line, MemAvailable) {
        if value.Err? {
          LineAborts(lines, i, before, found.value, MemAvailable);
          ErrorPersists(output, i + 1, value.error);
          return Err(value.error);
        }
        memInfo := memInfo.(memAvailable := value.value);
      }
      if KeyMatches(line, Buffers) {
        if value.Err? {
          LineAborts(lines, i, before, found.value, Buffers);
          ErrorPersists(output, i + 1, value.error);
          return Err(value.error);
        }
        memInfo := memInfo.(buffers := value.value);
      }
      if KeyMatches(line, Cached) {
        if value.Err? {
          LineAborts(lines, i, before, found.value, Cached);
          ErrorPersists(output, i + 1, value.error);
          return Err(value.error);
        }
        memInfo := memInfo.(cached := value.value);
      }
      LineApplied(lines, i, before, found.value, memInfo);
      i := i + 1;
    }
    AllLinesDecoded(output, i, memInfo);
    r := Ok(memInfo);
  }

  /** Decoding one more line applies the loop body to it. */
  lemma DecodeStep(lines: seq<string>, i: nat)
    requires i < |lines|
    ensures DecodeLines(lines[..i + 1]) == match DecodeLines(lines[..i])
      case Err(e) => Err(e)
      case Ok(m) => ApplyLine(m, lines[i])
  {
    assert lines[..i + 1][..i] == lines[..i];
  }

  /** A line the pattern does not match leaves the decoding where it was. */
  lemma LineSkipped(lines: seq<string>, i: nat, m: MemInfo)
    requires i < |lines| && DecodeLines(lines[..i]) == Ok(m) && KbMatch(lines[i]).None?
    ensures DecodeLines(lines[..i + 1]) == Ok(m)
  {
    DecodeStep(lines, i);
  }

  /** A matched line whose number overflows and that passes a key test makes
      the decoding fail with the parse error. */
  lemma LineAborts(lines: seq<string>, i: nat, m: MemInfo, start: nat, f: Field)
    requires i < |lines| && DecodeLines(lines[..i]) == Ok(m) && KbMatch(lines[i]) == Some(start)
    requires ParseU64(KbDigits(lines[i], start)).Err? && KeyMatches(lines[i], f)
    ensures DecodeLines(lines[..i + 1]) == Err(ParseU64(KbDigits(lines[i], start)).error)
  {
    DecodeStep(lines, i);
    OverflowingLine(m, lines[i], start, f);
  }

  /** Once the first `n` lines of the output have failed with `e`, the whole
      decoding has. */
  lemma ErrorPersists(output: string, n: nat, e: ParseError)
    requires n <= |Split(output, '\n')| && DecodeLines(Split(output, '\n')[..n]) == Err(e)
    ensures DecodeMemInfo(output) == Err(e)
  {
    FailurePersists(Split(output, '\n'), n);
  }

  /** Decoding every line of the output is the decoding of the output. */
  lemma AllLinesDecoded(output: string, n: nat, m: MemInfo)
    requires n == |Split(output, '\n')| && DecodeLines(Split(output, '\n')[..n]) == Ok(m)
    ensures DecodeMemInfo(output) == Ok(m)
  {
    assert Split(output, '\n')[..n] == Split(output, '\n');
  }

  /** A matched line whose number overflows and that passes a key test fails. */
  lemma OverflowingLine(m: MemInfo, line: string, start: nat, f: Field)
    requires KbMatch(line) == Some(start)
    requires ParseU64(KbDigits(line, start)).Err? && KeyMatches(line, f)
    ensures ApplyLine(m, line) == Err(ParseU64(KbDigits(line, start)).error)
  {
    var value := ParseU64(KbDigits(line, start));
    KeyTestsErr(m, line, value.error);
    assert value == Err(value.error);
  }

  /** Field `f` of `m'` is the line's number if the line passes `f`'s key test,
      and field `f` of `m` if not. */
  predicate FieldUpdated(m: MemInfo, m': MemInfo, line: string, value: Result<u64, ParseError>, f: Field) {
    if KeyMatches(line, f) then value.Ok? && Get(m', f) == value.value else Get(m', f) == Get(m, f)
  }

  /** A matched line whose number parses, or that passes no key test, moves the
      decoding to the report in which exactly the fields it passes take the number. */
  lemma LineApplied(lines: seq<string>, i: nat, m: MemInfo, start: nat, m': MemInfo)
    requires i < |lines| && DecodeLines(lines[..i]) == Ok(m) && KbMatch(lines[i]) == Some(start)
    requires var line, value := lines[i], ParseU64(KbDigits(lines[i], start));
      && FieldUpdated(m, m', line, value, MemTotal) && FieldUpdated(m, m', line, value, MemFree)
      && FieldUpdated(m, m', line, value, MemAvailable) && FieldUpdated(m, m', line, value, Buffers)
      && FieldUpdated(m, m', line, value, Cached)
    ensures DecodeLines(lines[..i + 1]) == Ok(m')
  {
    var line := lines[i];
    var value := ParseU64(KbDigits(line, start));
    DecodeStep(lines, i);
    assert DecodeLines(lines[..i + 1]) == KeyTests(m, line, value);
    if value.Ok? {
      KeyTestsOk(m, line, value.value);
      assert value == Ok(value.value);
      SameFields(KeyTests(m, line, value).value, m');
    } else {
      KeyTestsErr(m, line, value.error);
      assert value == Err(value.error);
      assert forall f :: !KeyMatches(line, f) by {
        forall f ensures !KeyMatches(line, f) {
          assert FieldUpdated(m, m', line, value, f) by {
            match f
            case MemTotal => case MemFree => case MemAvailable => case Buffers => case Cached =>
          }
        }
      }
      SameFields(m, m');
    }
  }

  /** Two reports that agree on every field are the same report. */
  lemma SameFields(a: MemInfo, b: MemInfo)
    requires forall f :: Get(a, f) == Get(b, f)
    ensures a == b
  {
    assert Get(a, MemTotal) == Get(b, MemTotal) && Get(a, MemFree) == Get(b, MemFree);
    assert Get(a, MemAvailable) == Get(b, MemAvailable) && Get(a, Buffers) == Get(b, Buffers);
    assert Get(a, Cached) == Get(b, Cached);
  }

  /** Once a prefix of the lines fails, the whole decoding fails the same way. */
  lemma {:induction false} FailurePersists(lines: seq<string>, n: nat)
    requires n <= |lines| && DecodeLines(lines[..n]).Err?
    ensures DecodeLines(lines) == DecodeLines(lines[..n])
    decreases |lines| - n
  {
    if n < |lines| {
      assert lines[..n + 1][..n] == lines[..n];
      FailurePersists(lines, n + 1);
    } else {
      assert lines[..n] == lines;
    }
  }

  // ---------------------------------------------------------------------
  // What the decoding yields, line by line
  // ---------------------------------------------------------------------

  /** A field's value by its own history: the number on the last line that sets
      it, 0 when no line does. */
  ghost function FieldValue(lines: seq<string>, f: Field): u64
    decreases |lines|
  {
    if lines == [] then 0
    else
      var last := lines[|lines| - 1];
      if Sets(last, f) then LineValue(last).value.value else FieldValue(lines[..|lines| - 1], f)
  }

  /** Some line aborts the decoding. */
  ghost predicate SomeLineOverflows(lines: seq<string>) {
    exists i :: 0 <= i < |lines| && Overflows(lines[i])
  }

  /** The decoding fails exactly when some line overflows. */
  lemma {:induction false} DecodeFailsIff(lines: seq<string>)
    ensures DecodeLines(lines).Err? <==> SomeLineOverflows(lines)
    decreases |lines|
  {
    if lines != [] {
      var init := lines[..|lines| - 1];
      DecodeFailsIff(init);
      OverflowsSplit(lines);
      if DecodeLines(init).Ok? {
        ApplyLineSpec(DecodeLines(init).value, lines[|lines| - 1]);
      }
      assert DecodeLines(lines).Err? <==> DecodeLines(init).Err? || Overflows(lines[|lines| - 1]);
    }
  }

  lemma OverflowsSplit(lines: seq<string>)
    requires lines != []
    ensures SomeLineOverflows(lines)
        <==> SomeLineOverflows(lines[..|lines| - 1]) || Overflows(lines[|lines| - 1])
  {
    var init, last := lines[..|lines| - 1], lines[|lines| - 1];
    assert lines == init + [last];
    SomeLineSplit(init, last, Overflows);
  }

  /** Some line has a property exactly when an earlier line or the last one has it. */
  lemma SomeLineSplit(init: seq<string>, last: string, P: string -> bool)
    ensures (exists i :: 0 <= i < |init| + 1 && P((init + [last])[i]))
        <==> (exists i :: 0 <= i < |init| && P(init[i])) || P(last)
  {
    var lines := init + [last];
    if exists i :: 0 <= i < |lines| && P(lines[i]) {
      var i :| 0 <= i < |lines| && P(lines[i]);
      if i < |init| {
        assert P(init[i]);
      }
    }
    if exists i :: 0 <= i < |init| && P(init[i]) {
      var i :| 0 <= i < |init| && P(init[i]);
      assert P(lines[i]);
    }
    assert P(lines[|init|]) == P(last);
  }

  /** A successful decoding holds in every field its own last setting,
      independently of the other fields. */
  lemma {:induction false} DecodeFields(lines: seq<string>)
    ensures DecodeLines(lines).Ok? ==> forall f :: Get(DecodeLines(lines).value, f) == FieldValue(lines, f)
    decreases |lines|
  {
    if lines != [] {
      var init := lines[..|lines| - 1];
      DecodeFields(init);
      if DecodeLines(init).Ok? {
        ApplyLineSpec(DecodeLines(init).value, lines[|lines| - 1]);
      }
    }
  }

  /** A field is the number on the last line that sets it. */
  lemma {:induction false} LastSettingWins(lines: seq<string>, f: Field, i: nat)
    requires i < |lines| && Sets(lines[i], f)
    requires forall j :: i < j < |lines| ==> !Sets(lines[j], f)
    ensures FieldValue(lines, f) == LineValue(lines[i]).value.value
    decreases |lines|
  {
    if i < |lines| - 1 {
      var init := lines[..|lines| - 1];
      assert init[i] == lines[i];
      forall j | i < j < |init| ensures !Sets(init[j], f) {
        assert init[j] == lines[j];
      }
      LastSettingWins(init, f, i);
    }
  }

  /** A field no line sets keeps its default 0: a missing key is not an error. */
  lemma {:induction false} UnsetFieldIsZero(lines: seq<string>, f: Field)
    requires forall j :: 0 <= j < |lines| ==> !Sets(lines[j], f)
    ensures FieldValue(lines, f) == 0
    decreases |lines|
  {
    if lines != [] {
      UnsetFieldIsZero(lines[..|lines| - 1], f);
    }
  }

  /** A line the pattern does not match changes nothing. */
  lemma UnmatchedLineIgnored(lines: seq<string>, line: string)
    requires KbMatch(line).None?
    ensures DecodeLines(lines + [line]) == DecodeLines(lines)
  {
    assert (lines + [line])[..|lines|] == lines;
  }

  /** A `SwapCached` line never sets `cached`, although it contains `Cached:`. */
  lemma SwapCachedNeverSetsCached(m: MemInfo, line: string)
    requires Contains(line, SWAP_CACHED)
    ensures ApplyLine(m, line).Ok? ==> ApplyLine(m, line).value.cached == m.cached
  {
    ApplyLineSpec(m, line);
    assert !Sets(line, Cached);
    assert Get(m, Cached) == m.cached;
  }

  /** The key is looked for anywhere in the line, not only at its start. */
  lemma KeyAnywhere(before: string, f: Field, after: string)
    requires f != Cached
    ensures KeyMatches(before + Key(f) + after, f)
  {
    var line := before + Key(f) + after;
    assert line[|before|..|before| + |Key(f)|] == Key(f);
    assert OccursAt(line, Key(f), |before|);
  }

  /** The test is case-sensitive: a line without a capital `M`, such as one
      spelling `memtotal:`, sets none of the three `Mem` fields. */
  lemma MemKeysNeedCapitalM(line: string)
    requires 'M' !in line
    ensures !KeyMatches(line, MemTotal) && !KeyMatches(line, MemFree) && !KeyMatches(line, MemAvailable)
  {
    MissingFirstCharNotContained(line, Key(MemTotal));
    MissingFirstCharNotContained(line, Key(MemFree));
    MissingFirstCharNotContained(line, Key(MemAvailable));
  }

  /** One line can set several fields: every key test it passes takes its number. */
  lemma OneLineSeveralFields(m: MemInfo, line: string, f: Field, g: Field)
    requires Sets(line, f) && Sets(line, g)
    ensures ApplyLine(m, line).Ok?
    ensures Get(ApplyLine(m, line).value, f) == Get(ApplyLine(m, line).value, g)
  {
    ApplyLineSpec(m, line);
  }

  /** A run of 99 or more digits before ` kB` is read as its last 99 digits:
      the leading ones are silently dropped. */
  lemma LongRunTruncated(prefix: string, digits: string)
    requires |digits| >= MAX_KB_DIGITS && AllDigits(digits)
    ensures var line := prefix + digits + " kB";
      KbMatch(line) == Some(|prefix| + |digits| - MAX_KB_DIGITS)
      && KbDigits(line, |prefix| + |digits| - MAX_KB_DIGITS) == digits[|digits| - MAX_KB_DIGITS..]
  {
    var line := prefix + digits + " kB";
    KbLineShape(prefix, digits);
    LongRunIn(line, |prefix|, digits);
    LongRunMatch(line);
  }

  /** A run of 99 or more digits at `a` in `line` ends in a trailing run of at least
      99 digits, whose last 99 are the run's last 99. */
  lemma LongRunIn(line: string, a: nat, digits: string)
    requires |digits| >= MAX_KB_DIGITS && AllDigits(digits)
    requires a + |digits| <= |line| && line[a..a + |digits|] == digits
    ensures DigitsBefore(line, a + |digits|) >= MAX_KB_DIGITS
    ensures line[a + |digits| - MAX_KB_DIGITS..a + |digits|] == digits[|digits| - MAX_KB_DIGITS..]
  {
    var e := a + |digits|;
    forall k | e - MAX_KB_DIGITS <= k < e ensures IsDigit(line[k]) {
      assert line[k] == digits[k - a];
    }
    DigitsBeforeAtLeast(line, e, MAX_KB_DIGITS);
    assert line[e - MAX_KB_DIGITS..e] == line[a..e][|digits| - MAX_KB_DIGITS..];
  }

  /** With 99 or more digits before the final ` kB`, the match starts 99 digits
      before it and holds exactly those digits. */
  lemma LongRunMatch(line: string)
    requires EndsWithKb(line) && DigitsBefore(line, |line| - 3) >= MAX_KB_DIGITS
    ensures KbMatch(line) == Some(|line| - 3 - MAX_KB_DIGITS)
    ensures KbDigits(line, |line| - 3 - MAX_KB_DIGITS) == line[|line| - 3 - MAX_KB_DIGITS..|line| - 3]
  {
    var e := |line| - 3;
    var run := DigitsBefore(line, e);
    assert (if run <= MAX_KB_DIGITS then e - run else e - MAX_KB_DIGITS) == e - MAX_KB_DIGITS;
  }

  /** Where the parts of `prefix + digits + " kB"` lie. */
  lemma KbLineShape(prefix: string, digits: string)
    ensures var line := prefix + digits + " kB";
      && EndsWithKb(line) && |line| == |prefix| + |digits| + 3
      && line[|prefix|..|prefix| + |digits|] == digits
  {
    var line := prefix + digits + " kB";
    assert line[|line| - 3..] == " kB";
  }

  /** `n` digits just before `e` make a trailing run of at least `n`. */
  lemma {:induction false} DigitsBeforeAtLeast(s: string, e: nat, n: nat)
    requires n <= e <= |s|
    requires forall k :: e - n <= k < e ==> IsDigit(s[k])
    ensures DigitsBefore(s, e) >= n
  {
    if n > 0 {
      DigitsBeforeAtLeast(s, e - 1, n - 1);
    }
  }

  /** A number of `2^64` or more on a line with a key aborts the whole decoding,
      whatever the other lines hold. */
  lemma OverflowAborts(lines: seq<string>, i: nat)
    requires i < |lines| && Overflows(lines[i])
    ensures DecodeLines(lines).Err?
  {
    DecodeFailsIff(lines);
  }
}
