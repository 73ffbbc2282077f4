/** The client's logger (client/src/logger.ts): a level filter, suppression of a message repeated
    within a second, and the routing of server log lines to levels. The clock and the formatted
    time of day are parameters; the output channel is the list of lines written to it. */
module Logger {
  import opened Wrappers
  import opened Text
  import opened Regex

  datatype Level = Trace | Debug | Info | Warn | Error

  /** The numeric value of the `LogLevel` enum. */
  function Rank(l: Level): nat {
    match l
    case Trace => 0
    case Debug => 1
    case Info => 2
    case Warn => 3
    case Error => 4
  }

  /** `LogLevel[l]`. */
  function LevelName(l: Level): string {
    match l
    case Trace => "TRACE"
    case Debug => "DEBUG"
    case Info => "INFO"
    case Warn => "WARN"
    case Error => "ERROR"
  }

  /** The `switch (level.toUpperCase())` of `setLogLevel` and `getLogLevelFromString`: a level
      name in any letter case selects that level, anything else selects INFO. Upper-casing is
      ASCII here. The non-ASCII characters JavaScript upper-cases to ASCII alone are U+0131 and
      U+017F (to `I` and `S`), U+00DF (to `SS`) and the ligatures U+FB00 to U+FB06 (to `FF`, `FI`,
      `FL`, `FFI`, `FFL`, `ST`, `ST`). No level name holds `S`, `SS`, `FF`, `FI`, `FL` or `ST`, so
      with them a string can only spell `INFO`, through U+0131, which is the default anyway. */
  function LevelFromString(s: string): (l: Level)
    ensures forall k: Level :: UpperStr(s) == LevelName(k) ==> l == k
    ensures l != Info ==> UpperStr(s) == LevelName(l)
  {
    var u := UpperStr(s);
    if u == "TRACE" then Trace
    else if u == "DEBUG" then Debug
    else if u == "INFO" then Info
    else if u == "WARN" then Warn
    else if u == "ERROR" then Error
    else Info
  }

  /** Every level name maps back to its level, whatever its letter case. */
  lemma LevelNameRoundTrip(l: Level, s: string)
    requires UpperStr(s) == LevelName(l)
    ensures LevelFromString(s) == l
    ensures LevelFromString(LevelName(l)) == l
  {
    assert UpperStr(LevelName(l)) == LevelName(l);
  }

  /** `getLevelIndicator`: the level name padded to five characters. */
  function Indicator(l: Level): (r: string)
    ensures |r| == 5
    ensures r[..|LevelName(l)|] == LevelName(l)
    ensures forall i :: |LevelName(l)| <= i < 5 ==> r[i] == ' '
  {
    match l
    case Trace => "TRACE"
    case Debug => "DEBUG"
    case Info => "INFO "
    case Warn => "WARN "
    case Error => "ERROR"
  }

  /** The logger's fields and the lines written to its output channel. */
  datatype State = State(level: Level, lastMessage: string, duplicateCount: nat, lastTime: int, output: seq<string>)

  /** The fields as the constructor initialises them, before it applies the configured level. */
  const Initial: State := State(Info, "", 0, 0, [])

  function ChangeLine(from: Level, to: Level): string {
    "Log level changed from " + LevelName(from) + " to " + LevelName(to)
  }

  /** `setLogLevel`: the new level, and one line announcing it when it differs from the old one. */
  function SetLogLevel(st: State, s: string): (r: State)
    ensures r.level == LevelFromString(s)
    ensures r.lastMessage == st.lastMessage && r.duplicateCount == st.duplicateCount && r.lastTime == st.lastTime
    ensures r.level == st.level ==> r.output == st.output
    ensures r.level != st.level ==> r.output == st.output + [ChangeLine(st.level, r.level)]
  {
    var l := LevelFromString(s);
    State(l, st.lastMessage, st.duplicateCount, st.lastTime, if l != st.level then st.output + [ChangeLine(st.level, l)] else st.output)
  }

  /** A message equal to the last one emitted, less than 1000 ms after it. */
  predicate IsRepeat(st: State, message: string, now: int) {
    message == st.lastMessage && now - st.lastTime < 1000
  }

  /** Whether the `n`-th repetition is announced. */
  predicate Announced(n: nat) {
    n <= 5 || n % 10 == 0
  }

  function RepeatLine(n: nat): string {
    "[repeated " + NatToString(n) + " times]"
  }

  function MessageLine(time: string, level: Level, message: string): string {
    "[" + time + "] [" + Indicator(level) + "] " + message
  }

  /** `log(level, message)` at clock `now`, with `time` the formatted time of day. */
  function Log(st: State, level: Level, message: string, now: int, time: string): (r: State)
    ensures Rank(level) < Rank(st.level) ==> r == st
    ensures r.level == st.level
    ensures |st.output| <= |r.output| <= |st.output| + 1 && r.output[..|st.output|] == st.output
    ensures Rank(level) >= Rank(st.level) && IsRepeat(st, message, now) ==>
      r.duplicateCount == st.duplicateCount + 1 && r.lastMessage == st.lastMessage && r.lastTime == st.lastTime &&
      (|r.output| > |st.output| <==> Announced(r.duplicateCount)) &&
      (Announced(r.duplicateCount) ==> r.output[|st.output|] == RepeatLine(r.duplicateCount))
    ensures Rank(level) >= Rank(st.level) && !IsRepeat(st, message, now) ==>
      r.duplicateCount == 0 && r.lastMessage == message && r.lastTime == now &&
      r.output == st.output + [MessageLine(time, level, message)]
  {
    if Rank(level) < Rank(st.level) then st
    else if IsRepeat(st, message, now) then
      var n := st.duplicateCount + 1;
      st.(duplicateCount := n, output := if Announced(n) then st.output + [RepeatLine(n)] else st.output)
    else
      st.(duplicateCount := 0, lastMessage := message, lastTime := now,
          output := st.output + [MessageLine(time, level, message)])
  }

  /** The same message logged at each of the clock readings `nows`. */
  function LogEach(st: State, level: Level, message: string, nows: seq<int>, time: string): State
    decreases |nows|
  {
    if nows == [] then st else LogEach(Log(st, level, message, nows[0], time), level, message, nows[1..], time)
  }

  /** The number of announced repetitions among `d + 1` … `d + k`. */
  function AnnouncedBetween(d: nat, k: nat): nat
    decreases k
  {
    if k == 0 then 0 else AnnouncedBetween(d, k - 1) + (if Announced(d + k) then 1 else 0)
  }

  /** A burst of repeats of the last message, all within a second of it: the counter rises by one
      per repeat, the remembered message and time stay, and only announced counts are written.
      The window is measured from the last emission, not from the previous repeat. */
  lemma {:induction false} RepeatBurst(st: State, level: Level, nows: seq<int>, time: string)
    requires Rank(level) >= Rank(st.level)
    requires forall i :: 0 <= i < |nows| ==> nows[i] - st.lastTime < 1000
    ensures var r := LogEach(st, level, st.lastMessage, nows, time);
      r.duplicateCount == st.duplicateCount + |nows| && r.lastMessage == st.lastMessage &&
      r.lastTime == st.lastTime && |r.output| == |st.output| + AnnouncedBetween(st.duplicateCount, |nows|)
    decreases |nows|
  {
    if nows != [] {
      var st1 := Log(st, level, st.lastMessage, nows[0], time);
      assert IsRepeat(st, st.lastMessage, nows[0]);
      RepeatBurst(st1, level, nows[1..], time);
      AnnouncedShift(st.duplicateCount, |nows| - 1);
    }
  }

  lemma {:induction false} AnnouncedShift(d: nat, k: nat)
    ensures AnnouncedBetween(d, k + 1) == (if Announced(d + 1) then 1 else 0) + AnnouncedBetween(d + 1, k)
    decreases k
  {
    if k > 0 {
      AnnouncedShift(d, k - 1);
    }
  }

  /** The first five repeats are all announced. */
  lemma {:induction false} FirstFiveAnnounced(k: nat)
    requires k <= 5
    ensures AnnouncedBetween(0, k) == k
  {
    if k > 0 {
      FirstFiveAnnounced(k - 1);
    }
  }

  // ---------------------------------------------------------------------------------------
  // parseServerLog

  /** `[a-zA-Z0-9.]`. */
  predicate IsClassNameChar(c: char) { IsAlnum(c) || c == '.' }

  const ClassNameClass: Class := Union(Range('a', 'z'), Union(Range('A', 'Z'), Union(Range('0', '9'), Single('.'))))

  /** The spelling after which a level is announced with a colon: `Error:`, `Warning:`, … */
  function ColonWord(l: Level): string {
    match l
    case Trace => "Trace:"
    case Debug => "Debug:"
    case Info => ""
    case Warn => "Warning:"
    case Error => "Error:"
  }

  /** The message mentions level `l` in one of the three ways `parseServerLog` looks for:
      `[LEVEL]`, the colon word, or `LEVEL` followed by white space and a class name. INFO has no
      test of its own. */
  predicate Signals(msg: string, l: Level) {
    l != Info &&
      (Contains(msg, "[" + LevelName(l) + "]") || Contains(msg, ColonWord(l)) ||
       Test(Chain([Lit(LevelName(l)), Spaces1, Plus(Ch(ClassNameClass))]), false, msg))
  }

  /** The fallback level of a server line: the most severe level it signals, INFO when it signals
      none. Severity order coincides with the enum's order, with INFO placed between DEBUG and
      WARN but only ever chosen by default. */
  function ServerLogLevel(msg: string): (l: Level)
    ensures l != Info ==> Signals(msg, l) && forall k: Level :: Signals(msg, k) ==> Rank(k) <= Rank(l)
    ensures l == Info <==> forall k: Level :: !Signals(msg, k)
  {
    if Signals(msg, Error) then Error
    else if Signals(msg, Warn) then Warn
    else if Signals(msg, Debug) then Debug
    else if Signals(msg, Trace) then Trace
    else Info
  }

  /** The captures of `(\d{2}:\d{2}:\d{2}\.\d{3})\s+\[([^\]]+)\]\s+(TRACE|DEBUG|INFO|WARN|ERROR)\s+([a-zA-Z0-9.]+)\s+-\s+(.*)`
      used by the client (the time of day is not used). */
  datatype LogLine = LogLine(thread: string, level: Level, className: string, message: string)

  /** `\d{2}:\d{2}:\d{2}\.\d{3}` at `p`. */
  predicate TimeAt(s: string, p: nat) {
    p + 12 <= |s| &&
      IsDigit(s[p]) && IsDigit(s[p + 1]) && s[p + 2] == ':' &&
      IsDigit(s[p + 3]) && IsDigit(s[p + 4]) && s[p + 5] == ':' &&
      IsDigit(s[p + 6]) && IsDigit(s[p + 7]) && s[p + 8] == '.' &&
      IsDigit(s[p + 9]) && IsDigit(s[p + 10]) && IsDigit(s[p + 11])
  }

  /** The end of the run of characters other than `c`. */
  function SkipUntil(s: string, i: nat, c: char): (r: nat)
    requires i <= |s|
    ensures i <= r <= |s| && (r == |s| || s[r] == c)
    ensures forall k :: i <= k < r ==> s[k] != c
    decreases |s| - i
  {
    if i < |s| && s[i] != c then SkipUntil(s, i + 1, c) else i
  }

  /** The end of the run of `[a-zA-Z0-9.]`. */
  function SkipClassName(s: string, i: nat): (r: nat)
    requires i <= |s|
    ensures i <= r <= |s| && (r == |s| || !IsClassNameChar(s[r]))
    ensures forall k :: i <= k < r ==> IsClassNameChar(s[k])
    decreases |s| - i
  {
    if i < |s| && IsClassNameChar(s[i]) then SkipClassName(s, i + 1) else i
  }

  /** The end of `.*`: the next line terminator or the end. */
  function LineEnd(s: string, i: nat): (r: nat)
    requires i <= |s|
    ensures i <= r <= |s| && (r == |s| || IsLineTerminator(s[r]))
    ensures forall k :: i <= k < r ==> !IsLineTerminator(s[k])
    decreases |s| - i
  {
    if i < |s| && !IsLineTerminator(s[i]) then LineEnd(s, i + 1) else i
  }

  /** `TRACE|DEBUG|INFO|WARN|ERROR` at `i`; no name is a prefix of another, so at most one
      applies. */
  function LevelWordAt(s: string, i: nat): (r: Option<Level>)
    ensures r.Some? ==> StartsAt(s, i, LevelName(r.value))
    ensures r.None? ==> forall l: Level :: !StartsAt(s, i, LevelName(l))
  {
    if StartsAt(s, i, "TRACE") then Some(Trace)
    else if StartsAt(s, i, "DEBUG") then Some(Debug)
    else if StartsAt(s, i, "INFO") then Some(Info)
    else if StartsAt(s, i, "WARN") then Some(Warn)
    else if StartsAt(s, i, "ERROR") then Some(Error)
    else None
  }

  /** `(\d{2}:\d{2}:\d{2}\.\d{3})\s+\[([^\]]+)\]\s+` at `p`: the thread and where the level
      word must start. Each `\s+` is followed by a character that is not white space and the
      bracketed run stops at the first `]`, so there is at most one way to match. */
  function HeadAt(s: string, p: nat): (r: Option<(string, nat)>)
    requires p <= |s|
    ensures r.Some? ==> TimeAt(s, p) && r.value.1 <= |s|
    ensures r.Some? ==> |r.value.0| >= 1 && ']' !in r.value.0
  {
    if !TimeAt(s, p) then None
    else
      var i1 := SkipSpaces(s, p + 12);
      if i1 == p + 12 || i1 == |s| || s[i1] != '[' then None
      else
        var t := SkipUntil(s, i1 + 1, ']');
        if t == i1 + 1 || t == |s| then None
        else
          var i2 := SkipSpaces(s, t + 1);
          if i2 == t + 1 then None
          else
            var thread := s[i1 + 1..t];
            assert forall k :: 0 <= k < |thread| ==> thread[k] == s[i1 + 1 + k];
            Some((thread, i2))
  }

  /** `\s+([a-zA-Z0-9.]+)\s+-\s+(.*)` at `i`: the class name and the message. The class-name
      run stops before white space, and `.*` takes the rest of the line, so the match is the
      greedy one. */
  function ClassAndMessageAt(s: string, i: nat): (r: Option<(string, string)>)
    requires i <= |s|
    ensures r.Some? ==> |r.value.0| >= 1 && forall k :: 0 <= k < |r.value.0| ==> IsClassNameChar(r.value.0[k])
    ensures r.Some? ==> forall k :: 0 <= k < |r.value.1| ==> !IsLineTerminator(r.value.1[k])
  {
    var i4 := SkipSpaces(s, i);
    var i5 := SkipClassName(s, i4);
    if i4 == i || i5 == i4 then None
    else
      var i6 := SkipSpaces(s, i5);
      if i6 == i5 || i6 == |s| || s[i6] != '-' then None
      else
        var i7 := SkipSpaces(s, i6 + 1);
        if i7 == i6 + 1 then None
        else
          var cls := s[i4..i5];
          assert forall k :: 0 <= k < |cls| ==> cls[k] == s[i4 + k];
          var msg := s[i7..LineEnd(s, i7)];
          assert forall k :: 0 <= k < |msg| ==> msg[k] == s[i7 + k];
          Some((cls, msg))
  }

  /** `(TRACE|DEBUG|INFO|WARN|ERROR)` and the rest at `i`. */
  function TailAt(s: string, i: nat): (r: Option<(Level, string, string)>)
    requires i <= |s|
    ensures r.Some? ==> StartsAt(s, i, LevelName(r.value.0))
    ensures r.Some? ==> |r.value.1| >= 1 && forall k :: 0 <= k < |r.value.1| ==> IsClassNameChar(r.value.1[k])
    ensures r.Some? ==> forall k :: 0 <= k < |r.value.2| ==> !IsLineTerminator(r.value.2[k])
  {
    match LevelWordAt(s, i)
    case None => None
    case Some(level) =>
      match ClassAndMessageAt(s, i + |LevelName(level)|)
      case None => None
      case Some((cls, msg)) => Some((level, cls, msg))
  }

  /** The whole pattern matched at `p`. */
  function LogLineAt(s: string, p: nat): (r: Option<LogLine>)
    requires p <= |s|
    ensures r.Some? ==> TimeAt(s, p)
    ensures r.Some? ==> |r.value.thread| >= 1 && ']' !in r.value.thread
    ensures r.Some? ==> |r.value.className| >= 1 && forall k :: 0 <= k < |r.value.className| ==> IsClassNameChar(r.value.className[k])
    ensures r.Some? ==> forall k :: 0 <= k < |r.value.message| ==> !IsLineTerminator(r.value.message[k])
    ensures r.Some? ==> Contains(s, LevelName(r.value.level))
  {
    match HeadAt(s, p)
    case None => None
    case Some((thread, i)) =>
      match TailAt(s, i)
      case None => None
      case Some((level, cls, msg)) => Some(LogLine(thread, level, cls, msg))
  }

  /** `logMessage.match(pattern)`: the leftmost match at or after `p`. */
  function FirstLogLine(s: string, p: nat): (r: Option<LogLine>)
    requires p <= |s|
    ensures r.None? ==> forall q :: p <= q <= |s| ==> LogLineAt(s, q).None?
    ensures r.Some? ==> exists q :: p <= q <= |s| && LogLineAt(s, q) == r
    decreases |s| - p
  {
    var here := LogLineAt(s, p);
    if here.Some? then here
    else if p == |s| then None
    else
      var r := FirstLogLine(s, p + 1);
      NoLogLineStep(s, p);
      r
  }

  /** No match at `p` and none after it. */
  lemma NoLogLineStep(s: string, p: nat)
    requires p < |s| && LogLineAt(s, p).None?
    ensures (forall q :: p + 1 <= q <= |s| ==> LogLineAt(s, q).None?) ==>
      forall q :: p <= q <= |s| ==> LogLineAt(s, q).None?
  {}

  /** Thread names longer than 15 characters keep their first 12 and gain `...`. */
  function ThreadInfo(thread: string): (r: string)
    ensures |r| <= 15 || r == thread
    ensures r == thread <==> |thread| <= 15
    ensures |thread| > 15 ==> |r| == 15 && r[..12] == thread[..12]
  {
    if |thread| > 15 then thread[..12] + "..." else thread
  }

  /** Whether the thread is shown: Hibernate, JPA or the tester's own classes, or a message that
      announces Hibernate SQL. */
  predicate Important(line: LogLine) {
    Contains(line.className, "hibernate") || Contains(line.className, "jpa") ||
      Contains(line.className, "querytester") || Contains(line.message, "Hibernate:")
  }

  function FormatLogLine(line: LogLine): string {
    if Important(line) then "[" + ThreadInfo(line.thread) + "] " + line.className + " - " + line.message
    else line.className + " - " + line.message
  }

  /** What `JSON.parse` then `JSON.stringify(json, null, 2)` give for the braced part of a line,
      and whether its `status` is `"ERROR"`; `None` when parsing throws. */
  datatype JsonView = JsonView(pretty: string, statusIsError: bool)

  /** `s.substring(a, b)`, which swaps its arguments when `a > b`. */
  function JsSubstring(s: string, a: nat, b: nat): (r: string)
    requires a <= |s| && b <= |s|
    ensures |r| == if a <= b then b - a else a - b
  {
    if a <= b then s[a..b] else s[b..a]
  }

  /** `s.lastIndexOf(c)` when `c` occurs. */
  function LastIndexOfChar(s: string, c: char): (i: nat)
    requires c in s
    ensures i < |s| && s[i] == c && forall k :: i < k < |s| ==> s[k] != c
  {
    if s[|s| - 1] == c then |s| - 1
    else
      assert c in s[..|s| - 1] by {
        var k :| 0 <= k < |s| && s[k] == c;
        assert s[..|s| - 1][k] == c;
      }
      LastIndexOfChar(s[..|s| - 1], c)
  }

  /** `parseServerLog`: the `log` calls it makes, in order. A line with the Hibernate layout is
      logged once at its own level; a line with a parsable braced part is logged with the JSON
      inline when the pretty form is short and single-line, and otherwise as two lines (at ERROR
      when the status says so); any other line is logged as it is at its fallback level. */
  function ParseServerLog(msg: string, json: string -> Option<JsonView>): (calls: seq<(Level, string)>)
    ensures FirstLogLine(msg, 0).Some? ==>
      calls == [(FirstLogLine(msg, 0).value.level, FormatLogLine(FirstLogLine(msg, 0).value))]
    ensures FirstLogLine(msg, 0).None? && !('{' in msg && '}' in msg) ==> calls == [(ServerLogLevel(msg), msg)]
    ensures 1 <= |calls| <= 2
  {
    match FirstLogLine(msg, 0)
    case Some(line) => [(line.level, FormatLogLine(line))]
    case None =>
      if '{' in msg && '}' in msg then
        var start := IndexOfChar(msg, '{');
        var end := LastIndexOfChar(msg, '}') + 1;
        match json(JsSubstring(msg, start, end))
        case None => [(ServerLogLevel(msg), msg)]
        case Some(view) =>
          var level := ServerLogLevel(msg);
          var pre := Trim(msg[..start]);
          if |view.pretty| < 80 && '\n' !in view.pretty then [(level, pre + " " + view.pretty)]
          else if view.statusIsError then [(Error, pre), (Error, view.pretty)]
          else [(level, pre), (level, view.pretty)]
      else [(ServerLogLevel(msg), msg)]
  }

  /** `s.indexOf(c)` when `c` occurs. */
  function IndexOfChar(s: string, c: char): (i: nat)
    requires c in s
    ensures i < |s| && s[i] == c && forall k :: 0 <= k < i ==> s[k] != c
  {
    if s[0] == c then 0 else 1 + IndexOfChar(s[1..], c)
  }

  /** In a formatted Hibernate line the thread part is at most 15 characters. */
  lemma ShownThreadIsShort(line: LogLine)
    requires Important(line)
    ensures FormatLogLine(line) == "[" + ThreadInfo(line.thread) + "] " + line.className + " - " + line.message
    ensures |ThreadInfo(line.thread)| <= 15
  {}
}
