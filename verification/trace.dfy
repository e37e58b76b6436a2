/** The Trace sink of BrewTools: a levelled log writer that fans each
    message out to an open log file and, when a console is selected and
    printing is on, to standard output.

    The C++ class holds an `std::ofstream` and writes to `std::cout`; here
    both streams are the sequences of entries they have received, one per
    `<<` call, and the
    `selected` flags of the Console objects are a map from console identity
    to flag. Every operation is a pure function from the old state to the
    new one. */
module TraceSink {
  import opened Types
  import Decimal

  /** Identity of a Console object (the pointer value). */
  type ConsoleId = nat

  /** `m_selected` of every live Console, by identity. */
  type ConsoleFlags = map<ConsoleId, bool>

  datatype Trace = Trace(
    path: string,              // m_path
    fileOpen: bool,            // m_os.is_open()
    level: Unsigned,           // m_level
    console: Option<ConsoleId>,// m_console (None is NULL)
    printing: bool,            // m_printing
    fileLog: seq<string>,      // entries in the file most recently opened
    stdoutLog: seq<string>     // entries sent to std::cout
  )

  /** What every reachable Trace satisfies: a closed file leaves no path
      behind, and printing is on exactly when a console is selected. */
  predicate Valid(t: Trace) {
    && (!t.fileOpen ==> t.path == "")
    && (t.printing <==> t.console.Some?)
  }

  /** No console is marked selected except (possibly) this Trace's own. */
  predicate OwnsSelection(t: Trace, flags: ConsoleFlags) {
    forall k :: k in flags && flags[k] ==> t.console == Some(k)
  }

  // ---------------------------------------------------------------------
  // Line format

  /** The entry `operator<<` emits: `[<level>] <output>`; the trailing
      `std::endl` is the separation between entries of a log. The message
      is not escaped, so an entry may span several physical lines. */
  function FormatLine(level: Unsigned, output: string): (line: string)
    ensures var d := Decimal.Render(level as nat);
      && |line| == |d| + 3 + |output|
      && line[0] == '['
      && line[1..|d| + 1] == d
      && line[|d| + 1] == ']' && line[|d| + 2] == ' '
      && line[|d| + 3..] == output
  {
    "[" + Decimal.Render(level as nat) + "] " + output
  }

  /** Position of the first `c` in `s`, if any. */
  function IndexOf(s: string, c: char): (r: Option<nat>)
    ensures r.Some? ==> r.value < |s| && s[r.value] == c
    ensures r.Some? ==> forall k :: 0 <= k < r.value ==> s[k] != c
    ensures r.None? ==> c !in s
    decreases |s|
  {
    if |s| == 0 then None
    else if s[0] == c then Some(0)
    else match IndexOf(s[1..], c)
      case None => None
      case Some(j) => Some(j + 1)
  }

  /** Reads a log entry back into its level and message; `None` when the
      entry is not one `FormatLine` can produce. */
  function ParseLine(line: string): (r: Option<(Unsigned, string)>) {
    if |line| == 0 || line[0] != '[' then None
    else match IndexOf(line[1..], ']')
      case None => None
      case Some(j) =>
        var digits := line[1..j + 1];
        if |digits| == 0 || !Decimal.AllDigits(digits) then None
        else if j + 2 >= |line| || line[j + 2] != ' ' then None
        else
          var v := Decimal.Parse(digits);
          if v >= UINT_RANGE || Decimal.Render(v) != digits then None
          else Some((v as Unsigned, line[j + 3..]))
  }

  lemma {:induction false} IndexOfAfterDigits(d: string, rest: string)
    requires ']' !in d
    ensures IndexOf(d + "]" + rest, ']') == Some(|d|)
    decreases |d|
  {
    if |d| == 0 {
      assert (d + "]" + rest)[0] == ']';
    } else {
      assert (d + "]" + rest)[1..] == d[1..] + "]" + rest;
      IndexOfAfterDigits(d[1..], rest);
    }
  }

  /** Every entry the sink writes identifies its level and message. */
  lemma FormatLineParses(level: Unsigned, output: string)
    ensures ParseLine(FormatLine(level, output)) == Some((level, output))
  {
    var d := Decimal.Render(level as nat);
    var line := FormatLine(level, output);
    assert line[1..] == d + "]" + (" " + output);
    IndexOfAfterDigits(d, " " + output);
    Decimal.ParseRender(level as nat);
  }

  /** An entry parses exactly when it is the rendering of what it parses to. */
  lemma ParseLineExact(line: string, level: Unsigned, output: string)
    ensures ParseLine(line) == Some((level, output)) <==> line == FormatLine(level, output)
  {
    if line == FormatLine(level, output) {
      FormatLineParses(level, output);
    }
    if ParseLine(line) == Some((level, output)) {
      var j := IndexOf(line[1..], ']').value;
      var digits := line[1..j + 1];
      assert digits == Decimal.Render(level as nat);
      assert line == [line[0]] + digits + [line[j + 1]] + [line[j + 2]] + line[j + 3..];
    }
  }

  /** Two writes render the same entry only for the same level and message. */
  lemma FormatLineInjective(l1: Unsigned, o1: string, l2: Unsigned, o2: string)
    requires FormatLine(l1, o1) == FormatLine(l2, o2)
    ensures l1 == l2 && o1 == o2
  {
    FormatLineParses(l1, o1);
    FormatLineParses(l2, o2);
  }

  // ---------------------------------------------------------------------
  // Construction and destruction

  /** `Trace()`: level 0, no console, printing off, no file, empty path. */
  function NewTrace(): (t: Trace)
    ensures Valid(t)
    ensures t.level == 0 && t.console.None? && !t.printing
    ensures !t.fileOpen && t.path == ""
    ensures t.fileLog == [] && t.stdoutLog == []
  {
    Trace("", false, 0, None, false, [], [])
  }

  /** `Trace(path)`: the default state, then `OpenFile(path)`, whose result
      is discarded; `canOpen` says whether the stream could be opened. */
  function NewTraceWithPath(path: string, canOpen: bool): (t: Trace)
    ensures Valid(t)
    ensures t.level == 0 && t.console.None? && !t.printing
    ensures t.fileOpen == canOpen
    ensures t.path == (if canOpen then path else "")
    ensures t.fileLog == [] && t.stdoutLog == []
  {
    OpenFile(NewTrace(), path, canOpen).0
  }

  /** `~Trace()`: closes the file, if any. */
  function Destroy(t: Trace): (r: Trace)
    ensures !r.fileOpen
    ensures Valid(t) ==> Valid(r) && r.path == ""
    ensures r.level == t.level && r.console == t.console && r.printing == t.printing
    ensures r.fileLog == t.fileLog && r.stdoutLog == t.stdoutLog
  {
    CloseFile(t)
  }

  // ---------------------------------------------------------------------
  // File management

  /** `CloseFile()`: an open file is closed and the path forgotten; with no
      file open nothing changes. */
  function CloseFile(t: Trace): (r: Trace)
    ensures !r.fileOpen
    ensures t.fileOpen ==> r.path == ""
    ensures !t.fileOpen ==> r == t
    ensures r.(fileOpen := t.fileOpen, path := t.path) == t
    ensures Valid(t) ==> Valid(r)
  {
    if t.fileOpen then t.(fileOpen := false, path := "") else t
  }

  /** `OpenFile(path)`: the current file is always closed first; then, when
      the new stream opened (`canOpen`), it becomes the file, truncated, and
      its path is recorded. The result is whether it opened. On failure the
      Trace is left with no file at all. */
  function OpenFile(t: Trace, path: string, canOpen: bool): (r: (Trace, bool))
    ensures r.1 == canOpen
    ensures r.0.fileOpen == canOpen
    ensures canOpen ==> r.0.path == path && r.0.fileLog == []
    ensures !canOpen ==> r.0 == CloseFile(t)
    ensures !canOpen && Valid(t) ==> r.0.path == ""
    ensures r.0.level == t.level && r.0.console == t.console && r.0.printing == t.printing
    ensures r.0.stdoutLog == t.stdoutLog
    ensures Valid(t) ==> Valid(r.0)
  {
    var closed := CloseFile(t);
    if canOpen then (closed.(fileOpen := true, path := path, fileLog := []), true)
    else (closed, false)
  }

  /** `IsFileOpen()`: true exactly when a write would reach a file. */
  function IsFileOpen(t: Trace): (b: bool)
    ensures b <==> |Write(t, "").fileLog| == |t.fileLog| + 1
    ensures Valid(t) && !b ==> t.path == ""
  {
    t.fileOpen
  }

  /** A file is open exactly when `<<` appends its entry to the file log. */
  lemma IsFileOpenMeansTraced(t: Trace, output: string)
    ensures IsFileOpen(t) <==> Write(t, output).fileLog == t.fileLog + [FormatLine(t.level, output)]
  {
  }

  // ---------------------------------------------------------------------
  // Output

  /** `operator[](level)`: sets the level and nothing else. */
  function SetLevel(t: Trace, level: Unsigned): (r: Trace)
    ensures r.level == level
    ensures r.(level := t.level) == t
    ensures Valid(t) ==> Valid(r)
  {
    t.(level := level)
  }

  /** `operator<<(output)`: the formatted entry goes to standard output when
      a console is selected and printing is on, and to the file when one is
      open; nothing else changes. */
  function Write(t: Trace, output: string): (r: Trace)
    ensures |r.fileLog| == |t.fileLog| + (if t.fileOpen then 1 else 0)
    ensures |r.stdoutLog| == |t.stdoutLog| + (if t.console.Some? && t.printing then 1 else 0)
    ensures r.fileLog[..|t.fileLog|] == t.fileLog
    ensures r.stdoutLog[..|t.stdoutLog|] == t.stdoutLog
    ensures t.fileOpen ==> ParseLine(r.fileLog[|t.fileLog|]) == Some((t.level, output))
    ensures t.console.Some? && t.printing ==> ParseLine(r.stdoutLog[|t.stdoutLog|]) == Some((t.level, output))
    ensures r.(fileLog := t.fileLog, stdoutLog := t.stdoutLog) == t
    ensures Valid(t) ==> Valid(r)
  {
    var line := FormatLine(t.level, output);
    FormatLineParses(t.level, output);
    var toStdout := if t.console.Some? && t.printing then t.stdoutLog + [line] else t.stdoutLog;
    var toFile := if t.fileOpen then t.fileLog + [line] else t.fileLog;
    t.(stdoutLog := toStdout, fileLog := toFile)
  }

  /** The `(*trace)[level] << output` idiom: the entry carries `level`. */
  lemma LevelledWrite(t: Trace, level: Unsigned, output: string)
    requires t.fileOpen
    ensures Write(SetLevel(t, level), output).fileLog == t.fileLog + [FormatLine(level, output)]
    ensures Write(SetLevel(t, level), output).level == level
  {
  }

  /** With no file open and no console selected a write leaves no trace. */
  lemma SilentWrite(t: Trace, output: string)
    requires !t.fileOpen && t.console.None?
    ensures Write(t, output) == t
  {
  }

  /** `Update()`: a no-op. */
  function Update(t: Trace): (r: Trace)
    ensures r == t
  {
    t
  }

  // ---------------------------------------------------------------------
  // Console selection

  /** `SelectConsole(console)`: the previous console is unmarked, the new one
      (if non-null) is marked, and printing follows whether a console is
      selected. */
  function SelectConsole(t: Trace, flags: ConsoleFlags, console: Option<ConsoleId>): (r: (Trace, ConsoleFlags))
    ensures r.0.console == console
    ensures r.0.printing <==> console.Some?
    ensures r.0.(console := t.console, printing := t.printing) == t
    ensures console.Some? ==> console.value in r.1 && r.1[console.value]
    ensures t.console.Some? && t.console != console ==> t.console.value in r.1 && !r.1[t.console.value]
    ensures forall k :: k in flags && Some(k) != console && Some(k) != t.console ==> k in r.1 && r.1[k] == flags[k]
    ensures forall k :: k in r.1 ==> k in flags || Some(k) == console || Some(k) == t.console
    ensures Valid(t) ==> Valid(r.0)
    ensures OwnsSelection(t, flags) ==> OwnsSelection(r.0, r.1)
  {
    var cleared := if t.console.Some? then flags[t.console.value := false] else flags;
    var marked := if console.Some? then cleared[console.value := true] else cleared;
    var printing :=
      if !t.printing && console.Some? then true
      else if console.None? then false
      else t.printing;
    (t.(console := console, printing := printing), marked)
  }

  /** A new Trace owns the selection while no console is flagged yet. */
  lemma NewTraceOwnsSelection(flags: ConsoleFlags)
    requires forall k :: k in flags ==> !flags[k]
    ensures OwnsSelection(NewTrace(), flags)
  {
  }

  /** The same holds for a Trace constructed with a path. */
  lemma NewTraceWithPathOwnsSelection(path: string, canOpen: bool, flags: ConsoleFlags)
    requires forall k :: k in flags ==> !flags[k]
    ensures OwnsSelection(NewTraceWithPath(path, canOpen), flags)
  {
  }

  /** Selecting the already selected console keeps it selected. */
  lemma ReselectKeepsSelected(t: Trace, flags: ConsoleFlags, c: ConsoleId)
    requires t.console == Some(c)
    ensures SelectConsole(t, flags, Some(c)).1[c]
    ensures SelectConsole(t, flags, Some(c)).0.printing
  {
  }

  /** Under `OwnsSelection`, at most one console is marked selected, and it
      is the one this Trace writes to. */
  lemma AtMostOneSelected(t: Trace, flags: ConsoleFlags, a: ConsoleId, b: ConsoleId)
    requires OwnsSelection(t, flags)
    requires a in flags && flags[a] && b in flags && flags[b]
    ensures a == b && t.console == Some(a)
  {
  }
}
