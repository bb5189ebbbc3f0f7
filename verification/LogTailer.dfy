/** `FileTailConsumer` (evolution/log_consumer.py) on an append-only file of one-byte characters
    without carriage returns: which lines reach the parser, over whole runs of appends, polls and
    restarts.
 */
module LogTailer {

  // ----- lines

  /** What follows the last newline. */
  function Rest(s: string): (r: string)
    ensures |r| <= |s|
  {
    if s == "" || s[|s| - 1] == '\n' then "" else Rest(s[..|s| - 1]) + [s[|s| - 1]]
  }

  /** The newline-terminated lines: every newline ends the line made of what came since the one before. */
  function Lines(s: string): seq<string> {
    if s == "" then []
    else
      var front := s[..|s| - 1];
      Lines(front) + if s[|s| - 1] == '\n' then [Rest(front)] else []
  }

  /** `s.split('\n')`. */
  function Split(s: string): (r: seq<string>)
    ensures r != [] && |r[|r| - 1]| <= |s|
  {
    if s == "" then [""]
    else
      var front := Split(s[..|s| - 1]);
      if s[|s| - 1] == '\n' then front + [""]
      else front[..|front| - 1] + [front[|front| - 1] + [s[|s| - 1]]]
  }

  lemma Snoc(s: string, c: char)
    ensures Lines(s + [c]) == Lines(s) + if c == '\n' then [Rest(s)] else []
    ensures Rest(s + [c]) == if c == '\n' then "" else Rest(s) + [c]
  {
  }

  /** Splitting at newlines gives the terminated lines and then the rest. */
  lemma {:induction false} SplitIsLines(s: string)
    ensures Split(s) == Lines(s) + [Rest(s)]
    decreases |s|
  {
    if s == "" {
    } else {
      SplitIsLines(s[..|s| - 1]);
    }
  }

  /** Behind a complete line the next text starts a new one. */
  lemma {:induction false} LinesConcatenate(a: string, b: string)
    requires Rest(a) == ""
    ensures Lines(a + b) == Lines(a) + Lines(b) && Rest(a + b) == Rest(b)
    decreases |b|
  {
    if b == "" {
      assert a + b == a;
    } else {
      var front, c := b[..|b| - 1], b[|b| - 1];
      assert a + b == (a + front) + [c];
      LinesConcatenate(a, front);
      Snoc(a + front, c);
    }
  }

  /** Cutting off the rest keeps the terminated lines. */
  lemma {:induction false} LinesWithoutRest(s: string)
    ensures Lines(s[..|s| - |Rest(s)|]) == Lines(s) && Rest(s[..|s| - |Rest(s)|]) == ""
    decreases |s|
  {
    if s == "" || s[|s| - 1] == '\n' {
      assert s[..|s|] == s;
    } else {
      var front := s[..|s| - 1];
      LinesWithoutRest(front);
      assert s[..|s| - |Rest(s)|] == front[..|front| - |Rest(front)|];
    }
  }

  /** The lines put together again, each with its newline. */
  function Unlines(lines: seq<string>): string {
    if lines == [] then "" else Unlines(lines[..|lines| - 1]) + lines[|lines| - 1] + "\n"
  }

  lemma UnlinesAppend(lines: seq<string>, line: string)
    ensures Unlines(lines + [line]) == Unlines(lines) + line + "\n"
  {
    assert (lines + [line])[..|lines + [line]| - 1] == lines;
  }

  ghost predicate NoNewlines(lines: seq<string>) {
    forall i :: 0 <= i < |lines| ==> '\n' !in lines[i]
  }

  lemma OneCharacterMore(s: string, front: string, c: char, lines: string, rest: string)
    requires s == front + [c] && lines + rest == front
    ensures lines + (rest + [c]) == s
    ensures c == '\n' ==> lines + rest + "\n" + "" == s
  {
  }

  /** The lines with their newlines, and then the rest, are the text; none of them holds a newline. */
  lemma {:induction false} LinesExactly(s: string)
    ensures Unlines(Lines(s)) + Rest(s) == s && '\n' !in Rest(s) && NoNewlines(Lines(s))
  {
    if s == "" {
    } else {
      var front, c := s[..|s| - 1], s[|s| - 1];
      LinesExactly(front);
      OneCharacterMore(s, front, c, Unlines(Lines(front)), Rest(front));
      if c == '\n' {
        UnlinesAppend(Lines(front), Rest(front));
      } else {
        assert Lines(s) == Lines(front);
      }
    }
  }

  // ----- what reaches the parser

  /** What `str.strip` takes off, among the one-byte characters. */
  predicate IsSpace(c: char) {
    c == ' ' || '\t' <= c <= '\r' || '\U{1C}' <= c <= '\U{1F}'
  }

  function StripLeft(s: string): string {
    if s != "" && IsSpace(s[0]) then StripLeft(s[1..]) else s
  }

  function StripRight(s: string): string {
    if s != "" && IsSpace(s[|s| - 1]) then StripRight(s[..|s| - 1]) else s
  }

  function Strip(s: string): string {
    StripRight(StripLeft(s))
  }

  /** The blanks of one byte: space, tabulators, line and page ends, and the four separators. */
  lemma IsSpaceExactly(c: char)
    ensures IsSpace(c) <==> c in {' ', '\t', '\n', '\U{0B}', '\U{0C}', '\r', '\U{1C}', '\U{1D}', '\U{1E}', '\U{1F}'}
  {
  }

  ghost predicate Blank(s: string) {
    forall c :: c in s ==> IsSpace(c)
  }

  lemma {:induction false} StripLeftSplits(s: string)
    ensures |StripLeft(s)| <= |s|
    ensures var w := s[..|s| - |StripLeft(s)|]; s == w + StripLeft(s) && Blank(w)
    ensures StripLeft(s) == "" || !IsSpace(StripLeft(s)[0])
  {
    if s != "" && IsSpace(s[0]) {
      StripLeftSplits(s[1..]);
      var w := s[1..][..|s| - 1 - |StripLeft(s)|];
      assert s[..|s| - |StripLeft(s)|] == [s[0]] + w;
    }
  }

  lemma {:induction false} StripRightAppend(a: string, x: string)
    requires !Blank(x)
    ensures StripRight(a + x) == a + StripRight(x) && StripRight(x) != ""
    decreases |x|
  {
    assert (a + x)[..|a + x| - 1] == a + x[..|x| - 1];
    assert x == x[..|x| - 1] + [x[|x| - 1]];
    if IsSpace(x[|x| - 1]) {
      StripRightAppend(a, x[..|x| - 1]);
    }
  }

  lemma {:induction false} StripRightBlank(x: string)
    ensures Blank(x) ==> StripRight(x) == ""
    decreases |x|
  {
    if x == "" {
    } else {
      assert x == x[..|x| - 1] + [x[|x| - 1]];
      StripRightBlank(x[..|x| - 1]);
    }
  }

  lemma StripBlank(s: string)
    ensures Strip(s) == "" <==> Blank(s)
  {
    StripLeftSplits(s);
    var l := StripLeft(s);
    StripRightBlank(l);
    if !Blank(l) {
      StripRightAppend("", l);
      assert "" + l == l;
    } else {
      assert l == "";
    }
  }

  lemma {:induction false} StripRightSplits(s: string)
    ensures |StripRight(s)| <= |s|
    ensures var w := s[|StripRight(s)|..]; s == StripRight(s) + w && Blank(w)
    ensures StripRight(s) == "" || !IsSpace(StripRight(s)[|StripRight(s)| - 1])
  {
    if s != "" && IsSpace(s[|s| - 1]) {
      var front := s[..|s| - 1];
      StripRightSplits(front);
      assert s == front + [s[|s| - 1]];
      assert s[|StripRight(s)|..] == front[|StripRight(s)|..] + [s[|s| - 1]];
    }
  }

  /** t is s without leading and trailing blanks. */
  ghost predicate Trimmed(s: string, t: string) {
    && (exists a, b :: Blank(a) && Blank(b) && s == a + t + b)
    && (t != "" ==> !IsSpace(t[0]) && !IsSpace(t[|t| - 1]))
  }

  lemma ThreeParts(s: string, a: string, l: string, t: string, b: string)
    requires s == a + l && l == t + b
    ensures s == a + t + b && (t != "" ==> l != "" && l[0] == t[0])
  {
  }

  lemma StripExactly(s: string)
    ensures Trimmed(s, Strip(s))
  {
    var l := StripLeft(s);
    StripLeftSplits(s);
    StripRightSplits(l);
    ThreeParts(s, s[..|s| - |l|], l, Strip(s), l[|Strip(s)|..]);
  }

  /** The stripped non-blank lines. */
  function NonBlank(lines: seq<string>): seq<string> {
    if lines == [] then []
    else
      var line := Strip(lines[|lines| - 1]);
      NonBlank(lines[..|lines| - 1]) + if line == "" then [] else [line]
  }

  lemma {:induction false} NonBlankConcatenate(a: seq<string>, b: seq<string>)
    ensures NonBlank(a + b) == NonBlank(a) + NonBlank(b)
    decreases |b|
  {
    if b == [] {
      assert a + b == a;
    } else {
      assert (a + b)[..|a + b| - 1] == a + b[..|b| - 1];
      NonBlankConcatenate(a, b[..|b| - 1]);
    }
  }

  /** A line is handed on, stripped, exactly if it is not blank all over. */
  lemma NonBlankOfOne(line: string)
    ensures NonBlank([line]) == if Blank(line) then [] else [Strip(line)]
  {
    StripBlank(line);
    assert [line][..0] == [];
    assert NonBlank([line]) == NonBlank([]) + if Strip(line) == "" then [] else [Strip(line)];
  }

  // ----- the consumer

  /** The file, the consumer's position in it, the position on disk (if saved), whether it runs, the
      lines handed to the parser, and where in the file it began to read. */
  datatype Tailer = Tailer(file: string, position: nat, saved: int, running: bool, delivered: seq<string>, origin: nat)

  const NOT_SAVED := -1

  function NewTailer(file: string): Tailer {
    Tailer(file, 0, NOT_SAVED, false, [], 0)
  }

  /** What the reader makes of the unread text: how much of it is taken, and the lines handed on. */
  function Intake(unread: string): (nat, seq<string>) {
    var pieces := Split(unread);
    if unread != "" && unread[|unread| - 1] == '\n' then (|unread|, NonBlank(pieces))
    else (|unread| - |pieces[|pieces| - 1]|, NonBlank(pieces[..|pieces| - 1]))
  }

  /** A position behind the end means that the file was cut off. */
  function StartOf(file: string, position: nat): nat {
    if position > |file| then 0 else position
  }

  /** `_read_new_lines`. */
  function ReadNewLines(t: Tailer, fromBeginning: bool): Tailer {
    var start := StartOf(t.file, t.position);
    if start == 0 && !fromBeginning then t.(position := |t.file|, origin := |t.file|)
    else
      var (taken, lines) := Intake(t.file[start..]);
      t.(position := start + taken, delivered := t.delivered + lines)
  }

  lemma IntakeExact(unread: string)
    ensures Intake(unread) == (|unread| - |Rest(unread)|, NonBlank(Lines(unread)))
  {
    SplitIsLines(unread);
    assert Split(unread)[..|Split(unread)| - 1] == Lines(unread);
    assert Strip("") == "";
    assert (Lines(unread) + [""])[..|Lines(unread)|] == Lines(unread);
    assert NonBlank(Lines(unread) + [""]) == NonBlank(Lines(unread));
  }

  /** A file shorter than the position is read from its beginning, or skipped to its end. */
  lemma CutOffRestarts(t: Tailer, fromBeginning: bool)
    requires t.position > |t.file|
    ensures ReadNewLines(t, fromBeginning) ==
            if fromBeginning
            then t.(position := |t.file| - |Rest(t.file)|, delivered := t.delivered + NonBlank(Lines(t.file)))
            else t.(position := |t.file|, origin := |t.file|)
  {
    assert t.file[0..] == t.file;
    IntakeExact(t.file);
  }

  /** Behind complete lines, taking the complete lines of the unread text keeps the account. */
  lemma IntakeContinues(done: string, unread: string)
    requires Rest(done) == ""
    ensures var added := unread[..|unread| - |Rest(unread)|];
            Rest(done + added) == "" && NonBlank(Lines(done + added)) == NonBlank(Lines(done)) + NonBlank(Lines(unread))
  {
    var added := unread[..|unread| - |Rest(unread)|];
    LinesWithoutRest(unread);
    LinesConcatenate(done, added);
    NonBlankConcatenate(Lines(done), Lines(added));
  }

  datatype Event = Appending(text: string) | Polling | Starting | Stopping

  function Step(t: Tailer, e: Event, fromBeginning: bool): Tailer {
    match e
    case Appending(text) => t.(file := t.file + text)
    case Polling => if t.running then ReadNewLines(t, fromBeginning) else t
    case Starting =>
      if t.running then t else t.(running := true, position := if t.saved >= 0 then t.saved else 0)
    case Stopping => t.(running := false, saved := t.position)
  }

  function Run(file: string, events: seq<Event>, fromBeginning: bool): Tailer {
    if events == [] then NewTailer(file)
    else Step(Run(file, events[..|events| - 1], fromBeginning), events[|events| - 1], fromBeginning)
  }

  /** Exactly the non-blank complete lines between the origin and the position have been handed on,
      in order and once each. */
  ghost predicate Faithful(t: Tailer, fromBeginning: bool) {
    && t.origin <= t.position <= |t.file|
    && (fromBeginning ==> t.origin == 0)
    && (t.position == 0 ==> t.delivered == [])
    && (!t.running ==> t.saved == t.position || (t.saved == NOT_SAVED && t.position == 0))
    && Accounted(t.file[t.origin..t.position], t.delivered)
  }

  /** The text consists of complete lines, of which those delivered are the non-blank. */
  ghost predicate Accounted(text: string, delivered: seq<string>) {
    Rest(text) == "" && delivered == NonBlank(Lines(text))
  }

  /** The outcome of reading from a line boundary on. */
  lemma ReadContinues(t: Tailer, fromBeginning: bool)
    requires t.position <= |t.file| && (fromBeginning || t.position > 0)
    ensures ReadNewLines(t, fromBeginning) == t.(position := |t.file| - |Rest(t.file[t.position..])|,
                                                 delivered := t.delivered + NonBlank(Lines(t.file[t.position..])))
  {
    IntakeExact(t.file[t.position..]);
  }

  /** Taking the complete lines of the unread text; what is then accounted for is joined. */
  lemma AccountExtends(done: string, unread: string, joined: string, delivered: seq<string>)
    requires Accounted(done, delivered) && joined == done + unread[..|unread| - |Rest(unread)|]
    ensures Accounted(joined, delivered + NonBlank(Lines(unread)))
  {
    IntakeContinues(done, unread);
  }

  lemma MovingKeeps(t: Tailer, fromBeginning: bool, end: nat, lines: seq<string>)
    requires Faithful(t, fromBeginning) && t.running && t.position <= end <= |t.file|
    requires Accounted(t.file[t.origin..end], t.delivered + lines) && (end == 0 ==> lines == [])
    ensures Faithful(t.(position := end, delivered := t.delivered + lines), fromBeginning)
  {
  }

  lemma TakingKeeps(t: Tailer, fromBeginning: bool, unread: string, t': Tailer)
    requires Faithful(t, fromBeginning) && t.running && unread == t.file[t.position..]
    requires t' == t.(position := |t.file| - |Rest(unread)|, delivered := t.delivered + NonBlank(Lines(unread)))
    ensures Faithful(t', fromBeginning)
  {
    TakingAccounts(t.file, t.origin, t.position, t.delivered);
    TakingNothing(t.file, t.position);
    MovingKeeps(t, fromBeginning, t'.position, NonBlank(Lines(unread)));
  }

  lemma TakingNothing(file: string, position: nat)
    requires position <= |file|
    ensures |file| == |Rest(file[position..])| ==> NonBlank(Lines(file[position..])) == []
  {
    if |file| == |Rest(file[position..])| {
      NothingTaken(file[position..]);
    }
  }

  lemma TakingAccounts(file: string, origin: nat, position: nat, delivered: seq<string>)
    requires origin <= position <= |file| && Accounted(file[origin..position], delivered)
    ensures var unread := file[position..];
            Accounted(file[origin..|file| - |Rest(unread)|], delivered + NonBlank(Lines(unread)))
  {
    var unread := file[position..];
    var left := |Rest(unread)|;
    SliceJoins(file, origin, position, left);
    AccountExtends(file[origin..position], unread, file[origin..|file| - left], delivered);
  }

  lemma ReadKeeps(t: Tailer, fromBeginning: bool)
    requires Faithful(t, fromBeginning) && t.running
    ensures Faithful(ReadNewLines(t, fromBeginning), fromBeginning)
  {
    if fromBeginning || t.position > 0 {
      ReadingOnKeeps(t, fromBeginning);
    } else {
      SkippingKeeps(t);
    }
  }

  lemma ReadingOnKeeps(t: Tailer, fromBeginning: bool)
    requires Faithful(t, fromBeginning) && t.running && (fromBeginning || t.position > 0)
    ensures Faithful(ReadNewLines(t, fromBeginning), fromBeginning)
  {
    ReadContinues(t, fromBeginning);
    TakingKeeps(t, fromBeginning, t.file[t.position..], ReadNewLines(t, fromBeginning));
  }

  lemma SkippingKeeps(t: Tailer)
    requires Faithful(t, false) && t.running && t.position == 0
    ensures Faithful(t.(position := |t.file|, origin := |t.file|), false)
  {
    assert t.file[|t.file|..|t.file|] == "";
  }

  lemma SliceJoins(s: string, i: nat, j: nat, left: nat)
    requires i <= j && j + left <= |s|
    ensures s[i..|s| - left] == s[i..j] + s[j..][..|s[j..]| - left]
  {
  }

  lemma SliceStays(s: string, more: string, i: nat, j: nat)
    requires i <= j <= |s|
    ensures (s + more)[i..j] == s[i..j]
  {
  }

  /** If nothing is taken, nothing is handed on. */
  lemma NothingTaken(unread: string)
    requires |Rest(unread)| == |unread|
    ensures Lines(unread) == []
  {
  }

  lemma StepKeeps(t: Tailer, e: Event, fromBeginning: bool)
    requires Faithful(t, fromBeginning)
    ensures Faithful(Step(t, e, fromBeginning), fromBeginning)
  {
    match e
    case Appending(text) =>
      SliceStays(t.file, text, t.origin, t.position);
    case Polling =>
      if t.running {
        ReadKeeps(t, fromBeginning);
      }
    case Starting =>
    case Stopping =>
  }

  /** However appends interleave with polls, stops and starts. */
  lemma {:induction false} EveryRunIsFaithful(file: string, events: seq<Event>, fromBeginning: bool)
    ensures Faithful(Run(file, events, fromBeginning), fromBeginning)
    decreases |events|
  {
    if events == [] {
    } else {
      EveryRunIsFaithful(file, events[..|events| - 1], fromBeginning);
      StepKeeps(Run(file, events[..|events| - 1], fromBeginning), events[|events| - 1], fromBeginning);
    }
  }

  /** A poll leaves no complete line behind, from where the consumer began to read. */
  lemma PollCatchesUp(t: Tailer, fromBeginning: bool)
    requires Faithful(t, fromBeginning) && (fromBeginning || t.position > 0)
    ensures ReadNewLines(t, fromBeginning).delivered == NonBlank(Lines(t.file[t.origin..]))
  {
    var done, unread := t.file[t.origin..t.position], t.file[t.position..];
    assert t.file[t.origin..] == done + unread;
    ReadContinues(t, fromBeginning);
    LinesConcatenate(done, unread);
    NonBlankConcatenate(Lines(done), Lines(unread));
  }

  // ----- the class

  /** Split the unread text, leaving an unfinished last line for the next time. */
  method TakeLines(unread: string) returns (taken: nat, lines: seq<string>)
    ensures (taken, lines) == Intake(unread)
  {
    var pieces := Split(unread);
    taken := |unread|;
    if unread == "" || unread[|unread| - 1] != '\n' {
      taken := taken - |pieces[|pieces| - 1]|;
      pieces := pieces[..|pieces| - 1];
    }
    lines := StripAll(pieces);
  }

  /** Where the reader moves to, and what it hands on; skips tells that it goes to the end of the file. */
  method ReadNew(file: string, position: nat, fromBeginning: bool)
    returns (skips: bool, moved: nat, lines: seq<string>)
    ensures skips <==> StartOf(file, position) == 0 && !fromBeginning
    ensures skips ==> moved == |file| && lines == []
    ensures !skips ==> (moved - StartOf(file, position), lines) == Intake(file[StartOf(file, position)..])
  {
    var start := StartOf(file, position);
    skips := start == 0 && !fromBeginning;
    if skips {
      return true, |file|, [];
    }
    var taken;
    taken, lines := TakeLines(file[start..]);
    moved := start + taken;
  }

  class FileTailConsumer {
    const fromBeginning: bool
    var running: bool
    var currentPosition: nat
    /** The position file: the saved position, or NOT_SAVED if there is no such file. */
    var savedPosition: int
    /** The stripped lines given to the parser so far. */
    ghost var parsed: seq<string>
    ghost var origin: nat

    ghost function State(file: string): Tailer
      reads this
    {
      Tailer(file, currentPosition, savedPosition, running, parsed, origin)
    }

    ghost predicate Valid(file: string)
      reads this
    {
      Faithful(State(file), fromBeginning)
    }

    constructor (fromBeginning: bool, file: string)
      ensures this.fromBeginning == fromBeginning && State(file) == NewTailer(file) && Valid(file)
    {
      this.fromBeginning := fromBeginning;
      running, currentPosition, savedPosition, parsed, origin := false, 0, NOT_SAVED, [], 0;
    }

    /** `start`: load the saved position, if there is one. */
    method Start(ghost file: string)
      requires Valid(file)
      modifies this
      ensures Valid(file) && State(file) == Step(old(State(file)), Starting, fromBeginning)
    {
      if running {
        return;
      }
      running := true;
      if savedPosition >= 0 {
        currentPosition := savedPosition;
      }
    }

    /** `stop`: save the position. */
    method Stop(ghost file: string)
      requires Valid(file)
      modifies this
      ensures Valid(file) && State(file) == Step(old(State(file)), Stopping, fromBeginning)
    {
      running := false;
      savedPosition := currentPosition;
    }

    /** One round of the tail loop. */
    method Poll(file: string) returns (lines: seq<string>)
      requires Valid(file)
      modifies this
      ensures Valid(file) && State(file) == Step(old(State(file)), Polling, fromBeginning)
      ensures parsed == old(parsed) + lines
    {
      StepKeeps(State(file), Polling, fromBeginning);
      lines := [];
      if running {
        lines := ReadLines(file);
      }
    }

    /** `_read_new_lines`. */
    method ReadLines(file: string) returns (lines: seq<string>)
      modifies this
      ensures State(file) == ReadNewLines(old(State(file)), fromBeginning)
      ensures parsed == old(parsed) + lines
    {
      var skips, moved;
      skips, moved, lines := ReadNew(file, currentPosition, fromBeginning);
      if skips {
        origin := |file|;
      }
      currentPosition := moved;
      parsed := parsed + lines;
    }
  }

  /** The loop over the pieces: strip each, hand on those that are not blank. */
  method StripAll(pieces: seq<string>) returns (lines: seq<string>)
    ensures lines == NonBlank(pieces)
  {
    lines := [];
    for i := 0 to |pieces|
      invariant lines == NonBlank(pieces[..i])
    {
      assert pieces[..i + 1][..i] == pieces[..i];
      var line := Strip(pieces[i]);
      if line != "" {
        lines := lines + [line];
      }
    }
    assert pieces[..|pieces|] == pieces;
  }
}
