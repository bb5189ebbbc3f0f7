/** A `FileTailConsumer` that does not read from the beginning (evolution/log_consumer.py): where it
    begins, over all runs, and exactly when it hands on the lines completed since its first poll.
 */
module LogLateStart {
  import opened LogTailer
  import opened Wrappers

  // ----- a run seen from outside

  function FileAfter(file: string, events: seq<Event>): string {
    if events == [] then file
    else
      var last := events[|events| - 1];
      FileAfter(file, events[..|events| - 1]) + if last.Appending? then last.text else ""
  }

  predicate RunningAfter(events: seq<Event>) {
    if events == [] then false
    else
      match events[|events| - 1]
      case Starting => true
      case Stopping => false
      case _ => RunningAfter(events[..|events| - 1])
  }

  /** The last event is a poll while the consumer runs. */
  predicate EndsInPoll(events: seq<Event>) {
    events != [] && events[|events| - 1].Polling? && RunningAfter(events[..|events| - 1])
  }

  /** The file as the first running poll found it. */
  function FirstPolled(file: string, events: seq<Event>): (first: Option<string>)
    ensures first.Some? ==> first.value <= FileAfter(file, events)
  {
    if events == [] then None
    else
      var front := events[..|events| - 1];
      if FirstPolled(file, front).Some? then FirstPolled(file, front)
      else if EndsInPoll(events) then Some(FileAfter(file, front)) else None
  }

  /** The file as the first running poll found it that found it non-empty; empty if there was none. */
  function FirstSeen(file: string, events: seq<Event>): (seen: string)
    ensures seen <= FileAfter(file, events)
  {
    if events == [] then ""
    else
      var front := events[..|events| - 1];
      if FirstSeen(file, front) != "" then FirstSeen(file, front)
      else if EndsInPoll(events) then FileAfter(file, front) else ""
  }

  lemma PollMoves(t: Tailer)
    requires Faithful(t, false)
    ensures var t' := ReadNewLines(t, false);
            && t'.file == t.file && t'.running == t.running
            && (if t.position > 0 then t'.origin == t.origin && t'.position > 0
                else t'.origin == t'.position == |t.file|)
  {
    if t.position > 0 {
      ReadContinues(t, false);
    }
  }

  /** The consumer begins where the first running poll finds the file to end that finds it non-empty. */
  lemma {:induction false} OriginExactly(file: string, events: seq<Event>)
    ensures var t, seen := Run(file, events, false), FirstSeen(file, events);
            && t.file == FileAfter(file, events) && t.running == RunningAfter(events)
            && t.origin == |seen| && (t.position == 0 <==> seen == "")
    decreases |events|
  {
    if events == [] {
    } else {
      var front := events[..|events| - 1];
      OriginExactly(file, front);
      EveryRunIsFaithful(file, front, false);
      match events[|events| - 1]
      case Polling => PollMoves(Run(file, front, false));
      case _ =>
    }
  }

  lemma {:induction false} FirstPollComesFirst(file: string, events: seq<Event>)
    ensures var first, seen := FirstPolled(file, events), FirstSeen(file, events);
            match first
            case None => seen == ""
            case Some(f) => f != "" ==> seen == f
    decreases |events|
  {
    if events == [] {
    } else {
      FirstPollComesFirst(file, events[..|events| - 1]);
    }
  }

  /** After a poll all that was completed behind the origin has been handed on. */
  lemma CaughtUp(file: string, events: seq<Event>)
    requires EndsInPoll(events)
    ensures Run(file, events, false).delivered ==
            NonBlank(Lines(FileAfter(file, events)[|FirstSeen(file, events)|..]))
  {
    var front := events[..|events| - 1];
    OriginExactly(file, front);
    OriginExactly(file, events);
    EveryRunIsFaithful(file, front, false);
    var t := Run(file, front, false);
    if t.position > 0 {
      PollCatchesUp(t, false);
    } else {
      assert t.file[|t.file|..] == "";
    }
  }

  // ----- lines of a growing text

  ghost predicate Unbroken(s: string) {
    forall i :: 0 <= i < |s| ==> s[i] != '\n'
  }

  lemma {:induction false} UnbrokenHasNoLines(s: string)
    ensures Unbroken(s) <==> Lines(s) == []
    ensures Unbroken(s) ==> Rest(s) == s
    decreases |s|
  {
    if s == "" {
    } else {
      UnbrokenHasNoLines(s[..|s| - 1]);
    }
  }

  lemma {:induction false} RestUnbroken(s: string)
    ensures Unbroken(Rest(s))
    decreases |s|
  {
    if s != "" && s[|s| - 1] != '\n' {
      RestUnbroken(s[..|s| - 1]);
    }
  }

  lemma {:induction false} FirstBreak(s: string) returns (i: nat)
    requires !Unbroken(s)
    ensures i < |s| && s[i] == '\n' && Unbroken(s[..i])
  {
    if s[0] == '\n' {
      i := 0;
    } else {
      var k := FirstBreak(s[1..]);
      i := k + 1;
    }
  }

  lemma LineOf(line: string, more: string, s: string)
    requires Unbroken(line) && s == line + "\n" + more
    ensures Lines(s) == [line] + Lines(more)
  {
    UnbrokenHasNoLines(line);
    Snoc(line, '\n');
    LinesConcatenate(line + "\n", more);
  }

  /** An unfinished line in front of a text becomes part of its first line. */
  function Prepended(r: string, lines: seq<string>): seq<string> {
    if lines == [] then [] else [r + lines[0]] + lines[1..]
  }

  lemma FirstLineGrows(r: string, x: string, s: string)
    requires Unbroken(r) && s == r + x
    ensures Lines(s) == Prepended(r, Lines(x))
  {
    if Unbroken(x) {
      UnbrokenHasNoLines(x);
      UnbrokenHasNoLines(s);
    } else {
      var i := FirstBreak(x);
      LineOf(x[..i], x[i + 1..], x);
      LineOf(r + x[..i], x[i + 1..], s);
      PrependedCons(r, x[..i], Lines(x[i + 1..]));
    }
  }

  lemma PrependedCons(r: string, line: string, lines: seq<string>)
    ensures Prepended(r, [line] + lines) == [r + line] + lines
  {
  }

  lemma LinesGrow(a: string, b: string, s: string)
    requires s == a + b
    ensures Lines(s) == Lines(a) + Prepended(Rest(a), Lines(b))
  {
    var r, complete := Rest(a), a[..|a| - |Rest(a)|];
    RestIsEnd(a);
    RestUnbroken(a);
    LinesWithoutRest(a);
    JoinRest(complete, r, b, s);
  }

  lemma LinesRemain(a: string, s: string)
    requires a <= s
    ensures |Lines(a)| <= |Lines(s)|
  {
    LinesGrow(a, s[|a|..], s);
  }

  lemma JoinRest(complete: string, r: string, b: string, s: string)
    requires Rest(complete) == "" && Unbroken(r) && s == complete + r + b
    ensures Lines(s) == Lines(complete) + Prepended(r, Lines(b))
  {
    var tail := r + b;
    JoinLines(complete, tail, s);
    FirstLineGrows(r, b, tail);
  }

  lemma JoinLines(complete: string, tail: string, s: string)
    requires Rest(complete) == "" && s == complete + tail
    ensures Lines(s) == Lines(complete) + Lines(tail)
  {
    LinesConcatenate(complete, tail);
  }

  lemma {:induction false} RestIsEnd(s: string)
    ensures s == s[..|s| - |Rest(s)|] + Rest(s)
    decreases |s|
  {
    if s != "" && s[|s| - 1] != '\n' {
      RestIsEnd(s[..|s| - 1]);
    }
  }

  // ----- blanks in front of a line

  lemma {:induction false} StripLeftAppend(r: string, x: string)
    ensures StripLeft(r + x) == if Blank(r) then StripLeft(x) else StripLeft(r) + x
  {
    if r == "" {
      assert r + x == x;
    } else {
      assert (r + x)[1..] == r[1..] + x && r == [r[0]] + r[1..];
      StripLeftAppend(r[1..], x);
    }
  }

  /** Text in front of a line shows after stripping, unless it is blank. */
  lemma StripShows(r: string, x: string)
    ensures Strip(r + x) == Strip(x) <==> Blank(r)
    ensures Strip(x) != "" ==> Strip(r + x) != ""
  {
    StripLeftAppend(r, x);
    if !Blank(r) {
      StripBlank(r + x);
      StripBlank(x);
      StripLeftSplits(r);
      if !Blank(x) {
        StripRightAppend(StripLeft(r), x);
        StripLeftSplits(x);
        StripRightAppend(x[..|x| - |StripLeft(x)|], StripLeft(x));
      }
    }
  }

  // ----- exactly when nothing is lost or cut

  /** The non-blank lines of the file that were completed after the first poll found f. */
  function CompletedSince(file: string, f: string): seq<string> {
    NonBlank(Drop(Lines(file), |Lines(f)|))
  }

  function Drop(s: seq<string>, n: nat): seq<string> {
    if n <= |s| then s[n..] else []
  }

  /** What was read behind `seen` is what was completed since f, for f, seen and the file each a
      beginning of the next. */
  lemma TailExactly(file: string, seen: string, f: string)
    requires f <= seen <= file
    ensures NonBlank(Lines(file[|seen|..])) == CompletedSince(file, f) <==>
            CompletedSince(seen, f) == [] && (Lines(file[|seen|..]) == [] || Blank(Rest(seen)))
  {
    CompletedInTwo(file, seen, f);
    PrependedExactly(CompletedSince(seen, f), Rest(seen), Lines(file[|seen|..]));
  }

  lemma PrependedExactly(skipped: seq<string>, r: string, lines: seq<string>)
    ensures NonBlank(lines) == skipped + NonBlank(Prepended(r, lines)) <==>
            skipped == [] && (lines == [] || Blank(r))
  {
    if lines != [] {
      FirstLineExactly(skipped, r, lines[0], lines[1..]);
      assert [lines[0]] + lines[1..] == lines;
    }
  }

  lemma CompletedInTwo(file: string, seen: string, f: string)
    requires f <= seen <= file
    ensures CompletedSince(file, f) ==
            CompletedSince(seen, f) + NonBlank(Prepended(Rest(seen), Lines(file[|seen|..])))
  {
    LinesGrow(seen, file[|seen|..], file);
    LinesRemain(f, seen);
    DropInTwo(Lines(seen), Prepended(Rest(seen), Lines(file[|seen|..])), Lines(file), |Lines(f)|);
  }

  lemma DropInTwo(a: seq<string>, b: seq<string>, ab: seq<string>, n: nat)
    requires n <= |a| && ab == a + b
    ensures NonBlank(Drop(ab, n)) == NonBlank(Drop(a, n)) + NonBlank(b)
  {
    assert Drop(ab, n) == Drop(a, n) + b;
    NonBlankConcatenate(Drop(a, n), b);
  }

  lemma FirstLineExactly(skipped: seq<string>, r: string, line: string, more: seq<string>)
    ensures NonBlank([line] + more) == skipped + NonBlank([r + line] + more) <==> skipped == [] && Blank(r)
  {
    NonBlankConcatenate([line], more);
    NonBlankConcatenate([r + line], more);
    StripShows(r, line);
    OneLine(line);
    OneLine(r + line);
    var a, b, c := NonBlank([r + line]), NonBlank([line]), NonBlank(more);
    if b + c == skipped + (a + c) {
      assert |b| == |skipped| + |a|;
      assert b == (b + c)[..|b|] && a == (skipped + (a + c))[|skipped|..|skipped| + |a|];
    }
  }

  lemma OneLine(line: string)
    ensures NonBlank([line]) == if Strip(line) == "" then [] else [Strip(line)]
  {
    assert [line][..0] == [];
  }

  /** The run hands on exactly the non-blank lines completed since its first poll. */
  ghost predicate HandsOnExactly(file: string, events: seq<Event>)
    requires FirstPolled(file, events).Some?
  {
    var t := Run(file, events, false);
    t.delivered == CompletedSince(t.file, FirstPolled(file, events).value)
  }

  lemma PollIsPolled(file: string, events: seq<Event>)
    requires EndsInPoll(events)
    ensures FirstPolled(file, events).Some?
  {
  }

  /** For every run, at each poll: nothing is lost or cut if and only if all lines completed between
      the first poll and the first one that found text are blank, and the unfinished line which that one
      found is blank or still unfinished. */
  lemma LateStartExactly(file: string, events: seq<Event>)
    requires EndsInPoll(events)
    ensures FirstPolled(file, events).Some?
    ensures var seen := FirstSeen(file, events);
            HandsOnExactly(file, events) <==>
              && CompletedSince(seen, FirstPolled(file, events).value) == []
              && (Lines(FileAfter(file, events)[|seen|..]) == [] || Blank(Rest(seen)))
  {
    PollIsPolled(file, events);
    OriginExactly(file, events);
    CaughtUp(file, events);
    FirstPollComesFirst(file, events);
    SeenAfterFirst(file, events);
    TailExactly(FileAfter(file, events), FirstSeen(file, events), FirstPolled(file, events).value);
  }

  lemma SeenAfterFirst(file: string, events: seq<Event>)
    requires FirstPolled(file, events).Some?
    ensures FirstPolled(file, events).value <= FirstSeen(file, events)
  {
    FirstPollComesFirst(file, events);
  }

  // ----- what can be said at the first poll

  const START_AND_POLL := [Starting, Polling]

  lemma FirstPollOf(file: string)
    ensures FirstPolled(file, START_AND_POLL) == Some(file) && FirstSeen(file, START_AND_POLL) == file
    ensures FileAfter(file, START_AND_POLL) == file && RunningAfter(START_AND_POLL)
  {
    assert START_AND_POLL[..1] == [Starting] && [Starting][..0] == [];
    assert FileAfter(file, [Starting]) == file && RunningAfter([Starting]);
    assert FirstPolled(file, [Starting]) == None && FirstSeen(file, [Starting]) == "";
  }

  lemma {:induction false} FirstPollStays(file: string, events: seq<Event>)
    ensures FirstPolled(file, START_AND_POLL + events) == Some(file)
    ensures file != "" ==> FirstSeen(file, START_AND_POLL + events) == file
    decreases |events|
  {
    var all := START_AND_POLL + events;
    FirstPollOf(file);
    if events == [] {
      assert all == START_AND_POLL;
    } else {
      assert all[..|all| - 1] == START_AND_POLL + events[..|events| - 1];
      FirstPollStays(file, events[..|events| - 1]);
    }
  }

  /** Whatever happens after a first poll of this file, each later poll is exact. */
  ghost predicate SafeStart(file: string) {
    forall events :: EndsInPoll(START_AND_POLL + events) ==> ExactAfter(file, events)
  }

  ghost predicate ExactAfter(file: string, events: seq<Event>) {
    var all := START_AND_POLL + events;
    FirstPolled(file, all).Some? && HandsOnExactly(file, all)
  }

  /** A start at the end of a file is safe if and only if the file has text and does not end within a
      non-blank line. */
  lemma SafeStartExactly(file: string)
    ensures SafeStart(file) <==> file != "" && Blank(Rest(file))
  {
    if file != "" && Blank(Rest(file)) {
      forall events | EndsInPoll(START_AND_POLL + events) ensures ExactAfter(file, events) {
        FirstPollStays(file, events);
        LateStartExactly(file, START_AND_POLL + events);
        assert Lines(file)[|Lines(file)|..] == [];
      }
    } else {
      UnsafeStart(file, if file == "" then "a\n" else "\n");
    }
  }

  /** One text appended after the first poll, and a second poll. */
  function AppendAndPoll(text: string): seq<Event> {
    [Appending(text), Polling]
  }

  lemma SecondPoll(file: string, text: string)
    ensures var all := START_AND_POLL + AppendAndPoll(text);
            && EndsInPoll(all) && FileAfter(file, all) == file + text && FirstPolled(file, all) == Some(file)
            && FirstSeen(file, all) == if file == "" then text else file
  {
    var all, front := START_AND_POLL + AppendAndPoll(text), START_AND_POLL + [Appending(text)];
    FirstPollOf(file);
    FirstPollStays(file, AppendAndPoll(text));
    assert all[..3] == front && front[..2] == START_AND_POLL;
    assert RunningAfter(front) && FileAfter(file, front) == file + text;
    if file == "" {
      assert FirstSeen(file, front) == "";
      assert file + text == text;
    }
  }

  lemma UnsafeStart(file: string, text: string)
    requires if file == "" then text == "a\n" else !Blank(Rest(file)) && text == "\n"
    ensures !SafeStart(file)
  {
    var all := START_AND_POLL + AppendAndPoll(text);
    SecondPoll(file, text);
    LateStartExactly(file, all);
    if file == "" {
      SkippedLine(text);
    } else {
      assert (file + text)[|file|..] == text;
      LineOf("", "", text);
    }
    assert !HandsOnExactly(file, all);
    assert !ExactAfter(file, AppendAndPoll(text));
  }

  lemma SkippedLine(text: string)
    requires text == "a\n"
    ensures CompletedSince(text, "") == ["a"]
  {
    LineOf("a", "", text);
    OneLine("a");
    assert !IsSpace('a');
    StripNothing("a");
    assert Drop(["a"], 0) == ["a"];
  }

  lemma StripNothing(s: string)
    requires s != "" && !IsSpace(s[0]) && !IsSpace(s[|s| - 1])
    ensures Strip(s) == s
  {
  }

  lemma LinesOfAbc(file: string, text: string)
    requires file == "abc\n" && text == "c\n"
    ensures Lines(file) == ["abc"] && Lines(text) == ["c"]
  {
    LineOf("abc", "", file);
    LineOf("c", "", text);
  }

  /** Started inside a line, the consumer hands on the rest of it as if it were a line: of the only
      line "abc" of the file it delivers "c". */
  lemma HalfALine()
    ensures var all := START_AND_POLL + AppendAndPoll("c\n");
            && Lines(FileAfter("ab", all)) == ["abc"] && Run("ab", all, false).delivered == ["c"]
  {
    SecondPoll("ab", "c\n");
    CaughtUp("ab", START_AND_POLL + AppendAndPoll("c\n"));
    assert ("ab" + "c\n")[2..] == "c\n";
    LinesOfAbc("ab" + "c\n", "c\n");
    OneLine("c");
    assert !IsSpace('c');
    StripNothing("c");
  }
}
