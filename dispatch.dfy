/**
 * One command line against the registry, and a run of many of them.
 *
 * A line that is exactly `log`, or any line once the hang-up flag is set, is
 * answered with every stored ID (one per line, in index order) and a `.`
 * line; every other line is added as an ID and gets no answer. Each command
 * is one atomic step: the interleaving of the connection threads is a single
 * sequence of events.
 */
module Dispatch {
  import opened Strings
  import opened Registry

  /** The one command word of the protocol. */
  const LogCommand: Id := "log"

  /** The line that closes every listing. */
  const Sentinel: string := "."

  /** Each ID followed by a newline, in order. */
  function Lines(ids: seq<Id>): (t: string)
    ensures |t| >= |ids|
    ensures ids != [] ==> t[|t| - 1] == '\n'
  {
    if ids == [] then [] else ids[0] + "\n" + Lines(ids[1..])
  }

  /** The whole answer to a `log`: the listing and the sentinel line. */
  function LogText(ids: seq<Id>): (t: string)
    ensures |t| >= |ids| + 2
    ensures t[|t| - 2] == '.' && t[|t| - 1] == '\n'
  {
    Lines(ids) + Sentinel + "\n"
  }

  /** Writing one more ID extends the listing by that ID and a newline. */
  lemma {:induction false} LinesSnoc(ids: seq<Id>, x: Id)
    ensures Lines(ids + [x]) == Lines(ids) + x + "\n"
  {
    if ids == [] {
      assert [x][1..] == [];
    } else {
      assert (ids + [x])[1..] == ids[1..] + [x];
      LinesSnoc(ids[1..], x);
      assert Lines(ids + [x]) == ids[0] + "\n" + (Lines(ids[1..]) + x + "\n");
    }
  }

  /** How a client reads the answer: the text cut at each newline. */
  function SplitLines(t: string): seq<string>
    decreases |t|
  {
    if t == [] then []
    else
      var k := IndexOf(t, '\n');
      if k == |t| then [t] else [t[..k]] + SplitLines(t[k + 1..])
  }

  predicate NoNewline(id: Id) {
    '\n' !in id
  }

  /** The first line of `id + "\n" + rest` is `id`. */
  lemma FirstLine(id: Id, rest: string)
    requires NoNewline(id)
    ensures SplitLines(id + "\n" + rest) == [id] + SplitLines(rest)
  {
    var t := id + "\n" + rest;
    assert forall i :: 0 <= i < |id| ==> t[i] == id[i];
    assert t[|id|] == '\n';
    var k := IndexOf(t, '\n');
    assert k == |id|;
    assert t[..|id|] == id;
    assert t[|id| + 1..] == rest;
  }

  /** A non-empty answer is the first ID on its own line, then the answer
      for the rest. */
  lemma LogTextCons(ids: seq<Id>)
    requires ids != []
    ensures LogText(ids) == ids[0] + "\n" + LogText(ids[1..])
  {
    assert Lines(ids) == ids[0] + "\n" + Lines(ids[1..]);
  }

  /** A client that splits a `log` answer into lines gets back exactly the
      stored IDs followed by the sentinel, provided no ID holds a newline. */
  lemma {:induction false} SplitLogText(ids: seq<Id>)
    requires forall i :: 0 <= i < |ids| ==> NoNewline(ids[i])
    ensures SplitLines(LogText(ids)) == ids + [Sentinel]
  {
    if ids == [] {
      assert SplitLines(LogText(ids)) == [Sentinel] by {
        FirstLine(".", []);
        assert LogText(ids) == "." + "\n" + [];
      }
    } else {
      assert SplitLines(LogText(ids)) == [ids[0]] + SplitLines(LogText(ids[1..])) by {
        LogTextCons(ids);
        FirstLine(ids[0], LogText(ids[1..]));
      }
      SplitLogText(ids[1..]);
      assert ids == [ids[0]] + ids[1..];
    }
  }

  /** The outcome of one command: the new registry and the text written back. */
  datatype Reply = Reply(registry: Record, output: string)

  /** `handle_command`: `hangup` is the value of the process-wide flag. */
  function Step(r: Record, line: Id, hangup: bool, growthSucceeds: bool): (rep: Reply)
    ensures line == LogCommand || hangup ==> rep.registry == r && rep.output == LogText(r.planes)
    ensures line != LogCommand && !hangup ==> rep.output == [] && rep.registry == AddPlane(r, line, growthSucceeds)
    ensures rep.output != [] <==> line == LogCommand || hangup
  {
    if line == LogCommand || hangup then Reply(r, LogText(r.planes))
    else Reply(AddPlane(r, line, growthSucceeds), [])
  }

  /** Something that happens to the server: a command line read on some
      connection (with the outcome of any growth it needs), or the hang-up
      signal. */
  datatype Event = Command(line: Id, growthSucceeds: bool) | Hangup

  /** The shared state: the registry, the hang-up flag, and everything written
      back so far, in the order it was written. */
  datatype Server = Server(registry: Record, hangup: bool, transcript: string)

  /** The process at start-up: the registry `main` creates, the flag clear,
      nothing written. */
  function Start(): (s: Server)
    ensures Inv(s.registry) && s.registry.planes == [] && !s.hangup && s.transcript == []
    ensures s.registry.capacity == InitialCapacity
  {
    Server(Empty(), false, [])
  }

  /** One event: the signal handler setting the flag, or one `handle_command`
      for a line read on some connection. */
  function Apply(s: Server, e: Event): (s': Server)
    ensures s.hangup ==> s'.hangup
    ensures s'.registry != s.registry ==> e.Command? && e.line != LogCommand && !s.hangup
  {
    match e
    case Hangup => Server(s.registry, true, s.transcript)
    case Command(line, growthSucceeds) =>
      var rep := Step(s.registry, line, s.hangup, growthSucceeds);
      Server(rep.registry, s.hangup, s.transcript + rep.output)
  }

  /** The events in order. The flag, once set, is never cleared. */
  function Run(s: Server, events: seq<Event>): (s': Server)
    ensures s.hangup ==> s'.hangup
    decreases |events|
  {
    if events == [] then s else Run(Apply(s, events[0]), events[1..])
  }

  /** Nothing written back is ever taken back: the transcript before a run is
      a prefix of the transcript after it. */
  lemma {:induction false} TranscriptOnlyGrows(s: Server, events: seq<Event>)
    ensures |Run(s, events).transcript| >= |s.transcript|
    ensures Run(s, events).transcript[..|s.transcript|] == s.transcript
    decreases |events|
  {
    if events != [] {
      var s' := Apply(s, events[0]);
      TranscriptOnlyGrows(s', events[1..]);
      var t := Run(s', events[1..]).transcript;
      assert t[..|s.transcript|] == t[..|s'.transcript|][..|s.transcript|];
    }
  }

  /** Any run keeps the registry invariant, never shrinks the capacity, grows
      it only in steps of ten, and never clears the hang-up flag. */
  lemma {:induction false} RunKeepsInv(s: Server, events: seq<Event>)
    requires Inv(s.registry)
    ensures Inv(Run(s, events).registry)
    ensures Run(s, events).registry.capacity >= s.registry.capacity
    ensures (Run(s, events).registry.capacity - s.registry.capacity) % GrowthStep == 0
    ensures s.hangup ==> Run(s, events).hangup
    decreases |events|
  {
    if events != [] {
      var s' := Apply(s, events[0]);
      assert Inv(s'.registry) && (s'.registry.capacity == s.registry.capacity ||
             s'.registry.capacity == s.registry.capacity + GrowthStep) by {
        if events[0].Command? && events[0].line != LogCommand && !s.hangup {
          AddPlaneKeepsInv(s.registry, events[0].line, events[0].growthSucceeds);
        }
      }
      RunKeepsInv(s', events[1..]);
      assert Run(s, events) == Run(s', events[1..]);
      GrowthStepsAdd(Run(s', events[1..]).registry.capacity - s'.registry.capacity,
                     s'.registry.capacity - s.registry.capacity);
    }
  }

  /** A whole number of growth steps plus zero or one more is still whole. */
  lemma GrowthStepsAdd(d: int, e: int)
    requires d % GrowthStep == 0 && (e == 0 || e == GrowthStep)
    ensures (d + e) % GrowthStep == 0
  {
  }

  /** `t` written `n` times. */
  function Repeat(t: string, n: nat): string {
    if n == 0 then [] else t + Repeat(t, n - 1)
  }

  /** How many command lines (as opposed to signals) a sequence of events holds. */
  function CommandCount(events: seq<Event>): nat {
    if events == [] then 0 else (if events[0].Command? then 1 else 0) + CommandCount(events[1..])
  }

  /** Once the hang-up flag is set, no line changes the registry again, and
      every line, whatever it says, is answered with the same listing. */
  lemma {:induction false} HangupFreezesRegistry(s: Server, events: seq<Event>)
    requires s.hangup
    ensures Run(s, events).registry == s.registry
    ensures Run(s, events).hangup
    ensures Run(s, events).transcript ==
      s.transcript + Repeat(LogText(s.registry.planes), CommandCount(events))
    decreases |events|
  {
    if events != [] {
      var t := LogText(s.registry.planes);
      var s' := Apply(s, events[0]);
      HangupFreezesRegistry(s', events[1..]);
      if events[0].Command? {
        assert s'.transcript == s.transcript + t;
        assert Repeat(t, CommandCount(events)) == t + Repeat(t, CommandCount(events[1..]));
      }
    }
  }

  /** An event that adds `line`: a non-`log` command whose growth, if any, succeeds. */
  predicate IsAdd(e: Event) {
    e.Command? && e.line != LogCommand && e.growthSucceeds
  }

  /** The lines of a sequence of commands, as a multiset. */
  function AddedIds(events: seq<Event>): multiset<Id> {
    if events == [] then multiset{}
    else
      match events[0]
      case Command(line, _) => multiset{line} + AddedIds(events[1..])
      case Hangup => AddedIds(events[1..])
  }

  /** Before the hang-up, a run of adds loses no ID and duplicates none: the
      registry holds the old IDs plus every added line, sorted, and nothing
      is written back. */
  lemma {:induction false} AddsAreKept(s: Server, events: seq<Event>)
    requires Sorted(s.registry.planes) && !s.hangup
    requires forall i :: 0 <= i < |events| ==> IsAdd(events[i])
    ensures Sorted(Run(s, events).registry.planes)
    ensures multiset(Run(s, events).registry.planes) == multiset(s.registry.planes) + AddedIds(events)
    ensures Run(s, events).transcript == s.transcript
    ensures !Run(s, events).hangup
    decreases |events|
  {
    if events != [] {
      var s' := Apply(s, events[0]);
      InsertSortedKeepsSorted(s.registry.planes, events[0].line);
      assert s'.transcript == s.transcript + [];
      AddsAreKept(s', events[1..]);
    }
  }

  /** The order in which concurrent connections get their adds in does not
      matter: the same added lines give the same registry contents. */
  lemma InterleavingIrrelevant(s: Server, events1: seq<Event>, events2: seq<Event>)
    requires Sorted(s.registry.planes) && !s.hangup
    requires forall i :: 0 <= i < |events1| ==> IsAdd(events1[i])
    requires forall i :: 0 <= i < |events2| ==> IsAdd(events2[i])
    requires AddedIds(events1) == AddedIds(events2)
    ensures Run(s, events1).registry.planes == Run(s, events2).registry.planes
  {
    AddsAreKept(s, events1);
    AddsAreKept(s, events2);
    SortedUnique(Run(s, events1).registry.planes, Run(s, events2).registry.planes);
  }

  /** Running two events is applying one after the other. */
  lemma RunTwo(s: Server, e1: Event, e2: Event)
    ensures Run(s, [e1, e2]) == Apply(Apply(s, e1), e2)
  {
    assert [e1, e2][1..] == [e2] && [e2][1..] == [];
    assert Run(s, [e1, e2]) == Run(Apply(s, e1), [e2]);
    assert Run(Apply(s, e1), [e2]) == Run(Apply(Apply(s, e1), e2), []);
  }

  /** Two `log` commands in a row write the same answer twice and change nothing. */
  lemma LogTwice(s: Server, g1: bool, g2: bool)
    ensures Run(s, [Command(LogCommand, g1), Command(LogCommand, g2)]) ==
      Server(s.registry, s.hangup, s.transcript + LogText(s.registry.planes) + LogText(s.registry.planes))
  {
    RunTwo(s, Command(LogCommand, g1), Command(LogCommand, g2));
  }

  /** After the hang-up, an add line is answered like `log` and stores nothing. */
  lemma AddAfterHangup(s: Server, line: Id, g: bool)
    requires line != LogCommand
    ensures Run(s, [Hangup, Command(line, g)]) ==
      Server(s.registry, true, s.transcript + LogText(s.registry.planes))
  {
    RunTwo(s, Hangup, Command(line, g));
  }

  /** From a fresh start, adding `b1` then `a1` and asking for `log` writes
      `a1`, `b1` and the sentinel, in that order. */
  lemma AddTwoThenLog()
    ensures Run(Start(), [Command("b1", true), Command("a1", true), Command(LogCommand, true)]).transcript
      == "a1\nb1\n.\n"
  {
    var events := [Command("b1", true), Command("a1", true), Command(LogCommand, true)];
    var s1 := Apply(Start(), events[0]);
    assert s1.registry.planes == ["b1"];
    var s2 := Apply(s1, events[1]);
    assert StrCmp("a1", "b1") == -1;
    assert s2.registry.planes == ["a1", "b1"];
    assert Lines(["a1", "b1"]) == "a1\n" + Lines(["b1"]);
    assert Run(Start(), events) == Run(s1, events[1..]);
    RunTwo(s1, events[1], events[2]);
    assert events[1..] == [events[1], events[2]];
  }
}
