/**
 * What happens before the server starts serving: the exit statuses and their
 * messages, the order in which `main` checks its arguments, and the one line
 * announced to the mapper.
 *
 * `is_valid_id` and `is_valid_port` are not part of this model; they are
 * passed in as arbitrary predicates. So is the outcome of connecting to the
 * mapper, and the decimal text of the listening port.
 */
module Startup {
  import opened Strings

  datatype Option<T> = None | Some(value: T)

  /** The statuses `main` can end with; the first is success. */
  datatype Error = OK | NumsOfArgs | InvalidChar | InvalidPort | InvalidMap

  /** The numeric value of each status, as the process exit code. */
  function Code(e: Error): (n: nat)
    ensures n <= 4
  {
    match e
    case OK => 0
    case NumsOfArgs => 1
    case InvalidChar => 2
    case InvalidPort => 3
    case InvalidMap => 4
  }

  /** The status an exit code stands for, if any. */
  function StatusOf(n: int): Option<Error> {
    if n == 0 then Some(OK)
    else if n == 1 then Some(NumsOfArgs)
    else if n == 2 then Some(InvalidChar)
    else if n == 3 then Some(InvalidPort)
    else if n == 4 then Some(InvalidMap)
    else None
  }

  /** Every status can be told apart from its exit code alone. */
  lemma CodeRoundTrip(e: Error)
    ensures StatusOf(Code(e)) == Some(e)
    ensures Code(e) == 0 <==> e == OK
  {
  }

  /** The message `handle_error_message` prints for each failing status. */
  function Message(e: Error): (m: string)
    ensures m == [] <==> e == OK
    ensures '\n' !in m
  {
    match e
    case OK => ""
    case NumsOfArgs => "Usage: control2310 id info [mapper]"
    case InvalidChar => "Invalid char in parameter"
    case InvalidPort => "Invalid port"
    case InvalidMap => "Can not connect to map"
  }

  /** A status together with what was written to standard error for it. */
  datatype Reported = Reported(status: Error, stderr: string)

  /** `handle_error_message`: hands its argument back; for a failing status it
      also writes that status's message as one line, for `OK` nothing. */
  function HandleErrorMessage(e: Error): (r: Reported)
    ensures r.status == e
    ensures r.stderr == [] <==> e == OK
    ensures e != OK ==> |r.stderr| > 1 && r.stderr[|r.stderr| - 1] == '\n'
    ensures e != OK ==> '\n' !in r.stderr[..|r.stderr| - 1]
  {
    if e == OK then Reported(OK, [])
    else
      var text := Message(e) + "\n";
      assert text[..|text| - 1] == Message(e);
      Reported(e, text)
  }

  /** Different failures print different lines. */
  lemma MessagesDistinct(e1: Error, e2: Error)
    requires e1 != e2
    ensures HandleErrorMessage(e1).stderr != HandleErrorMessage(e2).stderr
  {
  }

  /** The line sent to the mapper: `!<id>:<port>` and a newline. */
  function Announcement(id: string, controlPort: string): (line: string)
    ensures |line| == |id| + |controlPort| + 3
    ensures line[0] == '!' && line[|line| - 1] == '\n'
  {
    "!" + id + ":" + controlPort + "\n"
  }

  /** A reader for announcements: the ID up to the first colon of the body,
      the port after it. */
  function ParseAnnouncement(line: string): Option<(string, string)> {
    if |line| < 2 || line[0] != '!' || line[|line| - 1] != '\n' then None
    else
      var body := line[1..|line| - 1];
      var k := IndexOf(body, ':');
      if k == |body| then None else Some((body[..k], body[k + 1..]))
  }

  /** An announcement is read back as the ID and port it was made from,
      provided the ID has no colon in it. */
  lemma AnnouncementRoundTrip(id: string, controlPort: string)
    requires ':' !in id
    ensures ParseAnnouncement(Announcement(id, controlPort)) == Some((id, controlPort))
  {
    var line := Announcement(id, controlPort);
    var body := line[1..|line| - 1];
    assert body == id + ":" + controlPort;
    assert forall i :: 0 <= i < |id| ==> body[i] == id[i];
    assert body[|id|] == ':';
    assert IndexOf(body, ':') == |id|;
    assert body[..|id|] == id;
    assert body[|id| + 1..] == controlPort;
  }

  /** Conversely, every line this reader accepts is the announcement of what
      it reads from it. */
  lemma ParsedIsAnnouncement(line: string)
    requires ParseAnnouncement(line).Some?
    ensures ':' !in ParseAnnouncement(line).value.0
    ensures line == Announcement(ParseAnnouncement(line).value.0, ParseAnnouncement(line).value.1)
  {
  }

  /** How start-up ends: with a status and its message, or by serving after
      (maybe) announcing itself and printing the listening port. */
  datatype Outcome =
    | Exit(status: Error, stderr: string)
    | Serve(announcement: Option<string>, stdout: string)

  /** An exit with `e`, carrying what `handle_error_message` printed. */
  function Fail(e: Error): Outcome {
    Exit(e, HandleErrorMessage(e).stderr)
  }

  /**
   * The checks `main` makes, in its order: at least three arguments
   * (`args[0]` is the program name), both the ID and the info valid, then,
   * when a mapper port is given, that port valid and the mapper reachable.
   */
  function Launch(args: seq<string>, validId: string -> bool, validPort: string -> bool,
                  mapperReachable: bool, controlPort: string): (o: Outcome)
    ensures o.Exit? ==> o.status != OK && o.stderr == HandleErrorMessage(o.status).stderr
    ensures o.Exit? && o.status == NumsOfArgs <==> |args| < 3
    ensures o.Exit? && o.status == InvalidChar <==>
      |args| >= 3 && !(validId(args[1]) && validId(args[2]))
    ensures o.Exit? && o.status == InvalidPort <==>
      |args| >= 4 && validId(args[1]) && validId(args[2]) && !validPort(args[3])
    ensures o.Exit? && o.status == InvalidMap <==>
      |args| >= 4 && validId(args[1]) && validId(args[2]) && validPort(args[3]) && !mapperReachable
    ensures o.Serve? ==> o.stdout == controlPort + "\n"
    ensures o.Serve? ==> (o.announcement.Some? <==> |args| >= 4)
    ensures o.Serve? && |args| >= 4 ==> o.announcement == Some(Announcement(args[1], controlPort))
  {
    if |args| < 3 then Fail(NumsOfArgs)
    else if !validId(args[1]) || !validId(args[2]) then Fail(InvalidChar)
    else if |args| >= 4 && !validPort(args[3]) then Fail(InvalidPort)
    else if |args| >= 4 && !mapperReachable then Fail(InvalidMap)
    else Serve(if |args| >= 4 then Some(Announcement(args[1], controlPort)) else None, controlPort + "\n")
  }

  /** Start-up serves exactly when every check passes. */
  lemma LaunchServesIff(args: seq<string>, validId: string -> bool, validPort: string -> bool,
                        mapperReachable: bool, controlPort: string)
    ensures Launch(args, validId, validPort, mapperReachable, controlPort).Serve? <==>
      |args| >= 3 && validId(args[1]) && validId(args[2]) &&
      (|args| >= 4 ==> validPort(args[3]) && mapperReachable)
  {
  }
}
