/** The client's reader thread (`client/ClientThreadIncoming`): each line
    from the server is either shown in the message area, taken as the
    logout signal, or ignored. */
module ClientIncoming {
  import opened Prelude

  const Message := "/MSGE"
  const QuitAck := "/QUIT"

  /** What the reader thread affects: the text of the message area, whether
      `logout` has run (which also interrupts this thread), and how many
      times the "server unreachable" dialog was shown. */
  datatype View = View(area: string, loggedOut: bool, alerts: nat)

  /** `incomingMsg` on a non-null line. */
  function IncomingMsg(v: View, message: string): (r: View)
    ensures r.alerts == v.alerts
    ensures r.area == v.area || r.loggedOut == v.loggedOut
    ensures |v.area| <= |r.area| && r.area[..|v.area|] == v.area
    ensures r.loggedOut <==> v.loggedOut || message == QuitAck
  {
    BranchesDisjoint(message);
    if StartsWith(message, Message) then v.(area := v.area + message[5..] + "\n")
    else if message == QuitAck then v.(loggedOut := true)
    else v
  }

  /** `/QUIT` does not start with `/MSGE`, so no line takes both branches. */
  lemma BranchesDisjoint(message: string)
    ensures !(StartsWith(message, Message) && message == QuitAck)
  {
    if message == QuitAck {
      assert message[4] != Message[4];
    }
  }

  /** A `/MSGE` line appends its text after the marker and a newline; the
      exact line `/QUIT` logs out; every other line has no effect. */
  lemma IncomingMsgCases(v: View, message: string)
    ensures StartsWith(message, Message) ==>
      IncomingMsg(v, message) == v.(area := v.area + message[|Message|..] + "\n")
    ensures message == QuitAck ==> IncomingMsg(v, message) == v.(loggedOut := true)
    ensures !StartsWith(message, Message) && message != QuitAck ==> IncomingMsg(v, message) == v
  {
    BranchesDisjoint(message);
  }

  /** What the message area gains from one line read. */
  function Chunk(line: Option<string>): string {
    if line.Some? && StartsWith(line.value, Message) then line.value[|Message|..] + "\n" else ""
  }

  /** The text the message area gains from a run of lines: the payload of
      each `/MSGE` line, newline-terminated, in arrival order. */
  function Transcript(lines: seq<Option<string>>): string {
    if |lines| == 0 then "" else Chunk(lines[0]) + Transcript(lines[1..])
  }

  /** How many of the lines read were null (end-of-stream), each of which
      shows the "server unreachable" dialog once. */
  function Nulls(lines: seq<Option<string>>): nat {
    if |lines| == 0 then 0 else (if lines[0].None? then 1 else 0) + Nulls(lines[1..])
  }

  /** One pass of the loop body: a null line goes to the error branch,
      anything else to `incomingMsg`. */
  function Consume(v: View, line: Option<string>): View {
    match line
    case None => v.(alerts := v.alerts + 1)
    case Some(message) => IncomingMsg(v, message)
  }

  /** The `run` loop over the lines read, until the thread is interrupted
      by a logout. A null line (end-of-stream) is not decoded: it lands in
      the error branch, which shows the dialog and keeps looping. Returns
      the view and the number of lines consumed. */
  function Run(v: View, lines: seq<Option<string>>): (r: (View, nat))
    requires !v.loggedOut
    ensures r.1 <= |lines|
    ensures r.0.loggedOut <==> (r.1 > 0 && lines[r.1 - 1] == Some(QuitAck))
    ensures !r.0.loggedOut ==> r.1 == |lines|
    ensures forall j :: 0 <= j < r.1 - 1 ==> lines[j] != Some(QuitAck)
    ensures r.0.area == v.area + Transcript(lines[..r.1])
    ensures r.0.alerts == v.alerts + Nulls(lines[..r.1])
    decreases |lines|
  {
    if |lines| == 0 then (v, 0)
    else
      var v' := Consume(v, lines[0]);
      PrefixUnfolds(lines, 0);
      if v'.loggedOut then
        BranchesDisjoint(QuitAck);
        (v', 1)
      else
        ConsumeAppendsChunk(v, lines[0]);
        var r := Run(v', lines[1..]);
        PrefixUnfolds(lines, r.1);
        AppendAssociates(v.area, Chunk(lines[0]), Transcript(lines[1..][..r.1]));
        (r.0, r.1 + 1)
  }

  lemma AppendAssociates(a: string, b: string, c: string)
    ensures a + (b + c) == (a + b) + c
  {
  }

  /** The first `k + 1` lines are the first line followed by the first `k`
      of the rest. */
  lemma PrefixUnfolds(lines: seq<Option<string>>, k: nat)
    requires k < |lines|
    ensures Transcript(lines[..k + 1]) == Chunk(lines[0]) + Transcript(lines[1..][..k])
    ensures Nulls(lines[..k + 1]) == (if lines[0].None? then 1 else 0) + Nulls(lines[1..][..k])
    ensures forall j :: 0 <= j < k ==> lines[1..][j] == lines[j + 1]
  {
    assert lines[..k + 1][1..] == lines[1..][..k];
  }

  /** A line other than `/QUIT` leaves the session logged in and adds its
      chunk to the area. */
  lemma ConsumeAppendsChunk(v: View, line: Option<string>)
    requires !v.loggedOut && line != Some(QuitAck)
    ensures !Consume(v, line).loggedOut
    ensures Consume(v, line).area == v.area + Chunk(line)
  {
    if line.Some? {
      IncomingMsgCases(v, line.value);
    }
  }

  /** Without a logout line, every line is read and the message area ends
      up as it was followed by the transcript of all of them. */
  lemma RunAppendsTranscript(v: View, lines: seq<Option<string>>)
    requires !v.loggedOut
    requires forall j :: 0 <= j < |lines| ==> lines[j] != Some(QuitAck)
    ensures Run(v, lines).0.area == v.area + Transcript(lines)
    ensures Run(v, lines).1 == |lines|
  {
    assert lines[..|lines|] == lines;
  }

  /** End-of-stream is never decoded: it leaves the area and the login
      state alone and only raises the alert. */
  lemma EndOfStreamOnlyAlerts(v: View, lines: seq<Option<string>>)
    requires !v.loggedOut && |lines| > 0 && lines[0].None?
    ensures Run(v, lines) == (var r := Run(v.(alerts := v.alerts + 1), lines[1..]); (r.0, r.1 + 1))
  {
  }
}
