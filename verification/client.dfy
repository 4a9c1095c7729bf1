/** The desktop client (`client/ChatClient`): the login loop run after
    connecting, the nickname dialog, and the encoding of what the user types
    into one wire line per Enter. The client uses its own markers, which
    are not the server's. */
module ChatClient {
  import opened Prelude

  const NameRequest := "/NME"
  const NameAccepted := "/NOK"
  const UserCommand := "/USR"
  const QuitCommand := "/QIT"
  const SayCommand := "/MSG"

  // ---------------------------------------------------------------------
  // getName

  /** How the nickname dialog loop ended, after `asked` dialogs. */
  datatype Ask = Chosen(nick: string, asked: nat) | Cancelled(asked: nat) | StillAsking

  /** What the dialog loop does with a run of answers, each the text typed
      or None when the dialog was cancelled (Java then calls `isEmpty` on
      null and throws): the first non-empty answer is returned, a cancel
      ends the loop, and StillAsking means every answer so far was empty
      and the dialog would be shown again. */
  function NameDialog(answers: seq<Option<string>>): (r: Ask)
    ensures r.Chosen? ==>
      && r.nick != ""
      && 0 < r.asked <= |answers| && answers[r.asked - 1] == Some(r.nick)
      && forall j :: 0 <= j < r.asked - 1 ==> answers[j] == Some("")
    ensures r.Cancelled? ==>
      && 0 < r.asked <= |answers| && answers[r.asked - 1].None?
      && forall j :: 0 <= j < r.asked - 1 ==> answers[j] == Some("")
    ensures r.StillAsking? <==> forall j :: 0 <= j < |answers| ==> answers[j] == Some("")
    decreases |answers|
  {
    if |answers| == 0 then StillAsking
    else if answers[0].None? then Cancelled(1)
    else if answers[0].value != "" then Chosen(answers[0].value, 1)
    else
      var rest := answers[1..];
      assert forall j :: 0 <= j < |rest| ==> rest[j] == answers[j + 1];
      match NameDialog(rest)
      case Chosen(nick, asked) => Chosen(nick, asked + 1)
      case Cancelled(asked) => Cancelled(asked + 1)
      case StillAsking => StillAsking
  }

  /** `getName`: the do-while loop that shows the dialog until a non-empty
      nickname comes back. */
  method GetName(answers: seq<Option<string>>) returns (r: Ask)
    ensures r == NameDialog(answers)
  {
    var i := 0;
    while i < |answers|
      invariant 0 <= i <= |answers|
      invariant forall j :: 0 <= j < i ==> answers[j] == Some("")
    {
      match answers[i]
      case None =>
        r := Cancelled(i + 1);
        DialogOutcomeUnique(answers, r, NameDialog(answers));
        return;
      case Some(text) =>
        if text != "" {
          r := Chosen(text, i + 1);
          DialogOutcomeUnique(answers, r, NameDialog(answers));
          return;
        }
      i := i + 1;
    }
    r := StillAsking;
  }

  /** The facts `NameDialog` ensures about its result. */
  predicate DialogOutcome(answers: seq<Option<string>>, r: Ask) {
    match r
    case Chosen(nick, asked) =>
      && 0 < asked <= |answers| && answers[asked - 1] == Some(nick) && nick != ""
      && forall j :: 0 <= j < asked - 1 ==> answers[j] == Some("")
    case Cancelled(asked) =>
      && 0 < asked <= |answers| && answers[asked - 1].None?
      && forall j :: 0 <= j < asked - 1 ==> answers[j] == Some("")
    case StillAsking => forall j :: 0 <= j < |answers| ==> answers[j] == Some("")
  }

  /** The answers decide how the dialog ends: two outcomes that both fit
      them are the same. */
  lemma DialogOutcomeUnique(answers: seq<Option<string>>, a: Ask, b: Ask)
    requires DialogOutcome(answers, a) && DialogOutcome(answers, b)
    ensures a == b
  {
  }

  // ---------------------------------------------------------------------
  // login

  /** The result of one `readLine` during login. */
  datatype LoginRead = Received(text: string) | EndOfStream | ReadFailure

  /** One line read during login, with the answers typed into the nickname
      dialog if that line asks for one. */
  datatype LoginEvent = LoginEvent(line: LoginRead, answers: seq<Option<string>>)

  /** How the login loop stands:
      LoggedIn   `/NOK` was read; the reader thread is started;
      Waiting    every line so far has been handled, the next is awaited;
      Naming     the nickname dialog is still showing;
      Failed     a read threw IOException: "failed to login!" is logged and
                 `login` returns without starting the reader thread;
      Crashed    end-of-stream (`input.equals` on null) or a cancelled
                 dialog (`user.isEmpty` on null) threw NullPointerException,
                 which `login` does not catch. */
  datatype Status = LoggedIn | Waiting | Naming | Failed | Crashed

  /** Where the login loop stands after reading `consumed` events: its
      status, the current nickname and the lines sent to the server. */
  datatype LoginRun = LoginRun(status: Status, user: string, sent: seq<string>, consumed: nat)

  /** A `/NME` prompt whose dialog returned a nickname. */
  predicate ChoosesName(e: LoginEvent) {
    e.line == Received(NameRequest) && NameDialog(e.answers).Chosen?
  }

  /** An event after which the loop goes on reading: a line other than
      `/NOK`, and if it is `/NME`, one whose dialog returned. */
  predicate Passes(e: LoginEvent) {
    && e.line.Received? && e.line.text != NameAccepted
    && (e.line.text == NameRequest ==> NameDialog(e.answers).Chosen?)
  }

  /** How the loop ends on an event it does not pass. */
  function Outcome(e: LoginEvent): (s: Status)
    requires !Passes(e)
    ensures s.LoggedIn? <==> e.line == Received(NameAccepted)
    ensures s.Naming? <==> e.line == Received(NameRequest) && NameDialog(e.answers).StillAsking?
    ensures s.Failed? <==> e.line.ReadFailure?
    ensures s.Crashed? <==>
      || e.line.EndOfStream?
      || (e.line == Received(NameRequest) && NameDialog(e.answers).Cancelled?)
    ensures !s.Waiting?
  {
    match e.line
    case EndOfStream => Crashed
    case ReadFailure => Failed
    case Received(l) =>
      if l == NameAccepted then LoggedIn
      else if NameDialog(e.answers).Cancelled? then Crashed
      else Naming
  }

  /** The nickname after an event: the one chosen, if it chose one. */
  function NickAfter(user: string, e: LoginEvent): string {
    if ChoosesName(e) then NameDialog(e.answers).nick else user
  }

  /** `out.println("/USR" + user)` after a `/NME` prompt whose dialog
      returned; nothing otherwise. */
  function Said(e: LoginEvent): (r: seq<string>)
    ensures forall line :: line in r ==> |line| > |UserCommand| && line[..|UserCommand|] == UserCommand
  {
    if ChoosesName(e) then [UserCommand + NameDialog(e.answers).nick] else []
  }

  /** The `/USR` lines a run of events makes the client send, in order. */
  function SentFor(events: seq<LoginEvent>): (r: seq<string>)
    ensures forall line :: line in r ==> |line| > |UserCommand| && line[..|UserCommand|] == UserCommand
  {
    if |events| == 0 then [] else Said(events[0]) + SentFor(events[1..])
  }

  /** The nickname of the last event that chose one, or `user` if none did. */
  function LastNick(user: string, events: seq<LoginEvent>): string {
    if |events| == 0 then user
    else if ChoosesName(events[|events| - 1]) then NameDialog(events[|events| - 1].answers).nick
    else LastNick(user, events[..|events| - 1])
  }

  /** Reading the first event and then the rest: an event that chooses a
      name replaces the starting nickname. */
  lemma {:induction false} LastNickFirst(user: string, e: LoginEvent, rest: seq<LoginEvent>)
    ensures LastNick(user, [e] + rest) == LastNick(NickAfter(user, e), rest)
    decreases |rest|
  {
    if |rest| > 0 {
      var all := [e] + rest;
      assert all[..|all| - 1] == [e] + rest[..|rest| - 1];
      assert all[|all| - 1] == rest[|rest| - 1];
      LastNickFirst(user, e, rest[..|rest| - 1]);
    } else {
      assert ([e] + rest)[..0] == [];
    }
  }

  /** The `while (!loggedIn)` loop of `login`, started with nickname `user`:
      it reads events while they pass, and stops at the first one that
      does not, with that event's outcome. */
  function RunLogin(user: string, events: seq<LoginEvent>): (r: LoginRun)
    ensures r.consumed <= |events|
    ensures forall j :: 0 <= j < r.consumed - 1 ==> Passes(events[j])
    ensures r.status.Waiting? <==> r.consumed == |events| && forall j :: 0 <= j < |events| ==> Passes(events[j])
    ensures !r.status.Waiting? ==>
      && 0 < r.consumed && !Passes(events[r.consumed - 1])
      && r.status == Outcome(events[r.consumed - 1])
    decreases |events|
  {
    if |events| == 0 then LoginRun(Waiting, user, [], 0)
    else
      var e := events[0];
      if !Passes(e) then LoginRun(Outcome(e), user, [], 1)
      else
        var rest := RunLogin(NickAfter(user, e), events[1..]);
        assert forall j :: 0 <= j < rest.consumed ==> events[1..][j] == events[j + 1];
        LoginRun(rest.status, rest.user, Said(e) + rest.sent, rest.consumed + 1)
  }

  /** The lines login sends are exactly one `/USR` line per `/NME` prompt
      read whose dialog returned, with that nickname, in order. */
  lemma {:induction false} RunLoginSends(user: string, events: seq<LoginEvent>)
    ensures var r := RunLogin(user, events); r.sent == SentFor(events[..r.consumed])
    decreases |events|
  {
    if |events| > 0 {
      var e := events[0];
      if Passes(e) {
        var rest := RunLogin(NickAfter(user, e), events[1..]);
        RunLoginSends(NickAfter(user, e), events[1..]);
        PrefixFirst(events, rest.consumed);
      } else {
        PrefixFirst(events, 0);
      }
    }
  }

  /** The nickname login ends with is the last one chosen, or the one it
      started with when none was. */
  lemma {:induction false} RunLoginNick(user: string, events: seq<LoginEvent>)
    ensures var r := RunLogin(user, events); r.user == LastNick(user, events[..r.consumed])
    decreases |events|
  {
    if |events| > 0 {
      var e := events[0];
      if Passes(e) {
        var rest := RunLogin(NickAfter(user, e), events[1..]);
        RunLoginNick(NickAfter(user, e), events[1..]);
        PrefixFirst(events, rest.consumed);
        LastNickFirst(user, e, events[1..][..rest.consumed]);
      } else {
        PrefixFirst(events, 0);
        LastNickFirst(user, e, []);
      }
    }
  }

  /** The first `k + 1` events are the first event followed by the first `k`
      of the rest. */
  lemma PrefixFirst(events: seq<LoginEvent>, k: nat)
    requires k < |events|
    ensures events[..k + 1] == [events[0]] + events[1..][..k]
  {
  }

  /** A line that is neither `/NME` nor `/NOK` changes nothing: the client
      is still not logged in, has sent nothing, and reads the next line. */
  lemma OtherLoginLineIgnored(user: string, e: LoginEvent, events: seq<LoginEvent>)
    requires e.line.Received? && e.line.text != NameRequest && e.line.text != NameAccepted
    ensures var r := RunLogin(user, [e] + events); var r' := RunLogin(user, events);
      r.status == r'.status && r.user == r'.user && r.sent == r'.sent && r.consumed == r'.consumed + 1
  {
    assert ([e] + events)[1..] == events;
  }

  /** `/NOK` ends the loop at once, whatever follows. */
  lemma AcceptEndsLogin(user: string, e: LoginEvent, events: seq<LoginEvent>)
    requires e.line == Received(NameAccepted)
    ensures RunLogin(user, [e] + events) == LoginRun(LoggedIn, user, [], 1)
  {
  }

  /** A nickname always comes out of the dialog non-empty, so no line sent
      during login is the bare list-users command. */
  lemma LoginSendsNonEmptyNicknames(user: string, events: seq<LoginEvent>)
    ensures forall line :: line in RunLogin(user, events).sent ==> |line| > |UserCommand| && line != UserCommand
  {
    RunLoginSends(user, events);
  }

  // ---------------------------------------------------------------------
  // Enter key and window close

  /** ASCII upper-casing of one character (`toUpperCase` beyond ASCII is not
      modelled). */
  function UpperChar(c: char): char {
    if 'a' <= c <= 'z' then (c as int - 32) as char else c
  }

  function ToUpper(s: string): (r: string)
    ensures |r| == |s|
    ensures forall i :: 0 <= i < |s| ==> r[i] == UpperChar(s[i])
  {
    seq(|s|, i requires 0 <= i < |s| => UpperChar(s[i]))
  }

  /** Equal up to the case of ASCII letters. */
  predicate EqualsIgnoreCase(a: string, b: string) {
    |a| == |b| && forall i :: 0 <= i < |a| ==> UpperChar(a[i]) == UpperChar(b[i])
  }

  /** Comparing the upper-cased input against an upper-case word is a
      case-insensitive comparison with that word. */
  lemma UpperEqualsIffIgnoreCase(text: string, word: string)
    requires forall i :: 0 <= i < |word| ==> UpperChar(word[i]) == word[i]
    ensures ToUpper(text) == word <==> EqualsIgnoreCase(text, word)
  {
    if EqualsIgnoreCase(text, word) {
      assert forall i :: 0 <= i < |text| ==> ToUpper(text)[i] == word[i];
    }
  }

  /** What pressing Enter produces: the one line sent and the new content
      of the text field. */
  datatype Entered = Entered(sent: string, field: string)

  /** The Enter handler: `USERS` in any case asks for the user list, `QUIT`
      in any case quits as the current user, anything else is sent
      verbatim as a chat message. The field is cleared in every case. */
  function OnEnter(text: string, user: string): (r: Entered)
    ensures r.field == ""
    ensures EqualsIgnoreCase(text, "USERS") ==> r.sent == UserCommand
    ensures EqualsIgnoreCase(text, "QUIT") ==> r.sent == QuitCommand + user
    ensures !EqualsIgnoreCase(text, "USERS") && !EqualsIgnoreCase(text, "QUIT") ==> r.sent == SayCommand + text
  {
    UpperEqualsIffIgnoreCase(text, "USERS");
    UpperEqualsIffIgnoreCase(text, "QUIT");
    if ToUpper(text) == "USERS" then Entered(UserCommand, "")
    else if ToUpper(text) == "QUIT" then Entered(QuitCommand + user, "")
    else Entered(SayCommand + text, "")
  }

  /** The line sent when the window is closed. */
  function CloseLine(user: string): string {
    QuitCommand + user
  }

  /** Closing the window sends the same line as typing `quit`. */
  lemma CloseMatchesTypedQuit(user: string)
    ensures CloseLine(user) == OnEnter("quit", user).sent
  {
    assert EqualsIgnoreCase("quit", "QUIT");
  }

  /** What a line sent by the client asks for. */
  datatype Command = ListUsers | Quit(user: string) | Say(text: string)

  /** Reads a client line back into the command it encodes. */
  function DecodeCommand(line: string): Option<Command> {
    if line == UserCommand then Some(ListUsers)
    else if StartsWith(line, QuitCommand) then Some(Quit(line[|QuitCommand|..]))
    else if StartsWith(line, SayCommand) then Some(Say(line[|SayCommand|..]))
    else None
  }

  /** Every Enter is recoverable from its one line: list, quit with the
      current user, or the typed text exactly. */
  lemma EnterRoundTrip(text: string, user: string)
    ensures DecodeCommand(OnEnter(text, user).sent) ==
      if EqualsIgnoreCase(text, "USERS") then Some(ListUsers)
      else if EqualsIgnoreCase(text, "QUIT") then Some(Quit(user))
      else Some(Say(text))
  {
    var sent := OnEnter(text, user).sent;
    if EqualsIgnoreCase(text, "USERS") {
    } else if EqualsIgnoreCase(text, "QUIT") {
      assert sent[..|QuitCommand|] == QuitCommand;
      assert sent[|QuitCommand|..] == user;
      assert sent != UserCommand by { assert sent[1] != UserCommand[1]; }
    } else {
      assert sent[..|SayCommand|] == SayCommand;
      assert sent[|SayCommand|..] == text;
      assert !StartsWith(sent, QuitCommand) by { assert sent[1] != QuitCommand[1]; }
    }
  }
}
