/**
  * What the SMTP fixture promises: its state depends on the bytes received and not on how they were cut into chunks,
  * a dot-stuffed message is recorded exactly, and which command can change the recipients of a recorded message.
  */
module SmtpProofs {
  import opened Text
  import opened Smtp

  // ---------------------------------------------------------------- cutting the stream

  lemma FirstCrlfStays(a: string, b: string)
    requires IndexOf(a, CRLF) != -1
    ensures IndexOf(a + b, CRLF) == IndexOf(a, CRLF)
  {
    var k := IndexOf(a, CRLF);
    var r := IndexOf(a + b, CRLF);
    assert (a + b)[k..k + 2] == a[k..k + 2];
    assert At(a + b, CRLF, k);
    assert (a + b)[r..r + 2] == a[r..r + 2];
    assert At(a, CRLF, r);
  }

  /** One step of the line loop. */
  function NextLine(f: Fixture, c: State): (r: State)
    requires IndexOf(c.buffered, CRLF) != -1
    ensures |r.buffered| < |c.buffered|
  {
    var end := IndexOf(c.buffered, CRLF);
    State(c.buffered[end + 2..], Handle(f, c.session, c.buffered[..end]))
  }

  lemma DrainStep(f: Fixture, c: State)
    ensures Drain(f, c) == if IndexOf(c.buffered, CRLF) == -1 then c else Drain(f, NextLine(f, c))
  {
    hide Handle, IndexOf;
  }

  lemma NextLineOfMore(f: Fixture, c: State, b: string)
    requires IndexOf(c.buffered, CRLF) != -1
    ensures IndexOf(c.buffered + b, CRLF) != -1
    ensures NextLine(f, State(c.buffered + b, c.session)) == State(NextLine(f, c).buffered + b, NextLine(f, c).session)
  {
    hide Handle, IndexOf;
    var a := c.buffered;
    var end := IndexOf(a, CRLF);
    FirstCrlfStays(a, b);
    assert (a + b)[..end] == a[..end] && (a + b)[end + 2..] == a[end + 2..] + b;
  }

  /** Receiving `b` after the lines of the buffer were handled is receiving it before. */
  lemma {:induction false} DrainThenReceive(f: Fixture, c: State, b: string)
    ensures Drain(f, State(c.buffered + b, c.session)) == Receive(f, Drain(f, c), b)
    decreases |c.buffered|
  {
    hide Drain, NextLine, IndexOf;
    DrainStep(f, c);
    if IndexOf(c.buffered, CRLF) != -1 {
      NextLineOfMore(f, c, b);
      DrainStep(f, State(c.buffered + b, c.session));
      DrainThenReceive(f, NextLine(f, c), b);
    }
  }

  /** After each event the buffer holds no line end. */
  lemma {:induction false} NoCrlfLeft(f: Fixture, c: State)
    ensures IndexOf(Drain(f, c).buffered, CRLF) == -1
    decreases |c.buffered|
  {
    hide Drain, NextLine, IndexOf;
    DrainStep(f, c);
    if IndexOf(c.buffered, CRLF) != -1 { NoCrlfLeft(f, NextLine(f, c)); }
  }

  function ReceiveAll(f: Fixture, c: State, chunks: seq<string>): (r: State)
    decreases |chunks|
  {
    if chunks == [] then c else ReceiveAll(f, Receive(f, c, chunks[0]), chunks[1..])
  }

  /** Chunk by chunk or all at once: the same state, replies, logins and messages. */
  lemma {:induction false} ChunksDoNotMatter(f: Fixture, c: State, chunks: seq<string>)
    requires IndexOf(c.buffered, CRLF) == -1
    ensures ReceiveAll(f, c, chunks) == Receive(f, c, Concat(chunks))
    decreases |chunks|
  {
    hide Drain, IndexOf;
    if chunks == [] {
      assert c.buffered + "" == c.buffered;
      DrainStep(f, c);
    } else {
      var chunk, rest := chunks[0], Concat(chunks[1..]);
      var t := State(c.buffered + chunk, c.session);
      NoCrlfLeft(f, t);
      ChunksDoNotMatter(f, Receive(f, c, chunk), chunks[1..]);
      DrainThenReceive(f, t, rest);
      assert c.buffered + chunk + rest == c.buffered + (chunk + rest);
    }
  }

  /** Two ways to cut one stream, between CR and LF or anywhere else, leave the connection in the same state. */
  lemma CutsDoNotMatter(f: Fixture, chunks: seq<string>, others: seq<string>)
    requires Concat(chunks) == Concat(others)
    ensures ReceiveAll(f, Accepted(), chunks) == ReceiveAll(f, Accepted(), others)
  {
    ChunksDoNotMatter(f, Accepted(), chunks);
    ChunksDoNotMatter(f, Accepted(), others);
  }

  // ---------------------------------------------------------------- what every run keeps

  /** Line buffer empty outside DATA; the session's list and those of the recorded messages exist. */
  predicate Consistent(s: Session)
  {
    && (!s.inData ==> s.dataLines == [])
    && s.to < |s.arrays|
    && (forall i :: 0 <= i < |s.messages| ==> s.messages[i].to < |s.arrays|)
  }

  lemma HandleKeeps(f: Fixture, s: Session, line: string)
    requires Consistent(s)
    ensures Consistent(Handle(f, s, line))
    ensures s.messages <= Handle(f, s, line).messages
  {
    hide SignIn, SignInOrAsk, Join, AllUnstuffed, AddressOf, VerbOf, Argument;
  }

  lemma {:induction false} DrainKeeps(f: Fixture, c: State)
    requires Consistent(c.session)
    ensures Consistent(Drain(f, c).session) && c.session.messages <= Drain(f, c).session.messages
    decreases |c.buffered|
  {
    hide Drain, Handle, IndexOf;
    DrainStep(f, c);
    if IndexOf(c.buffered, CRLF) != -1 {
      HandleKeeps(f, c.session, c.buffered[..IndexOf(c.buffered, CRLF)]);
      DrainKeeps(f, NextLine(f, c));
    }
  }

  /** In every state a connection reaches, and no message is ever dropped or reordered. */
  lemma {:induction false} RunKeeps(f: Fixture, c: State, chunks: seq<string>)
    requires Consistent(c.session)
    ensures Consistent(ReceiveAll(f, c, chunks).session) && c.session.messages <= ReceiveAll(f, c, chunks).session.messages
    decreases |chunks|
  {
    hide Drain;
    if chunks != [] {
      DrainKeeps(f, State(c.buffered + chunks[0], c.session));
      RunKeeps(f, Receive(f, c, chunks[0]), chunks[1..]);
    }
  }

  /** Whatever a connection has received, no data line is held outside DATA. */
  lemma NoLinesOutsideData(f: Fixture, chunks: seq<string>)
    ensures Consistent(ReceiveAll(f, Accepted(), chunks).session)
    ensures var s := ReceiveAll(f, Accepted(), chunks).session; !s.inData ==> s.dataLines == []
  {
    RunKeeps(f, Accepted(), chunks);
  }

  // ---------------------------------------------------------------- dot-stuffing

  /** What a client sends for a line (RFC 5321, section 4.5.2). */
  function Stuffed(line: string): (r: string) { if "." <= line then "." + line else line }

  function AllStuffed(lines: seq<string>): (r: seq<string>)
    ensures |r| == |lines|
    ensures forall i :: 0 <= i < |lines| ==> r[i] == Stuffed(lines[i])
  {
    if lines == [] then [] else [Stuffed(lines[0])] + AllStuffed(lines[1..])
  }

  function OnWire(lines: seq<string>): (r: string)
  {
    if lines == [] then "" else Stuffed(lines[0]) + CRLF + OnWire(lines[1..])
  }

  predicate IsLine(line: string) { IndexOf(line, CRLF) == -1 }

  predicate AreLines(lines: seq<string>) { forall i :: 0 <= i < |lines| ==> IsLine(lines[i]) }

  lemma UnstuffedUndoesStuffed(line: string)
    ensures Unstuffed(Stuffed(line)) == line && Stuffed(line) != "."
  {
  }

  lemma AllUnstuffedUndoesAllStuffed(lines: seq<string>)
    ensures AllUnstuffed(AllStuffed(lines)) == lines
  {
    hide Unstuffed, Stuffed;
    forall i | 0 <= i < |lines| ensures AllUnstuffed(AllStuffed(lines))[i] == lines[i] { UnstuffedUndoesStuffed(lines[i]); }
  }

  lemma StuffedIsLine(line: string)
    requires IsLine(line)
    ensures IsLine(Stuffed(line))
  {
    hide IndexOf, At;
    if "." <= line {
      var k := IndexOf("." + line, CRLF);
      if k != -1 {
        AtAfterDot(line, k);
      }
    }
  }

  lemma AtAfterDot(line: string, i: nat)
    requires At("." + line, CRLF, i)
    ensures At(line, CRLF, i - 1)
  {
    var s := "." + line;
    assert s[i..i + 2][0] == s[i] == '\r';
    assert s[0] == '.';
    assert s[i] == line[i - 1] && s[i + 1] == line[i];
    assert s[i..i + 2] == [s[i], s[i + 1]];
    assert line[i - 1..i + 1] == [line[i - 1], line[i]];
  }

  /** A line followed by its line end is cut exactly there, even when the line itself ends in CR. */
  lemma LineEnds(line: string, rest: string)
    requires IsLine(line)
    ensures IndexOf(line + CRLF + rest, CRLF) == |line|
  {
    var s := line + CRLF + rest;
    assert At(s, CRLF, |line|);
    forall i | 0 <= i < |line| ensures !At(s, CRLF, i) {
      assert !At(line, CRLF, i);
      if i + 2 <= |line| {
        assert s[i..i + 2] == line[i..i + 2];
      } else {
        assert s[i..i + 2][1] == s[i + 1] == '\r';
      }
    }
  }

  lemma NextLineOf(f: Fixture, s: Session, line: string, rest: string)
    requires IsLine(line)
    ensures Drain(f, State(line + CRLF + rest, s)) == Drain(f, State(rest, Handle(f, s, line)))
  {
    hide Drain, Handle, IndexOf;
    LineEnds(line, rest);
    var buffered := line + CRLF + rest;
    DrainStep(f, State(buffered, s));
    assert buffered[..|line|] == line && buffered[|line| + 2..] == rest;
  }

  lemma LineIsCollected(f: Fixture, s: Session, line: string, rest: string)
    requires IsLine(line) && s.inData
    ensures Drain(f, State(Stuffed(line) + CRLF + rest, s)) == Drain(f, State(rest, s.(dataLines := s.dataLines + [Stuffed(line)])))
  {
    hide Drain, IsLine, Stuffed, Join, AllUnstuffed;
    StuffedIsLine(line);
    UnstuffedUndoesStuffed(line);
    NextLineOf(f, s, Stuffed(line), rest);
  }

  lemma WireHead(lines: seq<string>, rest: string)
    ensures lines == [] ==> OnWire(lines) + rest == rest && AllStuffed(lines) == []
    ensures lines != [] ==>
              && OnWire(lines) + rest == Stuffed(lines[0]) + CRLF + (OnWire(lines[1..]) + rest)
              && AllStuffed(lines) == [Stuffed(lines[0])] + AllStuffed(lines[1..])
  {
    hide Stuffed;
  }

  /** While receiving, the stuffed lines are only collected. */
  lemma {:induction false} LinesAreCollected(f: Fixture, s: Session, lines: seq<string>, rest: string)
    requires AreLines(lines) && s.inData
    ensures Drain(f, State(OnWire(lines) + rest, s)) == Drain(f, State(rest, s.(dataLines := s.dataLines + AllStuffed(lines))))
    decreases |lines|
  {
    hide Drain, IsLine, Stuffed, OnWire, AllStuffed;
    WireHead(lines, rest);
    if lines == [] {
      assert s.dataLines + [] == s.dataLines;
    } else {
      var one := [Stuffed(lines[0])];
      LineIsCollected(f, s, lines[0], OnWire(lines[1..]) + rest);
      LinesAreCollected(f, s.(dataLines := s.dataLines + one), lines[1..], rest);
      assert s.dataLines + (one + AllStuffed(lines[1..])) == s.dataLines + one + AllStuffed(lines[1..]);
    }
  }

  /**
    * DATA, any lines dot-stuffed, and the final dot record exactly those lines joined by CRLF. Nothing else of the
    * session changes but the two replies, so none of the lines ran as a command.
    */
  lemma MessageIsRecorded(f: Fixture, s: Session, data: string, lines: seq<string>)
    requires IsLine(data) && VerbOf(f, data) == Data && AreLines(lines)
    requires !s.inData && !s.awaitingPlain && s.dataLines == []
    ensures Receive(f, State("", s), data + CRLF + OnWire(lines) + "." + CRLF) ==
            State("", s.(messages := s.messages + [Message(s.from, s.to, Join(lines, CRLF), s.user)],
                         replies := s.replies + [SendData, Queued]))
  {
    hide Drain, IndexOf, OnWire, VerbOf, Join;
    var tail := "." + CRLF;
    var wire := data + CRLF + OnWire(lines) + "." + CRLF;
    assert "" + wire == data + CRLF + (OnWire(lines) + tail);
    NextLineOf(f, s, data, OnWire(lines) + tail);
    var receiving := s.(inData := true, replies := s.replies + [SendData]);
    LinesAreCollected(f, receiving, lines, tail);
    assert [] + AllStuffed(lines) == AllStuffed(lines);
    DotEndsMessage(f, receiving.(dataLines := AllStuffed(lines)), lines);
    assert s.replies + [SendData] + [Queued] == s.replies + [SendData, Queued];
  }

  /** However the bytes of that message are cut into chunks. */
  lemma MessageIsRecordedHoweverCut(f: Fixture, s: Session, data: string, lines: seq<string>, chunks: seq<string>)
    requires IsLine(data) && VerbOf(f, data) == Data && AreLines(lines)
    requires !s.inData && !s.awaitingPlain && s.dataLines == []
    requires Concat(chunks) == data + CRLF + OnWire(lines) + "." + CRLF
    ensures ReceiveAll(f, State("", s), chunks) ==
            State("", s.(messages := s.messages + [Message(s.from, s.to, Join(lines, CRLF), s.user)],
                         replies := s.replies + [SendData, Queued]))
  {
    hide Receive, ReceiveAll, OnWire, VerbOf, Join, Concat;
    DotIsLine();
    ChunksDoNotMatter(f, State("", s), chunks);
    MessageIsRecorded(f, s, data, lines);
  }

  lemma DotEndsMessage(f: Fixture, s: Session, lines: seq<string>)
    requires s.inData && s.dataLines == AllStuffed(lines)
    ensures Drain(f, State("." + CRLF, s)) ==
            State("", Replied(s.(inData := false, dataLines := [],
                                 messages := s.messages + [Message(s.from, s.to, Join(lines, CRLF), s.user)]), Queued))
  {
    hide Drain, IndexOf, Join, AllUnstuffed, AllStuffed;
    AllUnstuffedUndoesAllStuffed(lines);
    DotIsLine();
    assert "." + CRLF == "." + CRLF + "";
    NextLineOf(f, s, ".", "");
    DrainStep(f, State("", Handle(f, s, ".")));
  }

  lemma DotIsLine()
    ensures IsLine(".") && IndexOf("", CRLF) == -1
  {
  }

  /** What RFC 5321, section 4.5.2, has a receiver do with a line of a message: delete a leading dot. */
  function RfcUnstuffed(line: string): (r: string) { if "." <= line then line[1..] else line }

  /** The fixture does the same exactly for the lines a client that stuffs can send. */
  lemma UnstuffingAgrees(line: string)
    requires line != "."
    ensures Unstuffed(line) == RfcUnstuffed(line) <==> !("." <= line) || ".." <= line
    ensures Unstuffed(line) == RfcUnstuffed(line) <==> exists sent :: Stuffed(sent) == line
  {
    if "." <= line && !(".." <= line) {
      assert |Unstuffed(line)| != |RfcUnstuffed(line)|;
      forall sent ensures Stuffed(sent) != line {
        UnstuffedUndoesStuffed(sent);
      }
    } else {
      assert Stuffed(RfcUnstuffed(line)) == line;
    }
  }

  // ---------------------------------------------------------------- the shared recipient list

  /** A recorded message still uses the session's recipient list. */
  predicate Shared(s: Session) { exists i :: 0 <= i < |s.messages| && s.messages[i].to == s.to }

  function Recipients(s: Session, i: nat): (r: seq<string>)
    requires Consistent(s) && i < |s.messages|
  {
    s.arrays[s.messages[i].to]
  }

  /** The line runs as the command `verb`. */
  predicate RunsAs(f: Fixture, s: Session, line: string, verb: Verb)
  {
    !s.inData && !s.awaitingPlain && VerbOf(f, line) == verb
  }

  lemma ArraysChange(f: Fixture, s: Session, line: string)
    requires Consistent(s)
    ensures var t := Handle(f, s, line);
            if RunsAs(f, s, line, Rcpt) then
              t.to == s.to && t.arrays == s.arrays[s.to := s.arrays[s.to] + [AddressOf(Argument(line))]] && t.messages == s.messages
            else if RunsAs(f, s, line, Mail) || RunsAs(f, s, line, Rset) then
              t.to == |s.arrays| && t.arrays == s.arrays + [[]] && t.messages == s.messages
            else
              && t.to == s.to && t.arrays == s.arrays && s.messages <= t.messages
              && (if s.inData && line == "." then |t.messages| == |s.messages| + 1 && t.messages[|s.messages|].to == s.to
                  else t.messages == s.messages)
  {
    hide SignIn, SignInOrAsk, Join, AllUnstuffed, AddressOf, VerbOf, Argument;
  }

  /**
    * A line leaves the recipients of every recorded message alone, unless it runs as RCPT while the session still
    * shares its list with a recorded message.
    */
  lemma RecordedRecipientsChange(f: Fixture, s: Session, line: string)
    requires Consistent(s)
    ensures Consistent(Handle(f, s, line)) && s.messages <= Handle(f, s, line).messages
    ensures (forall i :: 0 <= i < |s.messages| ==> Recipients(Handle(f, s, line), i) == Recipients(s, i)) <==>
            !(RunsAs(f, s, line, Rcpt) && Shared(s))
  {
    hide Handle, RunsAs;
    HandleKeeps(f, s, line);
    ArraysChange(f, s, line);
    var t := Handle(f, s, line);
    assert forall i :: 0 <= i < |s.messages| ==> t.messages[i] == s.messages[i];
    if RunsAs(f, s, line, Rcpt) && Shared(s) {
      var i :| 0 <= i < |s.messages| && s.messages[i].to == s.to;
      assert |Recipients(t, i)| != |Recipients(s, i)|;
    }
  }

  /** The list is shared from the end of a message until the next MAIL or RSET. */
  lemma SharingBeginsAndEnds(f: Fixture, s: Session, line: string)
    requires Consistent(s)
    ensures Shared(Handle(f, s, line)) <==>
            (s.inData && line == ".") || (Shared(s) && !RunsAs(f, s, line, Mail) && !RunsAs(f, s, line, Rset))
  {
    hide Handle;
    ArraysChange(f, s, line);
    var t := Handle(f, s, line);
    if s.inData && line == "." {
      assert t.messages[|s.messages|].to == t.to;
    } else {
      assert forall i :: 0 <= i < |s.messages| ==> t.messages[i] == s.messages[i];
    }
  }

  // ---------------------------------------------------------------- signing in

  /** The name of the last accepted login. */
  function LastAccepted(logins: seq<Login>): (r: Option<string>)
  {
    if logins == [] then None
    else
      var last := logins[|logins| - 1];
      if last.accepted then Some(last.user) else LastAccepted(logins[..|logins| - 1])
  }

  /** The verdicts among the replies, in order. */
  function Verdicts(replies: seq<Reply>): (r: seq<bool>)
  {
    if replies == [] then []
    else
      var last := replies[|replies| - 1];
      Verdicts(replies[..|replies| - 1]) + (if last.SignedIn? then [true] else if last.SignInRefused? then [false] else [])
  }

  function Accepts(logins: seq<Login>): (r: seq<bool>)
    ensures |r| == |logins| && forall i :: 0 <= i < |logins| ==> r[i] == logins[i].accepted
  {
    if logins == [] then [] else Accepts(logins[..|logins| - 1]) + [logins[|logins| - 1].accepted]
  }

  predicate RightPassword(f: Fixture, login: Login) { f.password.None? || login.password == f.password.value }

  /** The message names a user who had signed in when it was recorded, if any. */
  ghost predicate NamesUser(logins: seq<Login>, m: Message)
  {
    exists n :: 0 <= n <= |logins| && m.user == LastAccepted(logins[..n])
  }

  /**
    * The session's user is the one of the last accepted login; a login was accepted exactly with the right password;
    * each login was answered with its verdict, in order; and recorded messages name users who had signed in.
    */
  ghost predicate LoginsHold(f: Fixture, s: Session)
  {
    && s.user == LastAccepted(s.logins)
    && (forall i :: 0 <= i < |s.logins| ==> (s.logins[i].accepted <==> RightPassword(f, s.logins[i])))
    && Verdicts(s.replies) == Accepts(s.logins)
    && (forall i :: 0 <= i < |s.messages| ==> NamesUser(s.logins, s.messages[i]))
  }

  lemma OneMoreReply(replies: seq<Reply>, reply: Reply)
    ensures Verdicts(replies + [reply]) ==
            Verdicts(replies) + (if reply.SignedIn? then [true] else if reply.SignInRefused? then [false] else [])
  {
    assert (replies + [reply])[..|replies|] == replies;
  }

  lemma OneMoreLogin(logins: seq<Login>, login: Login)
    ensures LastAccepted(logins + [login]) == if login.accepted then Some(login.user) else LastAccepted(logins)
    ensures Accepts(logins + [login]) == Accepts(logins) + [login.accepted]
    ensures forall m :: NamesUser(logins, m) ==> NamesUser(logins + [login], m)
  {
    var more := logins + [login];
    assert more[..|logins|] == logins;
    forall m | NamesUser(logins, m) ensures NamesUser(more, m) {
      var n :| 0 <= n <= |logins| && m.user == LastAccepted(logins[..n]);
      assert more[..n] == logins[..n];
    }
  }

  /** What one sign-in does: one login with its verdict, one reply, and the user only when it is accepted. */
  lemma SignInMeans(f: Fixture, s: Session, encoded: string) returns (login: Login)
    ensures login.accepted <==> RightPassword(f, login)
    ensures SignIn(f, s, encoded) ==
            s.(logins := s.logins + [login], user := if login.accepted then Some(login.user) else s.user,
               replies := s.replies + [if login.accepted then SignedIn else SignInRefused])
  {
    hide Split, Trim;
    var parts := Split(f.fromBase64(Trim(encoded)), "\0");
    var name, password := Part(parts, 1), Part(parts, 2);
    login := Login(name, password, f.password.None? || password == f.password.value);
  }

  /** The credentials of section 2 of RFC 4616 are read as they were sent. */
  lemma CredentialsAreRead(f: Fixture, s: Session, encoded: string, identity: string, user: string, password: string)
    requires '\0' !in identity && '\0' !in user && '\0' !in password
    requires f.fromBase64(Trim(encoded)) == identity + "\0" + user + "\0" + password
    ensures var accepted := f.password.None? || password == f.password.value;
            SignIn(f, s, encoded) ==
            s.(logins := s.logins + [Login(user, password, accepted)], user := if accepted then Some(user) else s.user,
               replies := s.replies + [if accepted then SignedIn else SignInRefused])
  {
    hide Split, Trim;
    var parts := [identity, user, password];
    SplitOfJoin(parts, "\0");
    assert parts[1..] == [user, password] && parts[1..][1..] == [password];
    assert Join([password], "\0") == password;
    assert Join([user, password], "\0") == user + "\0" + password;
    assert Join(parts, "\0") == identity + "\0" + (user + "\0" + password);
    assert identity + "\0" + (user + "\0" + password) == identity + "\0" + user + "\0" + password;
  }

  lemma SignInHolds(f: Fixture, s: Session, encoded: string)
    requires LoginsHold(f, s)
    ensures LoginsHold(f, SignIn(f, s, encoded))
  {
    hide SignIn, LastAccepted, Verdicts, Accepts, NamesUser, RightPassword;
    var login := SignInMeans(f, s, encoded);
    OneMoreLogin(s.logins, login);
    OneMoreReply(s.replies, if login.accepted then SignedIn else SignInRefused);
  }

  lemma ReplyHolds(f: Fixture, s: Session, t: Session, reply: Reply)
    requires LoginsHold(f, s) && !reply.SignedIn? && !reply.SignInRefused?
    requires t.user == s.user && t.logins == s.logins && t.messages == s.messages && t.replies == s.replies + [reply]
    ensures LoginsHold(f, t)
  {
    OneMoreReply(s.replies, reply);
    assert Verdicts(s.replies) + [] == Verdicts(s.replies);
  }

  /** An AUTH line names no known mechanism, asks for the credentials, or signs in with those it carries. */
  lemma AuthMeans(f: Fixture, s: Session, argument: string)
    ensures var parts, t := Split(argument, " "), SignInOrAsk(f, s, argument);
            && (f.upper(parts[0]) != "PLAIN" ==> t == Replied(s, BadMechanism))
            && (f.upper(parts[0]) == "PLAIN" && |parts| == 1 ==> t == Replied(s.(awaitingPlain := true), SendCredentials))
            && (f.upper(parts[0]) == "PLAIN" && |parts| > 1 ==> t == SignIn(f, s, parts[1]))
    ensures SignInOrAsk(f, s, argument).logins == s.logins ==> SignInOrAsk(f, s, argument).user == s.user
  {
    hide Split, SignIn;
    var parts := Split(argument, " ");
    if f.upper(parts[0]) == "PLAIN" && |parts| > 1 {
      var login := SignInMeans(f, s, parts[1]);
      assert |s.logins + [login]| != |s.logins|;
    }
  }

  /** Sending the credentials with AUTH or on the line after it leaves the same session, but for the replies. */
  lemma TwoWaysToSignIn(f: Fixture, s: Session, one: string, two: string, encoded: string)
    requires RunsAs(f, s, one, Verb.Auth) && RunsAs(f, s, two, Verb.Auth) && f.upper("PLAIN") == "PLAIN"
    requires Split(Argument(one), " ") == ["PLAIN", encoded] && Split(Argument(two), " ") == ["PLAIN"]
    ensures Handle(f, Handle(f, s, two), encoded).(replies := []) == Handle(f, s, one).(replies := [])
    ensures Handle(f, s, one).replies == s.replies + Handle(f, Handle(f, s, two), encoded).replies[|s.replies| + 1..]
  {
    hide Split, VerbOf, Argument, SignIn, SignInOrAsk;
    AuthMeans(f, s, Argument(one));
    AuthMeans(f, s, Argument(two));
    var asked := Handle(f, s, two);
    assert asked == s.(awaitingPlain := true, replies := s.replies + [SendCredentials]);
    SameSignIn(f, s, s.(replies := s.replies + [SendCredentials]), encoded);
  }

  lemma SameSignIn(f: Fixture, s: Session, t: Session, encoded: string)
    requires t == s.(replies := t.replies) && |t.replies| == |s.replies| + 1
    ensures SignIn(f, s, encoded).(replies := []) == SignIn(f, t, encoded).(replies := [])
    ensures SignIn(f, s, encoded).replies == s.replies + SignIn(f, t, encoded).replies[|s.replies| + 1..]
  {
    hide Split, Trim;
  }

  lemma CommandHolds(f: Fixture, s: Session, line: string)
    requires LoginsHold(f, s)
    ensures LoginsHold(f, Command(f, s, line))
  {
    hide LoginsHold, SignIn, SignInOrAsk, AddressOf, VerbOf, Argument, Split;
    var t := Command(f, s, line);
    if VerbOf(f, line) == Verb.Auth {
      var argument := Argument(line);
      var parts := Split(argument, " ");
      AuthMeans(f, s, argument);
      if f.upper(parts[0]) == "PLAIN" && |parts| > 1 {
        SignInHolds(f, s, parts[1]);
      } else {
        ReplyHolds(f, s, t, t.replies[|s.replies|]);
      }
    } else {
      ReplyHolds(f, s, t, t.replies[|s.replies|]);
    }
  }

  lemma DataHolds(f: Fixture, s: Session, line: string)
    requires LoginsHold(f, s)
    ensures LoginsHold(f, DataLine(s, line))
  {
    hide Join, AllUnstuffed, LastAccepted, Accepts;
    if line == "." {
      OneMoreReply(s.replies, Queued);
      assert s.logins[..|s.logins|] == s.logins;
    }
  }

  lemma HandleHolds(f: Fixture, s: Session, line: string)
    requires LoginsHold(f, s)
    ensures LoginsHold(f, Handle(f, s, line))
  {
    hide SignIn, Command, DataLine, LastAccepted, Verdicts, Accepts, NamesUser, RightPassword;
    if s.inData {
      DataHolds(f, s, line);
    } else if s.awaitingPlain {
      SignInHolds(f, s.(awaitingPlain := false), line);
    } else {
      CommandHolds(f, s, line);
    }
  }

  lemma {:induction false} DrainHolds(f: Fixture, c: State)
    requires LoginsHold(f, c.session)
    ensures LoginsHold(f, Drain(f, c).session)
    decreases |c.buffered|
  {
    hide Drain, Handle, IndexOf, LoginsHold;
    DrainStep(f, c);
    if IndexOf(c.buffered, CRLF) != -1 {
      HandleHolds(f, c.session, c.buffered[..IndexOf(c.buffered, CRLF)]);
      DrainHolds(f, NextLine(f, c));
    }
  }

  lemma {:induction false} RunHolds(f: Fixture, c: State, chunks: seq<string>)
    requires LoginsHold(f, c.session)
    ensures LoginsHold(f, ReceiveAll(f, c, chunks).session)
    decreases |chunks|
  {
    hide Drain, LoginsHold;
    if chunks != [] {
      DrainHolds(f, State(c.buffered + chunks[0], c.session));
      RunHolds(f, Receive(f, c, chunks[0]), chunks[1..]);
    }
  }

  /** Whatever a connection has received. */
  lemma LoginsHoldInEveryRun(f: Fixture, chunks: seq<string>)
    ensures LoginsHold(f, ReceiveAll(f, Accepted(), chunks).session)
  {
    hide ReceiveAll, LoginsHold;
    GreetedHolds(f);
    RunHolds(f, Accepted(), chunks);
  }

  lemma GreetedHolds(f: Fixture)
    ensures LoginsHold(f, Accepted().session)
  {
    OneMoreReply([], Greeting);
    assert [] + [Greeting] == [Greeting];
  }

  // ---------------------------------------------------------------- inputs

  /** The line `.a` inside DATA: the fixture records both characters, a receiver after RFC 5321 only the `a`. */
  lemma UnstuffingInput(f: Fixture, s: Session)
    requires s.inData && s.dataLines == []
    ensures Receive(f, State("", s), ".a\r\n.\r\n").session.messages == s.messages + [Message(s.from, s.to, ".a", s.user)]
    ensures RfcUnstuffed(".a") == "a" != Unstuffed(".a")
  {
    hide Drain, Handle, IndexOf;
    assert IsLine(".a") && IsLine(".") && IndexOf("", CRLF) == -1 by { NoSeparator(".a", CRLF); NoSeparator(".", CRLF); NoSeparator("", CRLF); }
    assert "" + ".a\r\n.\r\n" == ".a" + CRLF + ("." + CRLF + "");
    NextLineOf(f, s, ".a", "." + CRLF + "");
    var t := Handle(f, s, ".a");
    assert t == DataLine(s, ".a") by { HandleData(f, s, ".a"); }
    NextLineOf(f, t, ".", "");
    HandleData(f, t, ".");
    DrainStep(f, State("", Handle(f, t, ".")));
    assert [] + [".a"] == [".a"];
    OneDataLine(".a");
    assert ".a"[1] != ".."[1] && ".a"[1..] == "a";
  }

  lemma HandleData(f: Fixture, s: Session, line: string)
    requires s.inData
    ensures Handle(f, s, line) == DataLine(s, line)
  {
  }

  lemma OneDataLine(line: string)
    ensures Join(AllUnstuffed([line]), CRLF) == Unstuffed(line)
  {
    assert AllUnstuffed([line]) == [Unstuffed(line)];
  }

  /** MAIL, RCPT, DATA, the final dot and RCPT again: the message already recorded for `b` is then also for `c`. */
  lemma SharedListInput(f: Fixture)
    requires f.upper("MAIL") == "MAIL" && f.upper("RCPT") == "RCPT" && f.upper("DATA") == "DATA"
    ensures var s := Receive(f, Accepted(), "MAIL <a>\r\nRCPT <b>\r\nDATA\r\n.\r\n").session;
            s.messages == [Message("a", 1, "", None)] && s.arrays == [[], ["b"]]
    ensures var s := Receive(f, Accepted(), "MAIL <a>\r\nRCPT <b>\r\nDATA\r\n.\r\nRCPT <c>\r\n").session;
            s.messages == [Message("a", 1, "", None)] && s.arrays == [[], ["b", "c"]]
  {
    hide Drain, IndexOf, VerbOf, Argument, AddressOf, Handle, Accepted;
    var c := RecordOne(f, "");
    DrainStep(f, State("", c));
    assert IndexOf("", CRLF) == -1 by { NoSeparator("", CRLF); }
    var rest := "RCPT <c>" + CRLF + "";
    var d := RecordOne(f, rest);
    CommandRead(f, "RCPT", 'c');
    assert "RCPT <c>" == "RCPT" + " <" + ['c'] + ">" && ['c'] == "c" && "MAIL"[0] != "RCPT"[0];
    NextLineOf(f, d, "RCPT <c>", "");
    RunRcpt(f, d, "RCPT <c>");
    DrainStep(f, State("", Handle(f, d, "RCPT <c>")));
    assert "MAIL <a>\r\nRCPT <b>\r\nDATA\r\n.\r\n" == "MAIL <a>\r\nRCPT <b>\r\nDATA\r\n.\r\n" + "";
    assert "MAIL <a>\r\nRCPT <b>\r\nDATA\r\n.\r\nRCPT <c>\r\n" == "MAIL <a>\r\nRCPT <b>\r\nDATA\r\n.\r\n" + rest;
    assert ["b"] + ["c"] == ["b", "c"];
  }

  /** The session after one message from `a` to `b`. */
  lemma RecordOne(f: Fixture, rest: string) returns (s: Session)
    requires f.upper("MAIL") == "MAIL" && f.upper("RCPT") == "RCPT" && f.upper("DATA") == "DATA"
    ensures Receive(f, Accepted(), "MAIL <a>\r\nRCPT <b>\r\nDATA\r\n.\r\n" + rest) == Drain(f, State(rest, s))
    ensures !s.inData && !s.awaitingPlain && s.to == 1 && s.messages == [Message("a", 1, "", None)] && s.arrays == [[], ["b"]]
  {
    hide Drain, IndexOf, VerbOf, Argument, AddressOf, Handle, Receive, IsLine;
    var tail := "." + CRLF + rest;
    var wire := "MAIL <a>\r\nRCPT <b>\r\nDATA\r\n.\r\n" + rest;
    WireOfOne(rest);
    CommandRead(f, "MAIL", 'a');
    CommandRead(f, "RCPT", 'b');
    assert "MAIL <a>" == "MAIL" + " <" + ['a'] + ">" && "RCPT <b>" == "RCPT" + " <" + ['b'] + ">" && ['a'] == "a" && ['b'] == "b";
    assert "MAIL"[0] != "RCPT"[0];
    DataRead(f);
    var s0 := Accepted().session;
    NextLineOf(f, s0, "MAIL <a>", "RCPT <b>" + CRLF + ("DATA" + CRLF + tail));
    var s1 := Handle(f, s0, "MAIL <a>");
    RunMailOrData(f, s0, "MAIL <a>");
    assert s1.arrays == [[], []];
    NextLineOf(f, s1, "RCPT <b>", "DATA" + CRLF + tail);
    var s2 := Handle(f, s1, "RCPT <b>");
    RunRcpt(f, s1, "RCPT <b>");
    assert [] + ["b"] == ["b"] && [[], []][1 := ["b"]] == [[], ["b"]];
    NextLineOf(f, s2, "DATA", tail);
    var s3 := Handle(f, s2, "DATA");
    RunMailOrData(f, s2, "DATA");
    NextLineOf(f, s3, ".", rest);
    s := Handle(f, s3, ".");
    HandleData(f, s3, ".");
    assert Receive(f, Accepted(), wire) == Drain(f, State("" + wire, s0)) by { ReceiveMeans(f, Accepted(), wire); }
    assert [] + [Message("a", 1, "", None)] == [Message("a", 1, "", None)];
  }

  lemma WireOfOne(rest: string)
    ensures "" + ("MAIL <a>\r\nRCPT <b>\r\nDATA\r\n.\r\n" + rest) ==
            "MAIL <a>" + CRLF + ("RCPT <b>" + CRLF + ("DATA" + CRLF + ("." + CRLF + rest)))
  {
    assert "MAIL <a>\r\nRCPT <b>\r\nDATA\r\n.\r\n" == "MAIL <a>" + CRLF + "RCPT <b>" + CRLF + "DATA" + CRLF + "." + CRLF;
  }

  lemma ReceiveMeans(f: Fixture, c: State, chunk: string)
    ensures Receive(f, c, chunk) == Drain(f, State(c.buffered + chunk, c.session))
  {
  }

  lemma RunMailOrData(f: Fixture, s: Session, line: string)
    ensures RunsAs(f, s, line, Mail) ==>
              Handle(f, s, line) == s.(from := AddressOf(Argument(line)), to := |s.arrays|, arrays := s.arrays + [[]],
                                       replies := s.replies + [SenderOk])
    ensures RunsAs(f, s, line, Data) ==> Handle(f, s, line) == s.(inData := true, replies := s.replies + [SendData])
  {
    hide VerbOf, Argument, AddressOf;
  }

  lemma DataRead(f: Fixture)
    requires f.upper("DATA") == "DATA"
    ensures IsLine("DATA") && VerbOf(f, "DATA") == Data && IsLine(".")
  {
    hide IndexOf;
    NoSeparator("DATA", CRLF);
    NoSeparator(".", CRLF);
    NoSeparator("DATA", " ");
    assert Split("DATA", " ") == ["DATA"];
    assert "DATA"[0] == 'D' && "EHLO"[0] == 'E' && "HELO"[0] == 'H' && "AUTH"[0] == 'A' && "MAIL"[0] == 'M' && "RCPT"[0] == 'R';
  }

  lemma RunRcpt(f: Fixture, s: Session, line: string)
    requires RunsAs(f, s, line, Rcpt) && s.to < |s.arrays|
    ensures Handle(f, s, line) == s.(arrays := s.arrays[s.to := s.arrays[s.to] + [AddressOf(Argument(line))]],
                                     replies := s.replies + [RecipientOk])
  {
    hide VerbOf, Argument, AddressOf;
  }

  /** A command word and an address in angle brackets. */
  lemma CommandRead(f: Fixture, word: string, name: char)
    requires word in ["MAIL", "RCPT"] && f.upper(word) == word && name in "abc"
    ensures var line := word + " <" + [name] + ">";
            && IsLine(line) && VerbOf(f, line) == (if word == "MAIL" then Mail else Rcpt) && AddressOf(Argument(line)) == [name]
  {
    hide IndexOf, Split, Join;
    var address := "<" + [name] + ">";
    var parts := [word, address];
    var line := word + " <" + [name] + ">";
    assert parts[1..] == [address];
    JoinTwo(word, address);
    assert line == word + " " + address;
    SplitOfJoin(parts, " ");
    NoSeparator(line, CRLF);
    assert address[1..] == [name] + ">" && address[0] == '<';
    assert IndexOfChar(address, '<') == 0;
    assert ([name] + ">")[1] == '>' && name != '>';
    assert IndexOfChar([name] + ">", '>') == 1;
    assert ([name] + ">")[..1] == [name];
    assert word == "MAIL" || word == "RCPT";
    assert "MAIL"[0] == 'M' && "RCPT"[0] == 'R';
  }

  lemma JoinTwo(a: string, b: string)
    ensures Join([a, b], " ") == a + " " + b && Join([b], " ") == b
  {
    assert [a, b][1..] == [b];
  }
}
