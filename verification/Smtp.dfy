/**
  * One connection of the SMTP fixture: a line splitter over the received chunks and the command machine behind it.
  * JavaScript arrays are shared by reference: `arrays` holds every recipient list ever made and `to` names the
  * session's current one, so a recorded message keeps the name of its list, not a copy.
  */
module Smtp {
  import opened Text

  const CRLF: string := "\r\n"

  /** What the fixture was started with, and the runtime calls left open. */
  datatype Fixture = Fixture(
    password: Option<string>,
    /** `String.prototype.toUpperCase` */
    upper: string -> string,
    /** Base64 to bytes to UTF-8 text. */
    fromBase64: string -> string)

  datatype Login = Login(user: string, password: string, accepted: bool)

  datatype Message = Message(from: string, to: nat, data: string, user: Option<string>)

  /** The variables of the connection's closure but the receive buffer. */
  datatype Session = Session(
    inData: bool, dataLines: seq<string>, from: string, to: nat, user: Option<string>, awaitingPlain: bool,
    arrays: seq<seq<string>>, logins: seq<Login>, messages: seq<Message>, replies: seq<Reply>, ended: bool)

  /** A connection: what was received and not yet handled, and the session. */
  datatype State = State(buffered: string, session: Session)

  /** The replies, by what they say. */
  datatype Reply =
    | Greeting | Hello | Extensions | BadMechanism | SendCredentials | SignedIn | SignInRefused
    | SenderOk | RecipientOk | SendData | Queued | Done | Bye | NotImplemented

  /** The commands the fixture knows. */
  datatype Verb = Ehlo | Helo | Auth | Mail | Rcpt | Data | Rset | Noop | Quit | Unknown

  /** The address between the first `<` and the next `>`, or the trimmed argument. */
  function AddressOf(argument: string): (r: string)
  {
    var open := IndexOfChar(argument, '<');
    if open == -1 then Trim(argument)
    else
      var close := IndexOfChar(argument[open + 1..], '>');
      if close == -1 then Trim(argument) else argument[open + 1..][..close]
  }

  /** Dot-unstuffing as the fixture does it: two leading dots become one. */
  function Unstuffed(line: string): (r: string)
  {
    if ".." <= line then line[1..] else line
  }

  function AllUnstuffed(lines: seq<string>): (r: seq<string>)
    ensures |r| == |lines|
    ensures forall i :: 0 <= i < |lines| ==> r[i] == Unstuffed(lines[i])
  {
    if lines == [] then [] else [Unstuffed(lines[0])] + AllUnstuffed(lines[1..])
  }

  function Replied(s: Session, reply: Reply): (r: Session) { s.(replies := s.replies + [reply]) }

  /** The part of a credential at `i`, empty when there is none. */
  function Part(parts: seq<string>, i: nat): (r: string) { if i < |parts| then parts[i] else "" }

  function SignIn(f: Fixture, s: Session, encoded: string): (r: Session)
    ensures r == s.(logins := r.logins, user := r.user, replies := r.replies)
  {
    var parts := Split(f.fromBase64(Trim(encoded)), "\0");
    var name, password := Part(parts, 1), Part(parts, 2);
    var accepted := f.password.None? || password == f.password.value;
    var logged := s.(logins := s.logins + [Login(name, password, accepted)]);
    if accepted then Replied(logged.(user := Some(name)), SignedIn)
    else Replied(logged, SignInRefused)
  }

  /** One line while a message is being received. */
  function DataLine(s: Session, line: string): (r: Session)
  {
    if line == "." then
      Replied(s.(inData := false, dataLines := [],
               messages := s.messages + [Message(s.from, s.to, Join(AllUnstuffed(s.dataLines), CRLF), s.user)]),
            Queued)
    else s.(dataLines := s.dataLines + [line])
  }

  function VerbOf(f: Fixture, line: string): (v: Verb)
  {
    var word := f.upper(Split(line, " ")[0]);
    if word == "EHLO" then Ehlo
    else if word == "HELO" then Helo
    else if word == "AUTH" then Verb.Auth
    else if word == "MAIL" then Mail
    else if word == "RCPT" then Rcpt
    else if word == "DATA" then Data
    else if word == "RSET" then Rset
    else if word == "NOOP" then Noop
    else if word == "QUIT" then Quit
    else Unknown
  }

  function Argument(line: string): (a: string) { Join(Split(line, " ")[1..], " ") }

  function SignInOrAsk(f: Fixture, s: Session, argument: string): (r: Session)
    ensures r == s.(awaitingPlain := r.awaitingPlain, logins := r.logins, user := r.user, replies := r.replies)
  {
    hide SignIn;
    var parts := Split(argument, " ");
    if f.upper(parts[0]) != "PLAIN" then Replied(s, BadMechanism)
    else if |parts| < 2 then Replied(s.(awaitingPlain := true), SendCredentials)
    else SignIn(f, s, parts[1])
  }

  /** A fresh, empty recipient list. */
  function FreshTo(s: Session, from: string): (r: Session)
  {
    s.(from := from, to := |s.arrays|, arrays := s.arrays + [[]])
  }

  function AddRecipient(s: Session, address: string): (r: Session)
  {
    if s.to < |s.arrays| then s.(arrays := s.arrays[s.to := s.arrays[s.to] + [address]]) else s
  }

  function Command(f: Fixture, s: Session, line: string): (r: Session)
  {
    hide SignInOrAsk, AddressOf, VerbOf, Argument;
    var argument := Argument(line);
    match VerbOf(f, line)
    case Ehlo => Replied(s, Extensions)
    case Helo => Replied(s, Hello)
    case Auth => SignInOrAsk(f, s, argument)
    case Mail => Replied(FreshTo(s, AddressOf(argument)), SenderOk)
    case Rcpt => Replied(AddRecipient(s, AddressOf(argument)), RecipientOk)
    case Data => Replied(s.(inData := true), SendData)
    case Rset => Replied(FreshTo(s, ""), Done)
    case Noop => Replied(s, Done)
    case Quit => Replied(s, Bye).(ended := true)
    case Unknown => Replied(s, NotImplemented)
  }

  /** One line of the protocol. */
  function Handle(f: Fixture, s: Session, line: string): (r: Session)
  {
    hide DataLine, SignIn, Command;
    if s.inData then DataLine(s, line)
    else if s.awaitingPlain then SignIn(f, s.(awaitingPlain := false), line)
    else Command(f, s, line)
  }

  /** Every complete line of the buffer, in order. */
  function Drain(f: Fixture, c: State): (r: State)
    decreases |c.buffered|
  {
    var end := IndexOf(c.buffered, CRLF);
    if end == -1 then c
    else Drain(f, State(c.buffered[end + 2..], Handle(f, c.session, c.buffered[..end])))
  }

  /** The effect of one `data` event. */
  function Receive(f: Fixture, c: State, chunk: string): (r: State)
  {
    Drain(f, State(c.buffered + chunk, c.session))
  }

  /** A connection just accepted. */
  function Accepted(): (c: State)
  {
    State("", Replied(Session(false, [], "", 0, None, false, [[]], [], [], [], false), Greeting))
  }

  // ---------------------------------------------------------------- the connection

  class Connection {
    const f: Fixture
    var buffered: string
    var inData: bool
    var dataLines: seq<string>
    var from: string
    var to: nat
    var user: Option<string>
    var awaitingPlain: bool
    var arrays: seq<seq<string>>
    var logins: seq<Login>
    var messages: seq<Message>
    var replies: seq<Reply>
    var ended: bool

    ghost function View(): (s: Session)
      reads this
    {
      Session(inData, dataLines, from, to, user, awaitingPlain, arrays, logins, messages, replies, ended)
    }

    constructor (fixture: Fixture)
      ensures f == fixture && State(buffered, View()) == Accepted()
    {
      f := fixture;
      buffered, inData, dataLines, from, to, user, awaitingPlain := "", false, [], "", 0, None, false;
      arrays, logins, messages, ended := [[]], [], [], false;
      replies := [Greeting];
    }

    method Write(reply: Reply)
      modifies this`replies
      ensures View() == Replied(old(View()), reply)
    {
      replies := replies + [reply];
    }

    method SignInWith(encoded: string)
      modifies this`logins, this`user, this`replies
      ensures buffered == old(buffered)
      ensures View() == SignIn(f, old(View()), encoded)
    {
      var parts := Split(f.fromBase64(Trim(encoded)), "\0");
      var name, password := Part(parts, 1), Part(parts, 2);
      var accepted := f.password.None? || password == f.password.value;
      logins := logins + [Login(name, password, accepted)];
      if accepted {
        user := Some(name);
        Write(SignedIn);
      } else {
        Write(SignInRefused);
      }
    }

    method HandleData(line: string)
      modifies this
      ensures buffered == old(buffered)
      ensures View() == DataLine(old(View()), line)
    {
      if line == "." {
        inData := false;
        messages := messages + [Message(from, to, Join(AllUnstuffed(dataLines), CRLF), user)];
        dataLines := [];
        Write(Queued);
      } else {
        dataLines := dataLines + [line];
      }
    }

    method HandleCommand(line: string)
      modifies this
      ensures buffered == old(buffered)
      ensures View() == Command(f, old(View()), line)
    {
      hide AddressOf, VerbOf, Argument;
      var argument := Argument(line);
      match VerbOf(f, line) {
        case Ehlo => Write(Extensions);
        case Helo => Write(Hello);
        case Auth => HandleAuth(argument);
        case Mail =>
          from, to, arrays := AddressOf(argument), |arrays|, arrays + [[]];
          Write(SenderOk);
        case Rcpt =>
          if to < |arrays| { arrays := arrays[to := arrays[to] + [AddressOf(argument)]]; }
          Write(RecipientOk);
        case Data =>
          inData := true;
          Write(SendData);
        case Rset =>
          from, to, arrays := "", |arrays|, arrays + [[]];
          Write(Done);
        case Noop => Write(Done);
        case Quit =>
          Write(Bye);
          ended := true;
        case Unknown => Write(NotImplemented);
      }
    }

    method HandleAuth(argument: string)
      modifies this
      ensures buffered == old(buffered)
      ensures View() == SignInOrAsk(f, old(View()), argument)
    {
      var parts := Split(argument, " ");
      if f.upper(parts[0]) != "PLAIN" {
        Write(BadMechanism);
      } else if |parts| < 2 {
        awaitingPlain := true;
        Write(SendCredentials);
      } else {
        SignInWith(parts[1]);
      }
    }

    method HandleLine(line: string)
      modifies this
      ensures buffered == old(buffered)
      ensures View() == Handle(f, old(View()), line)
    {
      hide DataLine, SignIn, Command;
      if inData {
        HandleData(line);
        return;
      }
      if awaitingPlain {
        awaitingPlain := false;
        SignInWith(line);
        return;
      }
      HandleCommand(line);
    }

    /** The `data` event. */
    method OnData(chunk: string)
      modifies this
      ensures State(buffered, View()) == Receive(f, old(State(buffered, View())), chunk)
    {
      hide Handle, IndexOf;
      buffered := buffered + chunk;
      var end := IndexOf(buffered, CRLF);
      while end != -1
        invariant end == IndexOf(buffered, CRLF)
        invariant Drain(f, State(buffered, View())) == Receive(f, old(State(buffered, View())), chunk)
        decreases |buffered|
      {
        HandleLine(buffered[..end]);
        buffered := buffered[end + 2..];
        end := IndexOf(buffered, CRLF);
      }
    }
  }
}
