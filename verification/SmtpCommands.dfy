/** What each line of the SMTP fixture's protocol does, read off the text of the line. */
module SmtpCommands {
  import opened Text
  import opened Smtp
  import opened SmtpProofs

  // ---------------------------------------------------------------- a line and its words

  /** A word, a space and the rest: the word is the verb, the rest the argument. */
  lemma LineReads(word: string, argument: string)
    requires ' ' !in word
    ensures Split(word + " " + argument, " ")[0] == word && Argument(word + " " + argument) == argument
    ensures Split(word, " ")[0] == word && Argument(word) == ""
  {
    var line := word + " " + argument;
    FirstSeparator(word, " ", argument);
    assert line[..|word|] == word && line[|word| + 1..] == argument;
    assert Split(line, " ") == [word] + Split(argument, " ");
    JoinOfSplit(argument, " ");
    assert Split(line, " ")[1..] == Split(argument, " ");
    NoSeparator(word, " ");
    assert Split(word, " ") == [word];
  }

  // ---------------------------------------------------------------- addresses

  /** The address in the first angle brackets, whatever stands before and after them. */
  lemma BracketsHoldAddress(before: string, address: string, after: string)
    requires '<' !in before && '>' !in address
    ensures AddressOf(before + "<" + address + ">" + after) == address
  {
    var argument := before + "<" + address + ">" + after;
    CharAfter(before, '<', address + ">" + after);
    assert argument == before + "<" + (address + ">" + after);
    var rest := argument[|before| + 1..];
    assert rest == address + ">" + after;
    CharAfter(address, '>', after);
    assert rest[..|address|] == address;
  }

  lemma CharAfter(head: string, c: char, tail: string)
    requires c !in head
    ensures IndexOfChar(head + [c] + tail, c) == |head|
  {
    var s := head + [c] + tail;
    var k := IndexOfChar(s, c);
    assert s[|head|] == c && forall i :: 0 <= i < |head| ==> s[i] == head[i];
    assert forall i :: 0 <= i < k ==> s[i] == s[..k][i];
  }

  /** Without an opening bracket that a closing one follows the argument itself, trimmed. */
  lemma NoBracketsHoldAll(argument: string)
    requires forall i, j :: 0 <= i < j < |argument| ==> !(argument[i] == '<' && argument[j] == '>')
    ensures AddressOf(argument) == Trim(argument)
  {
    hide Trim;
    var open := IndexOfChar(argument, '<');
    if open != -1 {
      var rest := argument[open + 1..];
      assert forall i :: 0 <= i < |rest| ==> rest[i] == argument[open + 1 + i];
      assert '>' !in rest;
    }
  }

  /** A session that takes commands, with a recipient list: every run keeps it so outside DATA and AUTH. */
  ghost predicate Ready(s: Session) { !s.inData && !s.awaitingPlain && s.to < |s.arrays| }

  /** MAIL with an address in brackets, as in `MAIL FROM:<a@b>`: a new message from that address to nobody yet. */
  lemma MailSetsSender(f: Fixture, s: Session, word: string, before: string, address: string, after: string)
    requires Ready(s) && ' ' !in word && f.upper(word) == "MAIL" && '<' !in before && '>' !in address
    ensures Handle(f, s, word + " " + (before + "<" + address + ">" + after)) ==
            s.(from := address, to := |s.arrays|, arrays := s.arrays + [[]], replies := s.replies + [SenderOk])
  {
    hide AddressOf, Argument;
    var argument := before + "<" + address + ">" + after;
    LineReads(word, argument);
    BracketsHoldAddress(before, address, after);
    WordsMean(f, s, word + " " + argument, word);
    hide Handle;
  }

  /** RCPT likewise: that address and no other is added to the current list. */
  lemma RcptAddsRecipient(f: Fixture, s: Session, word: string, before: string, address: string, after: string)
    requires Ready(s) && ' ' !in word && f.upper(word) == "RCPT" && '<' !in before && '>' !in address
    ensures Handle(f, s, word + " " + (before + "<" + address + ">" + after)) ==
            s.(arrays := s.arrays[s.to := s.arrays[s.to] + [address]], replies := s.replies + [RecipientOk])
  {
    hide AddressOf, Argument;
    var argument := before + "<" + address + ">" + after;
    LineReads(word, argument);
    BracketsHoldAddress(before, address, after);
    WordsMean(f, s, word + " " + argument, word);
    hide Handle;
  }

  /** MAIL and RCPT without brackets. */
  lemma BareAddress(f: Fixture, s: Session, word: string, argument: string)
    requires Ready(s) && ' ' !in word
    requires forall i, j :: 0 <= i < j < |argument| ==> !(argument[i] == '<' && argument[j] == '>')
    ensures f.upper(word) == "MAIL" ==>
              Handle(f, s, word + " " + argument) ==
              s.(from := Trim(argument), to := |s.arrays|, arrays := s.arrays + [[]], replies := s.replies + [SenderOk])
    ensures f.upper(word) == "RCPT" ==>
              Handle(f, s, word + " " + argument) ==
              s.(arrays := s.arrays[s.to := s.arrays[s.to] + [Trim(argument)]], replies := s.replies + [RecipientOk])
  {
    hide AddressOf, Argument, Trim;
    LineReads(word, argument);
    NoBracketsHoldAll(argument);
    WordsMean(f, s, word + " " + argument, word);
    hide Handle;
  }

  // ---------------------------------------------------------------- the commands

  /** The whole command table, by the first word of the line. */
  lemma WordsMean(f: Fixture, s: Session, line: string, word: string)
    requires Ready(s) && Split(line, " ")[0] == word
    ensures var t, verb := Handle(f, s, line), f.upper(word);
            && (verb == "EHLO" ==> t == s.(replies := s.replies + [Extensions]))
            && (verb == "HELO" ==> t == s.(replies := s.replies + [Hello]))
            && (verb == "AUTH" ==> t == SignInOrAsk(f, s, Argument(line)))
            && (verb == "MAIL" ==> t == s.(from := AddressOf(Argument(line)), to := |s.arrays|, arrays := s.arrays + [[]], replies := s.replies + [SenderOk]))
            && (verb == "RCPT" ==> t == s.(arrays := s.arrays[s.to := s.arrays[s.to] + [AddressOf(Argument(line))]], replies := s.replies + [RecipientOk]))
            && (verb == "DATA" ==> t == s.(inData := true, replies := s.replies + [SendData]))
            && (verb == "RSET" ==> t == s.(from := "", to := |s.arrays|, arrays := s.arrays + [[]], replies := s.replies + [Done]))
            && (verb == "NOOP" ==> t == s.(replies := s.replies + [Done]))
            && (verb == "QUIT" ==> t == s.(replies := s.replies + [Bye], ended := true))
            && (verb !in {"EHLO", "HELO", "AUTH", "MAIL", "RCPT", "DATA", "RSET", "NOOP", "QUIT"} ==> t == s.(replies := s.replies + [NotImplemented]))
  {
    hide SignInOrAsk, AddressOf, Argument, Split;
  }

  /** AUTH PLAIN alone asks for credentials, with a third word it signs in with that, and no other mechanism is known. */
  lemma AuthReads(f: Fixture, s: Session, word: string, mechanism: string, encoded: string, more: string)
    requires Ready(s) && ' ' !in word && f.upper(word) == "AUTH" && ' ' !in mechanism && ' ' !in encoded && (more == "" || more[0] == ' ')
    ensures f.upper(mechanism) == "PLAIN" ==>
              && Handle(f, s, word + " " + mechanism) == s.(awaitingPlain := true, replies := s.replies + [SendCredentials])
              && Handle(f, s, word + " " + (mechanism + " " + (encoded + more))) == SignIn(f, s, encoded)
    ensures f.upper(mechanism) != "PLAIN" ==>
              && Handle(f, s, word + " " + mechanism) == s.(replies := s.replies + [BadMechanism])
              && Handle(f, s, word + " " + (mechanism + " " + (encoded + more))) == s.(replies := s.replies + [BadMechanism])
  {
    hide SignIn, SignInOrAsk, Argument, Split, AddressOf;
    var rest := encoded + more;
    LineReads(word, mechanism);
    LineReads(word, mechanism + " " + rest);
    AuthMeans(f, s, mechanism);
    AuthMeans(f, s, mechanism + " " + rest);
    MechanismReads(mechanism, encoded, more);
    WordsMean(f, s, word + " " + mechanism, word);
    WordsMean(f, s, word + " " + (mechanism + " " + rest), word);
    hide Handle;
  }

  lemma MechanismReads(mechanism: string, encoded: string, more: string)
    requires ' ' !in mechanism && ' ' !in encoded && (more == "" || more[0] == ' ')
    ensures Split(mechanism, " ") == [mechanism]
    ensures var parts := Split(mechanism + " " + (encoded + more), " "); |parts| > 1 && parts[0] == mechanism && parts[1] == encoded
  {
    var rest := encoded + more;
    var argument := mechanism + " " + rest;
    NoSeparator(mechanism, " ");
    FirstSeparator(mechanism, " ", rest);
    assert argument[..|mechanism|] == mechanism && argument[|mechanism| + 1..] == rest;
    if more == "" {
      NoSeparator(encoded, " ");
      assert rest == encoded;
    } else {
      FirstSeparator(encoded, " ", more[1..]);
      assert rest == encoded + " " + more[1..] && rest[..|encoded|] == encoded;
    }
    assert Split(argument, " ") == [mechanism] + Split(rest, " ");
    assert Split(rest, " ")[0] == encoded;
  }

  /** Credentials that lack a password, or a user too, are a login without one. */
  lemma ShortCredentials(f: Fixture, s: Session, encoded: string, identity: string, user: string)
    requires '\0' !in identity && '\0' !in user && f.password.Some?
    ensures f.fromBase64(Trim(encoded)) == identity + "\0" + user && f.password.value != "" ==>
              SignIn(f, s, encoded) == s.(logins := s.logins + [Login(user, "", false)], replies := s.replies + [SignInRefused])
    ensures f.fromBase64(Trim(encoded)) == identity && f.password.value != "" ==>
              SignIn(f, s, encoded) == s.(logins := s.logins + [Login("", "", false)], replies := s.replies + [SignInRefused])
  {
    hide Trim;
    var text := identity + "\0" + user;
    FirstSeparator(identity, "\0", user);
    NoSeparator(user, "\0");
    NoSeparator(identity, "\0");
    assert text[..|identity|] == identity && text[|identity| + 1..] == user;
    assert Split(text, "\0") == [identity, user] && Split(identity, "\0") == [identity];
  }

  /** A line of a message: one of two leading dots goes, and nothing else. */
  lemma UnstuffedMeans(line: string, rest: string)
    ensures line == ".." + rest ==> Unstuffed(line) == "." + rest
    ensures (forall tail :: line != ".." + tail) ==> Unstuffed(line) == line
  {
    if ".." <= line { assert line == ".." + line[2..]; }
  }
}
