/**
 * PlainSaslSmtpExample, the earlier draft: each credential is the
 * compiled-in constant or, when that is null, a console reply; an end of
 * input fails with a message naming the field, and run does nothing.
 */
module PlainSaslSmtpExample {
  import opened Wrappers
  import opened Resolver
  import Later = PlainSaslSmtpAuthExample

  /** The EOFException message for an end of input while `field` was being read. */
  function EofMessage(field: string): string {
    EOF_LEAD + field + EOF_TAIL
  }

  const EOF_LEAD := "Reached end of stream while I was reading your "
  const EOF_TAIL := ". Does Java Virtual Machine support console interaction?"

  const USERNAME_EOF := EofMessage("username")
  const PASSWORD_EOF := EofMessage("password")

  /** An instance: the two final fields the constructor sets. */
  datatype Example = Example(myUsername: string, myPassword: string)

  /** How the constructor prompts: System.console() is used unchecked, and each end of input names its field. */
  const DIALOGUE := Dialogue(NullPointer, "Username: ", EndOfFile(Some(USERNAME_EOF)), "Password: ", EndOfFile(Some(PASSWORD_EOF)))

  /** The constructor as a function of its arguments and the console. */
  function New(username: Option<string>, password: Option<string>, tty: Option<Session>): Step<Example>
  {
    var s := AskPair(username, password, tty, DIALOGUE);
    match s.result
    case Err(e) => Step(Err(e), s.tty)
    case Ok((u, p)) => Step(Ok(Example(u, p)), s.tty)
  }

  /** The constructor: a non-null argument is kept, a null one is read from the console. */
  method Construct(username: Option<string>, password: Option<string>, tty: Console?)
    returns (r: Result<Example, Failure>)
    modifies tty
    ensures Step(r, Snapshot(tty)) == New(username, password, old(Snapshot(tty)))
  {
    var myUsername: string;
    if username.Some? {
      myUsername := username.value;
    } else {
      if tty == null {
        return Err(NullPointer);
      }
      var input := tty.ReadLine("Username: ");
      if input.None? {
        return Err(EndOfFile(Some(USERNAME_EOF)));
      }
      myUsername := input.value;
    }

    var myPassword: string;
    if password.Some? {
      myPassword := password.value;
    } else {
      if tty == null {
        return Err(NullPointer);
      }
      var passwordChars := tty.ReadPassword("Password: ");
      if passwordChars.None? {
        return Err(EndOfFile(Some(PASSWORD_EOF)));
      }
      myPassword := passwordChars.value;
    }
    r := Ok(Example(myUsername, myPassword));
  }

  /** The lines run prints: none. */
  function Run(e: Example): seq<string> {
    []
  }

  /** main: construct from the two constants, then run; the result is what was printed. */
  function Execute(defaults: Defaults, tty: Option<Session>): Step<seq<string>>
  {
    var made := New(defaults.identity, defaults.secret, tty);
    match made.result
    case Err(e) => Step(Err(e), made.tty)
    case Ok(example) => Step(Ok(Run(example)), made.tty)
  }

  /** main; the compiled-in USERNAME and PASSWORD come in as `defaults`. */
  method Launch(defaults: Defaults, tty: Console?) returns (printed: Result<seq<string>, Failure>)
    modifies tty
    ensures Step(printed, Snapshot(tty)) == Execute(defaults, old(Snapshot(tty)))
  {
    var example := Construct(defaults.identity, defaults.secret, tty);
    if example.Err? {
      return Err(example.error);
    }
    printed := Ok(Run(example.value));
  }

  /**
   * Each end-of-input message names the field that was being read, at the
   * same place, so the two messages differ.
   */
  lemma EofMessageNamesField(field: string, other: string)
    ensures EofMessage(field)[|EOF_LEAD|..|EOF_LEAD| + |field|] == field
    ensures EofMessage(field) == EofMessage(other) <==> field == other
  {
    FieldAt(field);
    if EofMessage(field) == EofMessage(other) {
      FieldAt(other);
    }
  }

  /** Where the field stands in its message. */
  lemma FieldAt(field: string)
    ensures |EofMessage(field)| == |EOF_LEAD| + |field| + |EOF_TAIL|
    ensures EofMessage(field)[|EOF_LEAD|..|EOF_LEAD| + |field|] == field
  {
    var m := EofMessage(field);
    assert forall i :: 0 <= i < |field| ==> m[|EOF_LEAD| + i] == field[i];
  }

  /** End of input at the username prompt fails with the username message, before the password is asked for. */
  lemma UsernameEndOfInput(password: Option<string>, s: Session)
    requires s.input == [] || s.input[0].None?
    ensures New(None, password, Some(s)).result == Err(EndOfFile(Some(USERNAME_EOF)))
    ensures New(None, password, Some(s)).tty.value.shown == s.shown + [Prompt("Username: ", false)]
  {
    IdentityEndOfInput(password, s, DIALOGUE);
  }

  /** End of input at the password prompt fails with the password message. */
  lemma PasswordEndOfInput(username: string, s: Session)
    requires s.input == [] || s.input[0].None?
    ensures New(Some(username), None, Some(s)).result == Err(EndOfFile(Some(PASSWORD_EOF)))
    ensures New(Some(username), None, Some(s)).tty.value.shown == s.shown + [Prompt("Password: ", true)]
  {
    SecretEndOfInput(username, s, DIALOGUE);
  }

  /** A non-null argument is stored verbatim, whatever happens to the other field. */
  lemma ArgumentWins(username: Option<string>, password: Option<string>, tty: Option<Session>)
    ensures var r := New(username, password, tty).result;
            && (r.Ok? && username.Some? ==> r.value.myUsername == username.value)
            && (r.Ok? && password.Some? ==> r.value.myPassword == password.value)
  {
    ExplicitVerbatim(username, password, tty, DIALOGUE);
  }

  /**
   * main as shipped, USERNAME set and PASSWORD null: only the password is
   * prompted for, masked; the reply is taken verbatim and nothing is printed.
   */
  lemma MainPromptsOnlyForPassword(username: string, reply: string, rest: seq<Option<string>>, shown: seq<Prompt>)
    ensures Execute(Defaults(Some(username), None), Some(Session([Some(reply)] + rest, shown)))
         == Step(Ok([]), Some(Session(rest, shown + [Prompt("Password: ", true)])))
  {
    assert ([Some(reply)] + rest)[1..] == rest;
  }

  /**
   * The environment tier is all the later program adds: with neither
   * SASL_USERNAME nor SASL_PASSWORD set it resolves the same values and
   * leaves the console in the same state; only the end-of-input messages differ.
   */
  lemma LaterProgramAddsEnvironment(username: Option<string>, password: Option<string>, env: map<string, string>, tty: Option<Session>)
    requires Later.USERNAME_VARIABLE !in env && Later.PASSWORD_VARIABLE !in env
    ensures var draft, later := New(username, password, tty), Later.New(username, password, env, tty);
            && draft.tty == later.tty
            && (draft.result.Ok? <==> later.result.Ok?)
            && (draft.result.Ok? ==> later.result.value == Later.Example(draft.result.value.myUsername, draft.result.value.myPassword))
            && (draft.result.Err? ==> (draft.result.error.EndOfFile? <==> later.result.error.EndOfFile?))
            && (draft.result.Err? && !draft.result.error.EndOfFile? ==> later.result.error == draft.result.error)
  {
  }
}
