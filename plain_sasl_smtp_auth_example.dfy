/**
 * PlainSaslSmtpAuthExample: resolves a username and password (argument,
 * then SASL_USERNAME / SASL_PASSWORD, then the console) and prints
 * "AUTH PLAIN " followed by the Base64 of the SASL PLAIN message of
 * section 2 of RFC 4616 with an empty authorization identity.
 */
module PlainSaslSmtpAuthExample {
  import opened Wrappers
  import opened Utf8
  import Base64
  import opened Fields
  import opened Resolver

  const USERNAME_VARIABLE := "SASL_USERNAME"
  const PASSWORD_VARIABLE := "SASL_PASSWORD"
  const COMMAND := "AUTH PLAIN "
  const NUL: char := '\0'

  /** An instance: the two final fields the constructor sets. */
  datatype Example = Example(myUsername: string, myPassword: string)

  /** How the constructor prompts: System.console() is used unchecked, and EOFException has no message. */
  const DIALOGUE := Dialogue(NullPointer, "Username: ", EndOfFile(None), "Password: ", EndOfFile(None))

  /** The constructor as a function of its arguments, the environment and the console. */
  function New(username: Option<string>, password: Option<string>, env: map<string, string>, tty: Option<Session>): Step<Example>
  {
    var username := if username.None? then Getenv(env, USERNAME_VARIABLE) else username;
    var password := if password.None? then Getenv(env, PASSWORD_VARIABLE) else password;
    var s := AskPair(username, password, tty, DIALOGUE);
    match s.result
    case Err(e) => Step(Err(e), s.tty)
    case Ok((u, p)) => Step(Ok(Example(u, p)), s.tty)
  }

  /** The constructor: environment fallback for null arguments, then the console for what is still null. */
  method Construct(username: Option<string>, password: Option<string>, env: map<string, string>, tty: Console?)
    returns (r: Result<Example, Failure>)
    modifies tty
    ensures Step(r, Snapshot(tty)) == New(username, password, env, old(Snapshot(tty)))
  {
    var user, pass := username, password;
    if user.None? {
      user := Getenv(env, USERNAME_VARIABLE);
    }
    if pass.None? {
      pass := Getenv(env, PASSWORD_VARIABLE);
    }

    var myUsername: string;
    if user.Some? {
      myUsername := user.value;
    } else {
      if tty == null {
        return Err(NullPointer);
      }
      var input := tty.ReadLine("Username: ");
      if input.None? {
        return Err(EndOfFile(None));
      }
      myUsername := input.value;
    }

    var myPassword: string;
    if pass.Some? {
      myPassword := pass.value;
    } else {
      if tty == null {
        return Err(NullPointer);
      }
      var passwordChars := tty.ReadPassword("Password: ");
      if passwordChars.None? {
        return Err(EndOfFile(None));
      }
      myPassword := passwordChars.value;
    }
    r := Ok(Example(myUsername, myPassword));
  }

  /** The credential text run builds: empty authzid, NUL, authcid, NUL, passwd. */
  function Credentials(e: Example): string {
    [NUL] + e.myUsername + [NUL] + e.myPassword
  }

  /** The octets run encodes: the UTF-8 of the credential text. */
  function Message(e: Example): seq<Byte> {
    Utf8.Encode(Credentials(e))
  }

  /** The line run prints. */
  function Run(e: Example): string {
    COMMAND + Base64.Encode(Message(e))
  }

  /** main: dispatch on the arguments, construct, run; the result is the printed line. */
  function Execute(args: seq<string>, env: map<string, string>, tty: Option<Session>, defaults: Defaults): Step<string>
  {
    match Arguments(args, defaults)
    case Err(e) => Step(Err(e), tty)
    case Ok((username, password)) =>
      var made := New(username, password, env, tty);
      match made.result
      case Err(e) => Step(Err(e), made.tty)
      case Ok(example) => Step(Ok(Run(example)), made.tty)
  }

  /** main; the compiled-in USERNAME and PASSWORD come in as `defaults`. */
  method Launch(args: seq<string>, env: map<string, string>, tty: Console?, defaults: Defaults)
    returns (line: Result<string, Failure>)
    modifies tty
    ensures Step(line, Snapshot(tty)) == Execute(args, env, old(Snapshot(tty)), defaults)
  {
    var example: Result<Example, Failure>;
    if |args| == 0 {
      example := Construct(defaults.identity, defaults.secret, env, tty);
    } else if |args| == 1 {
      example := Construct(Some(args[0]), None, env, tty);
    } else if |args| == 2 {
      example := Construct(Some(args[0]), Some(args[1]), env, tty);
    } else {
      return Err(IllegalArgument);
    }
    if example.Err? {
      return Err(example.error);
    }
    line := Ok(Run(example.value));
  }

  // ---------------------------------------------------------------------
  // Properties of the encoding

  /** The message is exactly NUL, the UTF-8 of the username, NUL, the UTF-8 of the password. */
  lemma MessageLayout(e: Example)
    ensures Message(e) == [0] + Utf8.Encode(e.myUsername) + [0] + Utf8.Encode(e.myPassword)
  {
    EncodeParts([NUL], e.myUsername, [NUL], e.myPassword);
    assert Utf8.Encode([NUL]) == [0];
  }

  /** The printed line is the command followed by Base64 text that decodes to the message. */
  lemma RunDecodes(e: Example)
    ensures |Run(e)| == |COMMAND| + 4 * ((|Message(e)| + 2) / 3)
    ensures Run(e)[..|COMMAND|] == COMMAND
    ensures Base64.Decode(Run(e)[|COMMAND|..]) == Some([0] + Utf8.Encode(e.myUsername) + [0] + Utf8.Encode(e.myPassword))
  {
    MessageLayout(e);
    Base64.EncodeLength(Message(e));
    Base64.DecodeEncode(Message(e));
    assert Run(e)[|COMMAND|..] == Base64.Encode(Message(e));
  }

  /**
   * A receiver's reading of a PLAIN message: exactly three NUL-separated
   * fields, each UTF-8, giving authzid, authcid and passwd.
   */
  function ParseMessage(m: seq<Byte>): Option<(string, string, string)> {
    var fields := Split(m, 0);
    if |fields| != 3 then None
    else match (Utf8.Decode(fields[0]), Utf8.Decode(fields[1]), Utf8.Decode(fields[2]))
      case (Some(authzid), Some(authcid), Some(passwd)) => Some((authzid, authcid, passwd))
      case _ => None
  }

  /** A receiver's reading of the printed line. */
  function ParseLine(line: string): Option<(string, string, string)> {
    if |line| < |COMMAND| || line[..|COMMAND|] != COMMAND then None
    else match Base64.Decode(line[|COMMAND|..])
      case None => None
      case Some(m) => ParseMessage(m)
  }

  /** Separator-free fields are read back as an empty authzid, the username and the password. */
  lemma ParseLayout(username: string, password: string)
    requires NUL !in username && NUL !in password
    ensures ParseMessage([0] + Utf8.Encode(username) + [0] + Utf8.Encode(password)) == Some(("", username, password))
  {
    var u, p := Utf8.Encode(username), Utf8.Encode(password);
    AsciiOccurs(username, 0);
    AsciiOccurs(password, 0);
    SplitFields(u, p);
    Utf8.DecodeEncode(username);
    Utf8.DecodeEncode(password);
  }

  /** NUL, a NUL-free field, NUL, a NUL-free field: three fields, the first empty. */
  lemma SplitFields(u: seq<Byte>, p: seq<Byte>)
    requires 0 !in u && 0 !in p
    ensures Split([0] + u + [0] + p, 0) == [[], u, p]
  {
    var fields := [[], u, p];
    assert Join([p], 0) == p;
    assert Join([u, p], 0) == u + [0] + p;
    assert Join(fields, 0) == [] + [0] + (u + [0] + p) == [0] + u + [0] + p;
    SplitJoin(fields, 0);
  }

  /**
   * When neither field contains NUL, the receiver reads back an empty authzid
   * and exactly the username and password.
   */
  lemma RunRoundTrip(e: Example)
    requires NUL !in e.myUsername && NUL !in e.myPassword
    ensures ParseLine(Run(e)) == Some(("", e.myUsername, e.myPassword))
  {
    RunDecodes(e);
    ParseLayout(e.myUsername, e.myPassword);
  }

  /**
   * The framing is the caller's responsibility: with a NUL inside a field,
   * two different credential pairs give the same message.
   */
  lemma EmbeddedNulAmbiguous()
    ensures Example("a\0b", "c") != Example("a", "b\0c")
    ensures Message(Example("a\0b", "c")) == Message(Example("a", "b\0c"))
  {
    assert Credentials(Example("a\0b", "c")) == Credentials(Example("a", "b\0c"));
  }

  // ---------------------------------------------------------------------
  // A worked example: alice@example.com / s3cret
  //
  // The proof goes piece by piece: the message is cut into three 6-octet
  // pieces and a last one, each piece is encoded on its own, and AliceLine
  // puts the line together. The strings come in as parameters pinned by
  // `requires` rather than as literals in the ensures, so that the solver
  // does not unfold Encode over a whole literal at once.

  /** The message for alice@example.com / s3cret in four pieces, the first three of six octets each. */
  lemma AlicePieces(u: string, p: string, s1: string, s2: string, s3: string, s4: string)
    returns (a: seq<Byte>, b: seq<Byte>, c: seq<Byte>, d: seq<Byte>)
    requires u == "alice@example.com" && p == "s3cret"
    requires s1 == "\0alice" && s2 == "@examp" && s3 == "le.com" && s4 == "\0s3cret"
    ensures Message(Example(u, p)) == a + (b + (c + d))
    ensures a == [0, 97, 108, 105, 99, 101] && b == [64, 101, 120, 97, 109, 112]
    ensures c == [108, 101, 46, 99, 111, 109] && d == [0, 115, 51, 99, 114, 101, 116]
  {
    AliceText(u, p, s1, s2, s3, s4);
    MessagePieces(Example(u, p), s1, s2, s3, s4);
    a, b, c, d := Utf8.Encode(s1), Utf8.Encode(s2), Utf8.Encode(s3), Utf8.Encode(s4);
    AsciiPiece(s1, [0, 97, 108, 105, 99, 101]);
    AsciiPiece(s2, [64, 101, 120, 97, 109, 112]);
    AsciiPiece(s3, [108, 101, 46, 99, 111, 109]);
    AsciiPiece(s4, [0, 115, 51, 99, 114, 101, 116]);
  }

  /** The credential text of alice@example.com / s3cret cut after 6, 12 and 18 chars. */
  lemma AliceText(u: string, p: string, s1: string, s2: string, s3: string, s4: string)
    requires u == "alice@example.com" && p == "s3cret"
    requires s1 == "\0alice" && s2 == "@examp" && s3 == "le.com" && s4 == "\0s3cret"
    ensures Credentials(Example(u, p)) == s1 + (s2 + (s3 + s4))
  {
  }

  /** A credential text cut into four pieces gives a message cut into their encodings. */
  lemma MessagePieces(e: Example, s1: string, s2: string, s3: string, s4: string)
    requires Credentials(e) == s1 + (s2 + (s3 + s4))
    ensures Message(e) == Utf8.Encode(s1) + (Utf8.Encode(s2) + (Utf8.Encode(s3) + Utf8.Encode(s4)))
  {
    EncodeConcat(s1, s2 + (s3 + s4));
    EncodeConcat(s2, s3 + s4);
    EncodeConcat(s3, s4);
  }

  /** ASCII text is encoded one octet per char, each char's code. */
  lemma AsciiPiece(s: string, bytes: seq<Byte>)
    requires |s| == |bytes|
    requires forall i :: 0 <= i < |s| ==> s[i] as int == bytes[i] < 0x80
    ensures Utf8.Encode(s) == bytes
  {
    EncodeAscii(s);
  }

  /** Two full quanta. */
  lemma EncodeSix(m: seq<Byte>)
    requires |m| == 6
    ensures Base64.Encode(m) == Base64.EncodeTriple(m[0], m[1], m[2]) + Base64.EncodeTriple(m[3], m[4], m[5])
  {
    Base64.EncodeStep(m);
    Base64.EncodeStep(m[3..]);
    assert Base64.Encode(m[3..][3..]) == "";
  }

  /** The first piece: groups 0 6 5 44 and 26 22 13 37. */
  lemma AliceQuanta1(a: seq<Byte>)
    requires a == [0, 97, 108, 105, 99, 101]
    ensures Base64.Encode(a) == "AGFsaWNl"
  {
    EncodeSix(a);
    assert Base64.SextetChar(0) == 'A' && Base64.SextetChar(6) == 'G' && Base64.SextetChar(5) == 'F' && Base64.SextetChar(44) == 's';
    assert Base64.SextetChar(26) == 'a' && Base64.SextetChar(22) == 'W' && Base64.SextetChar(13) == 'N' && Base64.SextetChar(37) == 'l';
  }

  /** The second piece: groups 16 6 21 56 and 24 22 53 48. */
  lemma AliceQuanta2(b: seq<Byte>)
    requires b == [64, 101, 120, 97, 109, 112]
    ensures Base64.Encode(b) == "QGV4YW1w"
  {
    EncodeSix(b);
    assert Base64.SextetChar(16) == 'Q' && Base64.SextetChar(6) == 'G' && Base64.SextetChar(21) == 'V' && Base64.SextetChar(56) == '4';
    assert Base64.SextetChar(24) == 'Y' && Base64.SextetChar(22) == 'W' && Base64.SextetChar(53) == '1' && Base64.SextetChar(48) == 'w';
  }

  /** The third piece: groups 27 6 20 46 and 24 54 61 45. */
  lemma AliceQuanta3(c: seq<Byte>)
    requires c == [108, 101, 46, 99, 111, 109]
    ensures Base64.Encode(c) == "bGUuY29t"
  {
    EncodeSix(c);
    assert Base64.SextetChar(27) == 'b' && Base64.SextetChar(6) == 'G' && Base64.SextetChar(20) == 'U' && Base64.SextetChar(46) == 'u';
    assert Base64.SextetChar(24) == 'Y' && Base64.SextetChar(54) == '2' && Base64.SextetChar(61) == '9' && Base64.SextetChar(45) == 't';
  }

  /** The last piece: groups 0 7 12 51 and 24 55 9 37, then 29 0 and padding. */
  lemma AliceQuanta4(d: seq<Byte>)
    requires d == [0, 115, 51, 99, 114, 101, 116]
    ensures Base64.Encode(d) == "AHMzY3JldA=="
  {
    EncodeSix(d[..6]);
    Base64.EncodeAppend(d[..6], d[6..]);
    assert d[..6] + d[6..] == d && d[6..] == [116];
    assert Base64.SextetChar(0) == 'A' && Base64.SextetChar(7) == 'H' && Base64.SextetChar(12) == 'M' && Base64.SextetChar(51) == 'z';
    assert Base64.SextetChar(24) == 'Y' && Base64.SextetChar(55) == '3' && Base64.SextetChar(9) == 'J' && Base64.SextetChar(37) == 'l';
    assert Base64.SextetChar(29) == 'd';
  }

  /** Pieces whose lengths are multiples of three are encoded one after the other. */
  lemma EncodePieces(a: seq<Byte>, b: seq<Byte>, c: seq<Byte>, d: seq<Byte>)
    requires |a| == 6 && |b| == 6 && |c| == 6
    ensures Base64.Encode(a + (b + (c + d))) == Base64.Encode(a) + (Base64.Encode(b) + (Base64.Encode(c) + Base64.Encode(d)))
  {
    Base64.EncodeAppend(c, d);
    EncodeFront(b, c + d, Base64.Encode(c) + Base64.Encode(d));
    EncodeFront(a, b + (c + d), Base64.Encode(b) + (Base64.Encode(c) + Base64.Encode(d)));
  }

  lemma EncodeFront(a: seq<Byte>, rest: seq<Byte>, text: string)
    requires |a| % 3 == 0 && Base64.Encode(rest) == text
    ensures Base64.Encode(a + rest) == Base64.Encode(a) + text
  {
    Base64.EncodeAppend(a, rest);
  }

  /** The line printed for alice@example.com / s3cret. */
  lemma AliceLine(u: string, p: string)
    requires u == "alice@example.com" && p == "s3cret"
    ensures Run(Example(u, p)) == COMMAND + "AGFsaWNlQGV4YW1wbGUuY29tAHMzY3JldA=="
  {
    var a, b, c, d := AlicePieces(u, p, "\0alice", "@examp", "le.com", "\0s3cret");
    AliceQuanta1(a);
    AliceQuanta2(b);
    AliceQuanta3(c);
    AliceQuanta4(d);
    EncodePieces(a, b, c, d);
    AliceLineText(Base64.Encode(a), Base64.Encode(b), Base64.Encode(c), Base64.Encode(d));
  }

  lemma AliceLineText(x: string, y: string, z: string, w: string)
    requires x == "AGFsaWNl" && y == "QGV4YW1w" && z == "bGUuY29t" && w == "AHMzY3JldA=="
    ensures x + (y + (z + w)) == "AGFsaWNlQGV4YW1wbGUuY29tAHMzY3JldA=="
  {
  }

  // ---------------------------------------------------------------------
  // Properties of resolution

  /** A non-null argument is used verbatim; the environment is then not consulted for that field. */
  lemma ArgumentWins(username: Option<string>, password: Option<string>, env: map<string, string>, tty: Option<Session>)
    ensures var r := New(username, password, env, tty).result;
            && (r.Ok? && username.Some? ==> r.value.myUsername == username.value)
            && (r.Ok? && password.Some? ==> r.value.myPassword == password.value)
  {
    var u := if username.None? then Getenv(env, USERNAME_VARIABLE) else username;
    var p := if password.None? then Getenv(env, PASSWORD_VARIABLE) else password;
    ExplicitVerbatim(u, p, tty, DIALOGUE);
  }

  /** A null argument whose variable is set takes the variable's value, with no prompt for it. */
  lemma EnvironmentBeforePrompt(env: map<string, string>, tty: Option<Session>)
    requires USERNAME_VARIABLE in env && PASSWORD_VARIABLE in env
    ensures New(None, None, env, tty) == Step(Ok(Example(env[USERNAME_VARIABLE], env[PASSWORD_VARIABLE])), tty)
  {
  }

  /**
   * SASL_USERNAME set, SASL_PASSWORD unset and no arguments for either: the
   * username comes from the environment and only "Password: " is shown.
   */
  lemma OnlyPasswordPrompted(env: map<string, string>, shown: seq<Prompt>, b: string, rest: seq<Option<string>>)
    requires USERNAME_VARIABLE in env && PASSWORD_VARIABLE !in env
    ensures New(None, None, env, Some(Session([Some(b)] + rest, shown)))
         == Step(Ok(Example(env[USERNAME_VARIABLE], b)), Some(Session(rest, shown + [Prompt("Password: ", true)])))
  {
    OnlySecretPrompted(env[USERNAME_VARIABLE], shown, b, rest, DIALOGUE);
  }

  /** Prompting happens only for fields still null after the environment, username first. */
  lemma PromptsInOrder(env: map<string, string>, shown: seq<Prompt>, a: string, b: string, rest: seq<Option<string>>)
    requires USERNAME_VARIABLE !in env && PASSWORD_VARIABLE !in env
    ensures New(None, None, env, Some(Session([Some(a), Some(b)] + rest, shown)))
         == Step(Ok(Example(a, b)), Some(Session(rest, shown + [Prompt("Username: ", false), Prompt("Password: ", true)])))
  {
    IdentityPromptedFirst(shown, a, b, rest, DIALOGUE);
  }

  /**
   * Zero arguments with both constants set: the constants are used, and neither
   * the environment nor the console is touched.
   */
  lemma NoArgumentsUseConstants(username: string, password: string, env: map<string, string>, tty: Option<Session>)
    ensures Execute([], env, tty, Defaults(Some(username), Some(password))) == Step(Ok(Run(Example(username, password))), tty)
  {
  }

  /**
   * One argument: the password still comes from SASL_PASSWORD when it is set,
   * before any prompt.
   */
  lemma OneArgumentConsultsEnvironment(arg: string, env: map<string, string>, tty: Option<Session>, defaults: Defaults)
    requires PASSWORD_VARIABLE in env
    ensures Execute([arg], env, tty, defaults) == Step(Ok(Run(Example(arg, env[PASSWORD_VARIABLE]))), tty)
  {
  }

  /** Three or more arguments fail with IllegalArgumentException before anything is read. */
  lemma TooManyArguments(args: seq<string>, env: map<string, string>, tty: Option<Session>, defaults: Defaults)
    requires |args| > 2
    ensures Execute(args, env, tty, defaults) == Step(Err(IllegalArgument), tty)
  {
  }
}
