/**
 * XOAuth2SaslSmtpAuthExample: resolves a user and an OAuth2 access token
 * (argument, then OAUTH_USER / OAUTH_ACCESS, then the console reached
 * through getTty) and prints the bare Base64 of the XOAUTH2 initial
 * client response "user=" user ^A "auth=Bearer " token ^A ^A.
 */
module XOAuth2SaslSmtpAuthExample {
  import opened Wrappers
  import opened Utf8
  import Base64
  import opened Fields
  import opened Resolver

  const USER_VARIABLE := "OAUTH_USER"
  const ACCESS_VARIABLE := "OAUTH_ACCESS"
  /** The message of the IOException getTty throws. */
  const NOT_ATTACHED := "JVM is not attached to a terminal device."
  /** The XOAUTH2 field separator, U+0001 (^A). */
  const CTRL_A: char := '\U{1}'
  const USER_KEY := "user="
  const AUTH_KEY := "auth=Bearer "

  /** An instance: the user and the access token the constructor sets. */
  datatype Example = Example(myUser: string, myToke: string)

  /** getTty: the console, or an IOException naming the missing terminal. */
  method GetTty(tty: Console?) returns (r: Result<Console, Failure>)
    ensures r.Ok? <==> tty != null
    ensures r.Ok? ==> r.value == tty
    ensures r.Err? ==> r.error == IOError(NOT_ATTACHED)
  {
    if tty == null {
      return Err(IOError(NOT_ATTACHED));
    }
    return Ok(tty);
  }

  /** How the constructor prompts: through getTty, and EOFException has no message. */
  const DIALOGUE := Dialogue(IOError(NOT_ATTACHED), "User: ", EndOfFile(None), "Access Token: ", EndOfFile(None))

  /** The constructor as a function of its arguments, the environment and the console. */
  function New(user: Option<string>, access: Option<string>, env: map<string, string>, tty: Option<Session>): Step<Example>
  {
    var user := if user.None? then Getenv(env, USER_VARIABLE) else user;
    var access := if access.None? then Getenv(env, ACCESS_VARIABLE) else access;
    var s := AskPair(user, access, tty, DIALOGUE);
    match s.result
    case Err(e) => Step(Err(e), s.tty)
    case Ok((u, t)) => Step(Ok(Example(u, t)), s.tty)
  }

  /** The constructor: environment fallback for null arguments, then getTty and a prompt for what is still null. */
  method Construct(user: Option<string>, access: Option<string>, env: map<string, string>, tty: Console?)
    returns (r: Result<Example, Failure>)
    modifies tty
    ensures Step(r, Snapshot(tty)) == New(user, access, env, old(Snapshot(tty)))
  {
    var u, a := user, access;
    if u.None? {
      u := Getenv(env, USER_VARIABLE);
    }
    if a.None? {
      a := Getenv(env, ACCESS_VARIABLE);
    }

    var myUser: string;
    if u.Some? {
      myUser := u.value;
    } else {
      var console := GetTty(tty);
      if console.Err? {
        return Err(console.error);
      }
      var input := console.value.ReadLine("User: ");
      if input.None? {
        return Err(EndOfFile(None));
      }
      myUser := input.value;
    }

    var myToke: string;
    if a.Some? {
      myToke := a.value;
    } else {
      var console := GetTty(tty);
      if console.Err? {
        return Err(console.error);
      }
      var passwordChars := console.value.ReadPassword("Access Token: ");
      if passwordChars.None? {
        return Err(EndOfFile(None));
      }
      myToke := passwordChars.value;
    }
    r := Ok(Example(myUser, myToke));
  }

  /** The credential text run builds. */
  function Credentials(e: Example): string {
    USER_KEY + e.myUser + [CTRL_A] + AUTH_KEY + e.myToke + [CTRL_A, CTRL_A]
  }

  /** The octets run encodes: the UTF-8 of the credential text. */
  function Message(e: Example): seq<Byte> {
    Utf8.Encode(Credentials(e))
  }

  /** The line run prints: the Base64 text alone, with no command in front. */
  function Run(e: Example): string {
    Base64.Encode(Message(e))
  }

  /** main: dispatch on the arguments, construct, run; the result is the printed line. */
  function Execute(args: seq<string>, env: map<string, string>, tty: Option<Session>, defaults: Defaults): Step<string>
  {
    match Arguments(args, defaults)
    case Err(e) => Step(Err(e), tty)
    case Ok((user, access)) =>
      var made := New(user, access, env, tty);
      match made.result
      case Err(e) => Step(Err(e), made.tty)
      case Ok(example) => Step(Ok(Run(example)), made.tty)
  }

  /** main; the compiled-in USER and ACCESS come in as `defaults`. */
  method Launch(args: seq<string>, env: map<string, string>, tty: Console?, defaults: Defaults)
    returns (line: Result<string, Failure>)
    modifies tty
    ensures Step(line, Snapshot(tty)) == Execute(args, env, old(Snapshot(tty)), defaults)
  {
    var example: Result<Example, Failure>;
    if |args| == 0 {
      example := Construct(defaults.identity, defaults.secret, env, tty);
    } else if |args| == 1 {
      example := Construct(Some(args[0]), None, env, tty);
    } else if |args| == 2 {
      example := Construct(Some(args[0]), Some(args[1]), env, tty);
    } else {
      return Err(IllegalArgument);
    }
    if example.Err? {
      return Err(example.error);
    }
    line := Ok(Run(example.value));
  }

  // ---------------------------------------------------------------------
  // Properties of the encoding

  /** The message is the UTF-8 of "user=" and the user, 0x01, the UTF-8 of "auth=Bearer " and the token, 0x01 0x01. */
  lemma MessageLayout(e: Example)
    ensures Message(e) == Utf8.Encode(USER_KEY + e.myUser) + [1] + Utf8.Encode(AUTH_KEY + e.myToke) + [1, 1]
  {
    var x, y := USER_KEY + e.myUser, AUTH_KEY + e.myToke;
    assert Credentials(e) == x + [CTRL_A] + y + [CTRL_A, CTRL_A];
    EncodeParts(x, [CTRL_A], y, [CTRL_A, CTRL_A]);
    assert Utf8.Encode([CTRL_A]) == [1];
    assert Utf8.Encode([CTRL_A, CTRL_A]) == [1, 1];
  }

  /** The printed line is nothing but Base64 text, and it decodes to the message. */
  lemma RunDecodes(e: Example)
    ensures Base64.PaddedAlphabet(Run(e), Base64.PadCount(|Message(e)|))
    ensures |Run(e)| == 4 * ((|Message(e)| + 2) / 3)
    ensures Base64.Decode(Run(e)) == Some(Utf8.Encode(USER_KEY + e.myUser) + [1] + Utf8.Encode(AUTH_KEY + e.myToke) + [1, 1])
  {
    MessageLayout(e);
    Base64.EncodeAlphabet(Message(e));
    Base64.EncodeLength(Message(e));
    Base64.DecodeEncode(Message(e));
  }

  /**
   * A receiver's reading of an XOAUTH2 message: two ^A-terminated fields and
   * a final ^A, the first field "user=" and the user, the second
   * "auth=Bearer " and the token.
   */
  function ParseMessage(m: seq<Byte>): Option<(string, string)> {
    var fields := Split(m, 1);
    if |fields| != 4 || fields[2] != [] || fields[3] != [] then None
    else match (Utf8.Decode(fields[0]), Utf8.Decode(fields[1]))
      case (Some(f), Some(g)) =>
        if |f| >= |USER_KEY| && f[..|USER_KEY|] == USER_KEY && |g| >= |AUTH_KEY| && g[..|AUTH_KEY|] == AUTH_KEY
        then Some((f[|USER_KEY|..], g[|AUTH_KEY|..]))
        else None
      case _ => None
  }

  /** A receiver's reading of the printed line. */
  function ParseLine(line: string): Option<(string, string)> {
    match Base64.Decode(line)
    case None => None
    case Some(m) => ParseMessage(m)
  }

  /** Two ^A-free fields, each followed by ^A, and one more ^A: four fields, the last two empty. */
  lemma SplitFields(f: seq<Byte>, g: seq<Byte>)
    requires 1 !in f && 1 !in g
    ensures Split(f + [1] + g + [1, 1], 1) == [f, g, [], []]
  {
    var fields: seq<seq<Byte>> := [f, g, [], []];
    assert Join([[]], 1) == [];
    assert Join([g, [], []], 1) == g + [1] + ([] + [1] + []);
    assert Join(fields, 1) == f + [1] + (g + [1] + ([] + [1] + []));
    assert f + [1] + (g + [1] + ([] + [1] + [])) == f + [1] + g + [1, 1];
    SplitJoin(fields, 1);
  }

  /** A field is read back as its key and its value. */
  lemma FieldDecodes(key: string, value: string)
    requires CTRL_A !in key && CTRL_A !in value
    ensures 1 !in Utf8.Encode(key + value)
    ensures Utf8.Decode(Utf8.Encode(key + value)) == Some(key + value)
  {
    AsciiOccurs(key + value, 1);
    Utf8.DecodeEncode(key + value);
  }

  /** Separator-free fields are read back as exactly the user and the token. */
  lemma ParseLayout(user: string, token: string)
    requires CTRL_A !in user && CTRL_A !in token
    ensures ParseMessage(Utf8.Encode(USER_KEY + user) + [1] + Utf8.Encode(AUTH_KEY + token) + [1, 1]) == Some((user, token))
  {
    var f, g := Utf8.Encode(USER_KEY + user), Utf8.Encode(AUTH_KEY + token);
    FieldDecodes(USER_KEY, user);
    FieldDecodes(AUTH_KEY, token);
    SplitFields(f, g);
    ParseFields(f + [1] + g + [1, 1], f, g, user, token);
  }

  /** Two fields that decode to the keys and their values are read back as the values. */
  lemma ParseFields(m: seq<Byte>, f: seq<Byte>, g: seq<Byte>, user: string, token: string)
    requires Split(m, 1) == [f, g, [], []]
    requires Utf8.Decode(f) == Some(USER_KEY + user) && Utf8.Decode(g) == Some(AUTH_KEY + token)
    ensures ParseMessage(m) == Some((user, token))
  {
    assert (USER_KEY + user)[..|USER_KEY|] == USER_KEY && (USER_KEY + user)[|USER_KEY|..] == user;
    assert (AUTH_KEY + token)[..|AUTH_KEY|] == AUTH_KEY && (AUTH_KEY + token)[|AUTH_KEY|..] == token;
  }

  /** When neither the user nor the token contains ^A, the receiver reads back exactly the two. */
  lemma RunRoundTrip(e: Example)
    requires CTRL_A !in e.myUser && CTRL_A !in e.myToke
    ensures ParseLine(Run(e)) == Some((e.myUser, e.myToke))
  {
    RunDecodes(e);
    ParseLayout(e.myUser, e.myToke);
  }

  // ---------------------------------------------------------------------
  // Properties of resolution

  /** A non-null argument is used verbatim; the environment is then not consulted for that field. */
  lemma ArgumentWins(user: Option<string>, access: Option<string>, env: map<string, string>, tty: Option<Session>)
    ensures var r := New(user, access, env, tty).result;
            && (r.Ok? && user.Some? ==> r.value.myUser == user.value)
            && (r.Ok? && access.Some? ==> r.value.myToke == access.value)
  {
    var u := if user.None? then Getenv(env, USER_VARIABLE) else user;
    var a := if access.None? then Getenv(env, ACCESS_VARIABLE) else access;
    ExplicitVerbatim(u, a, tty, DIALOGUE);
  }

  /**
   * Zero arguments with USER set and ACCESS null, as shipped: the user is the
   * constant whatever OAUTH_USER says, and the token comes from OAUTH_ACCESS
   * before any prompt.
   */
  lemma NoArgumentsTokenFromEnvironment(user: string, env: map<string, string>, tty: Option<Session>)
    requires ACCESS_VARIABLE in env
    ensures Execute([], env, tty, Defaults(Some(user), None)) == Step(Ok(Run(Example(user, env[ACCESS_VARIABLE]))), tty)
  {
  }

  /** One argument: the token still comes from OAUTH_ACCESS when it is set, before any prompt. */
  lemma OneArgumentConsultsEnvironment(arg: string, env: map<string, string>, tty: Option<Session>, defaults: Defaults)
    requires ACCESS_VARIABLE in env
    ensures Execute([arg], env, tty, defaults) == Step(Ok(Run(Example(arg, env[ACCESS_VARIABLE]))), tty)
  {
  }

  /** With no terminal, a token that must be prompted for fails with getTty's IOException and nothing is read. */
  lemma NoTerminalFailsBeforeRead(arg: string, env: map<string, string>, defaults: Defaults)
    requires ACCESS_VARIABLE !in env
    ensures Execute([arg], env, None, defaults) == Step(Err(IOError(NOT_ATTACHED)), None)
  {
  }

  /** Prompting happens only for fields still null after the environment, the user first, the token masked. */
  lemma PromptsInOrder(env: map<string, string>, shown: seq<Prompt>, a: string, b: string, rest: seq<Option<string>>)
    requires USER_VARIABLE !in env && ACCESS_VARIABLE !in env
    ensures New(None, None, env, Some(Session([Some(a), Some(b)] + rest, shown)))
         == Step(Ok(Example(a, b)), Some(Session(rest, shown + [Prompt("User: ", false), Prompt("Access Token: ", true)])))
  {
    IdentityPromptedFirst(shown, a, b, rest, DIALOGUE);
  }

  /** Three or more arguments fail with IllegalArgumentException before anything is read. */
  lemma TooManyArguments(args: seq<string>, env: map<string, string>, tty: Option<Session>, defaults: Defaults)
    requires |args| > 2
    ensures Execute(args, env, tty, defaults) == Step(Err(IllegalArgument), tty)
  {
  }
}
