/**
 * What the three programs share when they resolve a credential pair: the
 * exceptions they throw, the console (java.io.Console, reached through
 * System.console()) and the "keep the value or prompt for it" rule applied
 * first to the identity and then to the secret.
 */
module Resolver {
  import opened Wrappers

  /** The exceptions that end a run. */
  datatype Failure =
    | IllegalArgument                  // IllegalArgumentException(usage()): a third argument
    | NullPointer                      // System.console() was null and was dereferenced
    | IOError(message: string)         // IOException, as thrown by getTty
    | EndOfFile(detail: Option<string>) // EOFException: a prompt read end of input; detail is its message

  /** A prompt shown on the console; `masked` for readPassword, which does not echo. */
  datatype Prompt = Prompt(text: string, masked: bool)

  /** A console as a value: the replies still to come and the prompts shown so far. */
  datatype Session = Session(input: seq<Option<string>>, shown: seq<Prompt>)

  /** What a run returns together with the console state it leaves; None is "no console". */
  datatype Step<+T> = Step(result: Result<T, Failure>, tty: Option<Session>)

  /** The two compiled-in constants main passes when it has no arguments; either may be null. */
  datatype Defaults = Defaults(identity: Option<string>, secret: Option<string>)

  /**
   * main's choice of constructor arguments: the constants for no arguments,
   * the first argument and null for one, both arguments for two; a third
   * argument is refused.
   */
  function Arguments(args: seq<string>, defaults: Defaults): (r: Result<(Option<string>, Option<string>), Failure>)
    ensures r.Err? <==> |args| > 2
    ensures r.Err? ==> r.error == IllegalArgument
    ensures |args| == 0 ==> r == Ok((defaults.identity, defaults.secret))
    ensures 0 < |args| <= 2 ==> r.Ok? && r.value.0 == Some(args[0])
    ensures 0 < |args| <= 2 ==> (r.value.1.Some? <==> |args| == 2) && (|args| == 2 ==> r.value.1 == Some(args[1]))
  {
    if |args| == 0 then Ok((defaults.identity, defaults.secret))
    else if |args| == 1 then Ok((Some(args[0]), None))
    else if |args| == 2 then Ok((Some(args[0]), Some(args[1])))
    else Err(IllegalArgument)
  }

  /** System.getenv: null when the variable is not set. */
  function Getenv(env: map<string, string>, name: string): (r: Option<string>)
    ensures r.Some? <==> name in env
    ensures r.Some? ==> r.value == env[name]
  {
    if name in env then Some(env[name]) else None
  }

  /**
   * One console read: shows the prompt, then takes the next reply; once the
   * replies are used up every read is at end of input (None, Java's null).
   */
  function Read(s: Session, fmt: string, masked: bool): (r: (Option<string>, Session))
    ensures r.1.shown == s.shown + [Prompt(fmt, masked)]
    ensures s.input == [] ==> r.0 == None && r.1.input == []
    ensures s.input != [] ==> r.0 == s.input[0] && r.1.input == s.input[1..]
  {
    if s.input == [] then (None, Session([], s.shown + [Prompt(fmt, masked)]))
    else (s.input[0], Session(s.input[1..], s.shown + [Prompt(fmt, masked)]))
  }

  /** The object System.console() returns when the process has a terminal. */
  class Console {
    var input: seq<Option<string>>
    var shown: seq<Prompt>

    constructor (input: seq<Option<string>>)
      ensures this.input == input && shown == []
    {
      this.input := input;
      shown := [];
    }

    function State(): Session
      reads this
    {
      Session(input, shown)
    }

    /** Console.readLine(fmt): an echoed prompt; null at end of input. */
    method ReadLine(fmt: string) returns (line: Option<string>)
      modifies this
      ensures (line, State()) == Read(old(State()), fmt, false)
    {
      shown := shown + [Prompt(fmt, false)];
      if input == [] {
        line := None;
      } else {
        line := input[0];
        input := input[1..];
      }
    }

    /** Console.readPassword(fmt): a prompt without echo; null at end of input. */
    method ReadPassword(fmt: string) returns (password: Option<string>)
      modifies this
      ensures (password, State()) == Read(old(State()), fmt, true)
    {
      shown := shown + [Prompt(fmt, true)];
      if input == [] {
        password := None;
      } else {
        password := input[0];
        input := input[1..];
      }
    }
  }

  /** The state of what System.console() returned: None when it returned null. */
  function Snapshot(tty: Console?): Option<Session>
    reads tty
  {
    if tty == null then None else Some(tty.State())
  }

  /** How a program prompts: its failure when there is no console, and each field's prompt and end-of-input failure. */
  datatype Dialogue = Dialogue(
    noConsole: Failure,
    identityPrompt: string, identityEof: Failure,
    secretPrompt: string, secretEof: Failure)

  /**
   * One slot: a non-null value is kept and the console left alone; a null one
   * needs the console, and is the next reply, or fails at end of input.
   * The contract is the case table of one slot; what the two slots together
   * give is stated by the lemmas after AskPair.
   */
  function Ask(value: Option<string>, tty: Option<Session>, noConsole: Failure, fmt: string, masked: bool, eof: Failure): (r: Step<string>)
    ensures value.Some? ==> r == Step(Ok(value.value), tty)
    ensures value.None? && tty.None? ==> r == Step(Err(noConsole), None)
    ensures value.None? && tty.Some? ==>
              var (reply, after) := Read(tty.value, fmt, masked);
              r == Step(if reply.None? then Err(eof) else Ok(reply.value), Some(after))
  {
    if value.Some? then Step(Ok(value.value), tty)
    else if tty.None? then Step(Err(noConsole), None)
    else
      var (reply, after) := Read(tty.value, fmt, masked);
      if reply.None? then Step(Err(eof), Some(after)) else Step(Ok(reply.value), Some(after))
  }

  /** Both slots, the identity first; the secret is not asked for once the identity failed. */
  function AskPair(identity: Option<string>, secret: Option<string>, tty: Option<Session>, d: Dialogue): Step<(string, string)>
  {
    var i := Ask(identity, tty, d.noConsole, d.identityPrompt, false, d.identityEof);
    if i.result.Err? then Step(Err(i.result.error), i.tty)
    else
      var s := Ask(secret, i.tty, d.noConsole, d.secretPrompt, true, d.secretEof);
      if s.result.Err? then Step(Err(s.result.error), s.tty)
      else Step(Ok((i.result.value, s.result.value)), s.tty)
  }

  /** Two resolved values are used verbatim and nothing is read from the console, whatever its state. */
  lemma NothingReadUnlessNeeded(identity: string, secret: string, tty: Option<Session>, d: Dialogue)
    ensures AskPair(Some(identity), Some(secret), tty, d) == Step(Ok((identity, secret)), tty)
  {
  }

  /** A non-null value reaches the result verbatim, whatever happens to the other slot. */
  lemma ExplicitVerbatim(identity: Option<string>, secret: Option<string>, tty: Option<Session>, d: Dialogue)
    ensures var r := AskPair(identity, secret, tty, d).result;
            && (r.Ok? && identity.Some? ==> r.value.0 == identity.value)
            && (r.Ok? && secret.Some? ==> r.value.1 == secret.value)
  {
  }

  /** With no console, a needed prompt fails with the program's failure and nothing is read. */
  lemma NoConsoleFailsBeforeRead(identity: Option<string>, secret: Option<string>, d: Dialogue)
    requires identity.None? || secret.None?
    ensures AskPair(identity, secret, None, d) == Step(Err(d.noConsole), None)
  {
  }

  /**
   * Both prompted: the identity prompt comes first and takes the first reply,
   * the secret prompt (masked) the second; any string, the empty one
   * included, is accepted.
   */
  lemma IdentityPromptedFirst(shown: seq<Prompt>, a: string, b: string, rest: seq<Option<string>>, d: Dialogue)
    ensures AskPair(None, None, Some(Session([Some(a), Some(b)] + rest, shown)), d)
         == Step(Ok((a, b)), Some(Session(rest, shown + [Prompt(d.identityPrompt, false), Prompt(d.secretPrompt, true)])))
  {
    var input := [Some(a), Some(b)] + rest;
    assert input[1..] == [Some(b)] + rest && input[1..][1..] == rest;
    var p, q := Prompt(d.identityPrompt, false), Prompt(d.secretPrompt, true);
    assert shown + [p] + [q] == shown + [p, q];
  }

  /** End of input at the identity prompt fails with its failure, and the secret is never asked for. */
  lemma IdentityEndOfInput(secret: Option<string>, s: Session, d: Dialogue)
    requires s.input == [] || s.input[0].None?
    ensures AskPair(None, secret, Some(s), d).result == Err(d.identityEof)
    ensures AskPair(None, secret, Some(s), d).tty.value.shown == s.shown + [Prompt(d.identityPrompt, false)]
  {
  }

  /** End of input at the secret prompt fails with the secret's failure. */
  lemma SecretEndOfInput(identity: string, s: Session, d: Dialogue)
    requires s.input == [] || s.input[0].None?
    ensures AskPair(Some(identity), None, Some(s), d).result == Err(d.secretEof)
    ensures AskPair(Some(identity), None, Some(s), d).tty.value.shown == s.shown + [Prompt(d.secretPrompt, true)]
  {
  }

  /**
   * The identity is answered, then end of input at the secret prompt: the
   * secret's failure, with both prompts shown and the identity's reply used up.
   */
  lemma SecretEndOfInputAfterIdentity(shown: seq<Prompt>, a: string, d: Dialogue)
    ensures AskPair(None, None, Some(Session([Some(a)], shown)), d)
         == Step(Err(d.secretEof), Some(Session([], shown + [Prompt(d.identityPrompt, false), Prompt(d.secretPrompt, true)])))
  {
    var p, q := Prompt(d.identityPrompt, false), Prompt(d.secretPrompt, true);
    assert shown + [p] + [q] == shown + [p, q];
  }

  /** A resolved identity and a null secret: only the secret prompt is shown, and its reply is the secret. */
  lemma OnlySecretPrompted(identity: string, shown: seq<Prompt>, b: string, rest: seq<Option<string>>, d: Dialogue)
    ensures AskPair(Some(identity), None, Some(Session([Some(b)] + rest, shown)), d)
         == Step(Ok((identity, b)), Some(Session(rest, shown + [Prompt(d.secretPrompt, true)])))
  {
    assert ([Some(b)] + rest)[1..] == rest;
  }

  /** The identity a successful resolution gives does not depend on the secret slot. */
  lemma IdentityIndependent(identity: Option<string>, secret1: Option<string>, secret2: Option<string>, tty: Option<Session>, d: Dialogue)
    requires AskPair(identity, secret1, tty, d).result.Ok? && AskPair(identity, secret2, tty, d).result.Ok?
    ensures AskPair(identity, secret1, tty, d).result.value.0 == AskPair(identity, secret2, tty, d).result.value.0
  {
  }
}
