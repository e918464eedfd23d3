# sasl-encoder in Dafny

A model of the three small Java programs of sasl-encoder. Each one turns a
credential pair into the Base64 text that an SMTP client sends to
authenticate.

- `PlainSaslSmtpAuthExample` builds the SASL PLAIN message of section 2 of
  RFC 4616. The layout is NUL, the username, NUL, the password, with an empty
  authorization identity. It UTF-8 encodes the message, encodes that with
  Base64 and prints `AUTH PLAIN ` followed by the result.
- `XOAuth2SaslSmtpAuthExample` builds the XOAUTH2 initial response:
  `user=` and the user, ^A, `auth=Bearer ` and the access token, ^A ^A. It
  prints the bare Base64 of its UTF-8.
- `PlainSaslSmtpExample` is the earlier draft. It only resolves the two
  credentials, and its `run` does nothing.

Each program first resolves its two credentials. The two later programs'
`main` dispatches on the argument count: no arguments take the compiled-in
constants, one argument sets the first credential and leaves the second
null, two set both, and a third is refused. The draft's `main` ignores its
arguments and always passes the constants. The two later programs then
replace a null credential by an environment variable if it is set. Whatever is still null is read from
the console. The identity is resolved first, then the secret, read with
`readPassword`.

The project is split into modules:

- `Wrappers`: `Option` and `Result`.
- `Utf8`: the encoder of section 3 of RFC 3629 and a strict decoder, with
  the round trip.
- `Base64`: the encoder of section 4 of RFC 4648 and a decoder that accepts
  only canonical text (section 3.5). It proves:
  - the round trip in both directions;
  - the output length;
  - the output alphabet and padding.
- `Fields`: splitting octets on a separator, and joining them back.
- `Resolver`: the pieces the three programs share:
  - the exceptions that end a run;
  - `java.io.Console` as a class whose `readLine` and `readPassword` consume
    a queue of replies (a `null` `Console?` is "no console");
  - `System.getenv` over a map;
  - the keep-or-prompt rule for one slot and for the pair.
- One module per Java file. Each has an imperative `Construct` and `Launch`,
  proved against pure `New` and `Execute` functions, and a pure `Run`.

The code is followed wherever the comments differ from it:

- The header comment of `PlainSaslSmtpAuthExample.java` (lines 14-17) says
  that one argument makes the program prompt for the password. The code
  first tries `SASL_PASSWORD` (lines 113-115).
  `PlainSaslSmtpAuthExample.OneArgumentConsultsEnvironment` states what the
  code does.
- `XOAuth2SaslSmtpAuthExample.java` (lines 24-27) has the same comment, and
  its code tries `OAUTH_ACCESS` (lines 150-152).
  `XOAuth2SaslSmtpAuthExample.OneArgumentConsultsEnvironment` states that.

## Model

| member | source | states |
|---|---|---|
| Utf8.EncodeChar | src/PlainSaslSmtpAuthExample.java:140 | one to four octets per scalar value; one octet, equal to the code, exactly for ASCII; all octets of a multi-octet form are 0x80 or above |
| Utf8.Encode | src/PlainSaslSmtpAuthExample.java:140 | `getBytes(UTF_8)`: between one and four octets per char; DecodeEncode, EncodeConcat, EncodeParts, AsciiOccurs and EncodeAscii say what the octets are |
| Utf8.DecodeEncode | src/PlainSaslSmtpAuthExample.java:140 | the strict UTF-8 decoder gives back every string the encoder was given: getBytes loses nothing |
| Utf8.DecodeEncodeChar | src/PlainSaslSmtpAuthExample.java:140 | decoding the encoding of one char, followed by anything, gives that char and its octet count |
| Utf8.EncodeConcat | src/PlainSaslSmtpAuthExample.java:139-140 | the encoding of a concatenation is the concatenation of the encodings |
| Utf8.EncodeParts | src/XOAuth2SaslSmtpAuthExample.java:177-178 | the same for four pieces in a row |
| Utf8.AsciiOccurs | src/PlainSaslSmtpAuthExample.java:139-140 | an ASCII octet (such as NUL or 0x01) occurs in the encoding exactly when its char occurs in the text |
| Utf8.EncodeAscii | src/PlainSaslSmtpAuthExample.java:140 | ASCII text is encoded one octet per char, each equal to the char's code |
| Base64.CharSextet | src/PlainSaslSmtpAuthExample.java:141 | a char stands for a 6-bit group exactly when it is in the alphabet, and that group is written as that char |
| Base64.Encode | src/PlainSaslSmtpAuthExample.java:141 | `encodeToString`: DecodeEncode, EncodeDecode and DecodeIff tie it to the canonical decoder, EncodeLength gives its length, EncodeAlphabet its chars and padding, AliceLine one concrete output |
| Base64.CharOfSextet | src/PlainSaslSmtpAuthExample.java:141 | reading back the char written for a group gives the group |
| Base64.SextetAlphabet | src/PlainSaslSmtpAuthExample.java:141 | every 6-bit group is written as a char of the standard alphabet |
| Base64.DecodeQuantum | src/PlainSaslSmtpAuthExample.java:141 | a 4-char quantum gives one to three octets, and fewer than three only as the last quantum |
| Base64.DecodeTriple | src/PlainSaslSmtpAuthExample.java:141 | the quantum written for three octets decodes to those octets |
| Base64.DecodePair | src/PlainSaslSmtpAuthExample.java:141 | the `=`-padded quantum written for two final octets decodes to them |
| Base64.DecodeSingle | src/PlainSaslSmtpAuthExample.java:141 | the `==`-padded quantum written for one final octet decodes to it |
| Base64.DecodeEncode | src/PlainSaslSmtpAuthExample.java:141 | decoding the encoder's output gives back exactly the octets encoded |
| Base64.EncodeDecode | src/PlainSaslSmtpAuthExample.java:141 | every text the decoder accepts is the encoder's output for what it decodes to |
| Base64.DecodeIff | src/PlainSaslSmtpAuthExample.java:141 | a text decodes to some octets if and only if it is their encoding |
| Base64.EncodeQuantum | src/PlainSaslSmtpAuthExample.java:141 | encoding what a valid quantum decodes to, followed by more octets, writes the quantum followed by their encoding |
| Base64.EncodeFullQuantum | src/PlainSaslSmtpAuthExample.java:141 | a quantum that decodes to three octets is what the encoder writes for them |
| Base64.EncodePaddedQuantum | src/PlainSaslSmtpAuthExample.java:141 | a padded quantum is what the encoder writes for the one or two octets it decodes to |
| Base64.EncodeAppend | src/PlainSaslSmtpAuthExample.java:141 | octets whose count is a multiple of three are encoded independently of what follows them |
| Base64.EncodeLength | src/PlainSaslSmtpAuthExample.java:141 | n octets are encoded as 4 * ((n + 2) / 3) chars |
| Base64.PadCount | src/PlainSaslSmtpAuthExample.java:141 | the number of `=` is at most two, is zero exactly when n is a multiple of three, and brings n to a multiple of three |
| Base64.EncodeAlphabet | src/PlainSaslSmtpAuthExample.java:141 | the output is alphabet chars followed by exactly PadCount(n) `=` chars |
| Fields.Split | src/PlainSaslSmtpAuthExample.java:139 | splitting gives at least one field |
| Fields.SplitNone | src/PlainSaslSmtpAuthExample.java:139 | octets without the separator are a single field |
| Fields.SplitField | src/PlainSaslSmtpAuthExample.java:139 | a separator-free field, the separator, and the rest split into that field followed by the fields of the rest |
| Fields.JoinSplit | src/PlainSaslSmtpAuthExample.java:139 | joining the fields with the separator gives back the octets |
| Fields.SplitJoin | src/PlainSaslSmtpAuthExample.java:139 | separator-free fields joined with the separator split back into the same fields |
| Resolver.Arguments | src/PlainSaslSmtpAuthExample.java:50-58 | no arguments give the two constants; one gives it and null; two give both; a third fails with IllegalArgumentException, and nothing else fails |
| Resolver.Getenv | src/PlainSaslSmtpAuthExample.java:110-115 | a set variable gives its value, an unset one gives null |
| Resolver.Read | src/PlainSaslSmtpAuthExample.java:120 | a read shows its prompt and takes the next reply, or null at end of input |
| Resolver.Console.ReadLine | src/PlainSaslSmtpAuthExample.java:120 | shows the echoed prompt and consumes the next reply, as Read says |
| Resolver.Console.ReadPassword | src/PlainSaslSmtpAuthExample.java:130 | shows the masked prompt and consumes the next reply, as Read says |
| Resolver.Ask | src/PlainSaslSmtpAuthExample.java:117-125 | a non-null value is kept and the console left alone; a null one with no console fails before any read; a null one with a console shows the prompt and takes the next reply, failing with the EOF failure when that reply is null and otherwise keeping it verbatim |
| Resolver.AskPair | src/PlainSaslSmtpAuthExample.java:117-135 | the identity slot, then the secret slot through the masked prompt, with no secret prompt once the identity has failed; NothingReadUnlessNeeded, ExplicitVerbatim, NoConsoleFailsBeforeRead, IdentityPromptedFirst, IdentityEndOfInput, SecretEndOfInput, SecretEndOfInputAfterIdentity, OnlySecretPrompted and IdentityIndependent say what it gives |
| Resolver.NothingReadUnlessNeeded | src/PlainSaslSmtpAuthExample.java:117-118 | two resolved values are used verbatim and the console is untouched, whatever its state |
| Resolver.ExplicitVerbatim | src/PlainSaslSmtpAuthExample.java:117-118 | a non-null value reaches the result verbatim |
| Resolver.NoConsoleFailsBeforeRead | src/XOAuth2SaslSmtpAuthExample.java:154-167 | with no console, a needed prompt fails with the program's no-console failure and nothing is read |
| Resolver.IdentityPromptedFirst | src/PlainSaslSmtpAuthExample.java:117-135 | the identity prompt comes first and takes the first reply, the masked secret prompt takes the second; any string, even empty, is accepted |
| Resolver.IdentityEndOfInput | src/PlainSaslSmtpAuthExample.java:120-123 | end of input at the identity prompt fails with its EOF failure, and the secret is never asked for |
| Resolver.SecretEndOfInput | src/PlainSaslSmtpAuthExample.java:130-133 | end of input at the secret prompt fails with the secret's EOF failure |
| Resolver.SecretEndOfInputAfterIdentity | src/PlainSaslSmtpAuthExample.java:117-135 | the identity answered and then end of input at the secret prompt: the secret's EOF failure, with both prompts shown |
| Resolver.OnlySecretPrompted | src/PlainSaslSmtpAuthExample.java:117-135 | a resolved identity and a null secret: only the masked secret prompt is shown, and its reply is the secret |
| Resolver.IdentityIndependent | src/PlainSaslSmtpAuthExample.java:110-135 | the identity resolved does not depend on the secret slot |
| PlainSaslSmtpAuthExample.Construct | src/PlainSaslSmtpAuthExample.java:79-136 | the constructor's result and console state are those of New: environment fallback for null arguments, then prompts |
| PlainSaslSmtpAuthExample.Launch | src/PlainSaslSmtpAuthExample.java:48-60 | main's printed line or exception and console state are those of Execute |
| PlainSaslSmtpAuthExample.New | src/PlainSaslSmtpAuthExample.java:110-135 | the constructor's resolution; Construct is proved equal to it, and ArgumentWins, EnvironmentBeforePrompt, OnlyPasswordPrompted and PromptsInOrder say what it gives |
| PlainSaslSmtpAuthExample.Execute | src/PlainSaslSmtpAuthExample.java:48-60 | main; Launch is proved equal to it, and NoArgumentsUseConstants, OneArgumentConsultsEnvironment and TooManyArguments say what it gives |
| PlainSaslSmtpAuthExample.Credentials | src/PlainSaslSmtpAuthExample.java:139 | the credential text; MessageLayout, ParseLayout and EmbeddedNulAmbiguous say what it holds |
| PlainSaslSmtpAuthExample.Message | src/PlainSaslSmtpAuthExample.java:139-140 | the UTF-8 of the credential text; MessageLayout gives its octets, AlicePieces one concrete value |
| PlainSaslSmtpAuthExample.Run | src/PlainSaslSmtpAuthExample.java:138-143 | the printed line; RunDecodes, RunRoundTrip and AliceLine say what it is |
| PlainSaslSmtpAuthExample.MessageLayout | src/PlainSaslSmtpAuthExample.java:139-140 | the octets are exactly NUL, the UTF-8 of the username, NUL, the UTF-8 of the password (empty authzid) |
| PlainSaslSmtpAuthExample.RunDecodes | src/PlainSaslSmtpAuthExample.java:139-142 | the line is `AUTH PLAIN ` followed by 4 * ((n + 2) / 3) chars of Base64 that decode to that message |
| PlainSaslSmtpAuthExample.ParseLayout | src/PlainSaslSmtpAuthExample.java:139-140 | a receiver splitting on NUL reads an empty authzid, the username and the password from NUL-free fields |
| PlainSaslSmtpAuthExample.SplitFields | src/PlainSaslSmtpAuthExample.java:139 | NUL, a NUL-free field, NUL, a NUL-free field split into exactly three fields, the first empty |
| PlainSaslSmtpAuthExample.RunRoundTrip | src/PlainSaslSmtpAuthExample.java:138-143 | a receiver of the printed line gets back the empty authzid, the username and the password whenever neither contains NUL |
| PlainSaslSmtpAuthExample.EmbeddedNulAmbiguous | src/PlainSaslSmtpAuthExample.java:139 | with NUL inside a field, two different credential pairs give the same message |
| PlainSaslSmtpAuthExample.AlicePieces | src/PlainSaslSmtpAuthExample.java:139-140 | the message for alice@example.com / s3cret is the octets 0 'alice@example.com' 0 's3cret', in four pieces |
| PlainSaslSmtpAuthExample.AliceLine | src/PlainSaslSmtpAuthExample.java:138-143 | the line printed for alice@example.com / s3cret is `AUTH PLAIN AGFsaWNlQGV4YW1wbGUuY29tAHMzY3JldA==` |
| PlainSaslSmtpAuthExample.ArgumentWins | src/PlainSaslSmtpAuthExample.java:110-118 | a non-null argument is stored verbatim, whatever the environment holds |
| PlainSaslSmtpAuthExample.EnvironmentBeforePrompt | src/PlainSaslSmtpAuthExample.java:110-128 | null arguments whose variables are set take the variables' values, and the console is untouched |
| PlainSaslSmtpAuthExample.OnlyPasswordPrompted | src/PlainSaslSmtpAuthExample.java:110-135 | SASL_USERNAME set and SASL_PASSWORD unset: the username comes from the environment and only the masked "Password: " is shown and answered |
| PlainSaslSmtpAuthExample.PromptsInOrder | src/PlainSaslSmtpAuthExample.java:117-135 | with both variables unset, "Username: " is shown and answered before the masked "Password: " |
| PlainSaslSmtpAuthExample.NoArgumentsUseConstants | src/PlainSaslSmtpAuthExample.java:50-51 | with no arguments and both constants non-null, the constants are used and neither the environment nor the console is touched |
| PlainSaslSmtpAuthExample.OneArgumentConsultsEnvironment | src/PlainSaslSmtpAuthExample.java:52-53 | with one argument, a set SASL_PASSWORD gives the password before any prompt |
| PlainSaslSmtpAuthExample.TooManyArguments | src/PlainSaslSmtpAuthExample.java:56-57 | three or more arguments fail with IllegalArgumentException before anything is read |
| XOAuth2SaslSmtpAuthExample.GetTty | src/XOAuth2SaslSmtpAuthExample.java:100-106 | getTty returns the console when there is one, and otherwise fails with the IOException "JVM is not attached to a terminal device." |
| XOAuth2SaslSmtpAuthExample.Construct | src/XOAuth2SaslSmtpAuthExample.java:115-173 | the constructor's result and console state are those of New: environment fallback, then getTty and a prompt for each null slot |
| XOAuth2SaslSmtpAuthExample.Launch | src/XOAuth2SaslSmtpAuthExample.java:71-83 | main's printed line or exception and console state are those of Execute |
| XOAuth2SaslSmtpAuthExample.New | src/XOAuth2SaslSmtpAuthExample.java:147-172 | the constructor's resolution; Construct is proved equal to it, and ArgumentWins, NoTerminalFailsBeforeRead and PromptsInOrder say what it gives |
| XOAuth2SaslSmtpAuthExample.Execute | src/XOAuth2SaslSmtpAuthExample.java:71-83 | main; Launch is proved equal to it, and NoArgumentsTokenFromEnvironment, OneArgumentConsultsEnvironment and TooManyArguments say what it gives |
| XOAuth2SaslSmtpAuthExample.Credentials | src/XOAuth2SaslSmtpAuthExample.java:177 | the credential text; MessageLayout and ParseLayout say what it holds |
| XOAuth2SaslSmtpAuthExample.Message | src/XOAuth2SaslSmtpAuthExample.java:177-178 | the UTF-8 of the credential text; MessageLayout gives its octets |
| XOAuth2SaslSmtpAuthExample.Run | src/XOAuth2SaslSmtpAuthExample.java:175-183 | the printed line, with no command prefix; RunDecodes and RunRoundTrip say what it is |
| XOAuth2SaslSmtpAuthExample.MessageLayout | src/XOAuth2SaslSmtpAuthExample.java:176-178 | the octets are the UTF-8 of `user=` and the user, 0x01, the UTF-8 of `auth=Bearer ` and the token, 0x01 0x01 |
| XOAuth2SaslSmtpAuthExample.RunDecodes | src/XOAuth2SaslSmtpAuthExample.java:179-182 | the printed line is only alphabet chars and padding, 4 * ((n + 2) / 3) of them, and decodes to that message; there is no command prefix |
| XOAuth2SaslSmtpAuthExample.SplitFields | src/XOAuth2SaslSmtpAuthExample.java:177 | two ^A-free fields, each followed by ^A, then ^A, split into those fields and two empty ones |
| XOAuth2SaslSmtpAuthExample.FieldDecodes | src/XOAuth2SaslSmtpAuthExample.java:177-178 | a key and a ^A-free value encode without 0x01 and decode back |
| XOAuth2SaslSmtpAuthExample.ParseFields | src/XOAuth2SaslSmtpAuthExample.java:177 | fields that decode to the two keys with values are read back as those values |
| XOAuth2SaslSmtpAuthExample.ParseLayout | src/XOAuth2SaslSmtpAuthExample.java:176-178 | a receiver splitting on 0x01 reads back the user and the token from ^A-free fields |
| XOAuth2SaslSmtpAuthExample.RunRoundTrip | src/XOAuth2SaslSmtpAuthExample.java:175-183 | a receiver of the printed line gets back the user and the token whenever neither contains ^A |
| XOAuth2SaslSmtpAuthExample.ArgumentWins | src/XOAuth2SaslSmtpAuthExample.java:147-155 | a non-null argument is stored verbatim, whatever the environment holds |
| XOAuth2SaslSmtpAuthExample.NoArgumentsTokenFromEnvironment | src/XOAuth2SaslSmtpAuthExample.java:59-74 | with no arguments, USER set and ACCESS null, the user is the constant whatever OAUTH_USER says, and a set OAUTH_ACCESS gives the token with the console untouched |
| XOAuth2SaslSmtpAuthExample.OneArgumentConsultsEnvironment | src/XOAuth2SaslSmtpAuthExample.java:75-76 | with one argument, a set OAUTH_ACCESS gives the token before any prompt |
| XOAuth2SaslSmtpAuthExample.NoTerminalFailsBeforeRead | src/XOAuth2SaslSmtpAuthExample.java:164-167 | one argument, OAUTH_ACCESS unset and no terminal: main fails with getTty's IOException and nothing is read |
| XOAuth2SaslSmtpAuthExample.PromptsInOrder | src/XOAuth2SaslSmtpAuthExample.java:154-172 | with both variables unset, "User: " is shown and answered before the masked "Access Token: " |
| XOAuth2SaslSmtpAuthExample.TooManyArguments | src/XOAuth2SaslSmtpAuthExample.java:79-80 | three or more arguments fail with IllegalArgumentException before anything is read |
| PlainSaslSmtpExample.Construct | src/PlainSaslSmtpExample.java:23-47 | the constructor's result and console state are those of New: a non-null argument is kept, a null one is read from the console |
| PlainSaslSmtpExample.Launch | src/PlainSaslSmtpExample.java:19-21 | main's output or exception and console state are those of Execute, built from the two constants alone |
| PlainSaslSmtpExample.New | src/PlainSaslSmtpExample.java:23-47 | the constructor's resolution; Construct is proved equal to it, and ArgumentWins, UsernameEndOfInput, PasswordEndOfInput and LaterProgramAddsEnvironment say what it gives |
| PlainSaslSmtpExample.Execute | src/PlainSaslSmtpExample.java:19-21 | main, from the two constants alone; Launch is proved equal to it, and MainPromptsOnlyForPassword says what it gives |
| PlainSaslSmtpExample.Run | src/PlainSaslSmtpExample.java:49-51 | run prints nothing; MainPromptsOnlyForPassword shows the empty output |
| PlainSaslSmtpExample.EofMessage | src/PlainSaslSmtpExample.java:29-31 | the EOFException text for a field; EofMessageNamesField says the field name sits at a fixed place in it, so the username and password texts differ |
| PlainSaslSmtpExample.EofMessageNamesField | src/PlainSaslSmtpExample.java:28-43 | each end-of-input message holds the name of its field at the same place, so the username and password messages differ |
| PlainSaslSmtpExample.UsernameEndOfInput | src/PlainSaslSmtpExample.java:27-32 | end of input at "Username: " fails with the username message, before the password is asked for |
| PlainSaslSmtpExample.PasswordEndOfInput | src/PlainSaslSmtpExample.java:39-44 | end of input at "Password: " fails with the password message |
| PlainSaslSmtpExample.ArgumentWins | src/PlainSaslSmtpExample.java:24-25 | a non-null argument is stored verbatim |
| PlainSaslSmtpExample.MainPromptsOnlyForPassword | src/PlainSaslSmtpExample.java:14-20 | with USERNAME set and PASSWORD null, main prompts only for the password, masked, takes the reply verbatim and prints nothing |
| PlainSaslSmtpExample.LaterProgramAddsEnvironment | src/PlainSaslSmtpExample.java:23-47 | with neither SASL variable set, the draft and the later program resolve the same values, leave the console in the same state and fail in the same cases with the same failure, except that their EOF failures carry different messages |

## Left out

- Output: `System.out.println` is not modelled. Each program's result is the line it would print, or nothing for the draft.
- The real console and environment are not modelled. `System.console()` is a `Console?` holding a queue of replies. `System.getenv` is a map.
- The masking of `readPassword` is recorded only as a flag on the prompt shown. What a terminal does with it cannot be stated.
- Java strings are sequences of Unicode scalar values here, not UTF-16. Unpaired surrogates, which `getBytes` replaces with `?`, cannot occur.
- The `usage()` text and its use of the class name are not modelled. The exception is `IllegalArgument` without a message.
- The compiled-in credentials are parameters (`Defaults`). The model keeps only whether each is null. The concrete values are not modelled.
- The NullPointerException that the two PLAIN programs raise when there is no console is modelled as an opaque `NullPointer` failure. It is kept apart from the XOAUTH2 program's `IOError`.
- A NUL or ^A inside a credential is not rejected, because the programs do not reject it. The round trips assume there is none, and `PlainSaslSmtpAuthExample.EmbeddedNulAmbiguous` shows what goes wrong otherwise.
- The programs do not enforce the non-empty authcid and passwd that RFC 4616 requires, so neither does the model: an empty console reply is accepted.
- Line breaks in Base64 output and the URL-safe alphabet are not modelled; `Base64.getEncoder()` uses neither.
