# HttpServerApp in Dafny

A model of the decision logic of a minimal HTTP echo service
(`com.example.HttpServerApp`): the port resolver `getPort`, and the
`/api/messages` handler's naive extraction of the `"message"` field
(`extractMessage`), its five-step JSON escaping (`escapeJson`) and the
status/body decision of `handle`. The HTTP plumbing around them is not
modelled.

Modules, one file each:

- `Wrappers` (`wrappers.dfy`): `Option` and `Result`, standing in for Java's
  `null` and thrown exceptions.
- `JavaString` (`java_string.dfy`): `String.indexOf(str, from)` as "the least
  index at or after `from` where the pattern occurs", `String.replace` for a
  one-character target, `startsWith`.
- `JavaInteger` (`java_integer.dfy`): `Integer.parseInt` (optional sign, one
  or more decimal digits, 32-bit range) and `Integer.toString` as its partner.
- `MessagesHandler` (`messages_handler.dfy`): `ExtractMessage`, `EscapeJson`,
  a decoder `Unescape` for the escapes it writes, and `Reply` (the decision of
  `handle`).
- `HttpServerApp` (`http_server_app.dfy`): `GetPort`, an imperative scan over
  the arguments proved equal to the function `ResolvePort`, and the lemmas
  about the resolution order.

What is proved, in short:

- `ExtractMessage` succeeds exactly when the four landmarks exist (first
  `"message"`, then the first `:` at or after it, the first `"` at or after
  that, the first `"` after that), and the message is the slice strictly
  between the two quotes; each of the four failures happens exactly when its
  landmark is missing. The message never contains a quote, which is the
  truncation quirk: `{"message": "He said \"hi\"\n"}` yields `He said \`.
- The five chained replacements of `escapeJson` equal one per-character
  pass; the result has no raw line feed, carriage return or tab, is never
  shorter than the input, equals the input exactly when the input has none
  of the five special characters, and decodes back to the input.
- `Reply` gives 405 for any method but `POST` whatever the body, 400 when
  extraction fails, `{"response": "pong"}` for the message `ping`, and
  otherwise `{"response": "T"}` whose `T` decodes to the extracted message.
- `GetPort` always returns a port in [1, 65535]; the first `--port`/`-p` with
  a following argument decides alone, then the single non-dash argument,
  then a non-empty `PORT`, then 8080; a candidate that does not parse or is
  out of range gives 8080 and never falls through to the next source.

Two behaviours of the code worth knowing: `getPort`'s own comment lists
only the flag, `PORT` and the default, but the code also has the legacy
single-argument form between the flag and `PORT`
(`HttpServerApp.java:51-64`), and the model follows the code. And
`escapeJson` escapes only five characters, so any other control character
in a message (U+0008, say) reaches the reply unescaped and the reply is then
not valid JSON; the model keeps that behaviour (`EscapeJsonKeepsOthers`,
`EscapeJsonKeepsBackspace`).

## Model

| member | source | states |
|---|---|---|
| `JavaString.IndexOf` | src/main/java/com/example/HttpServerApp.java:119-134 | `indexOf(p, from)`: a found index is the least index at or after `from` where `p` occurs; None only when `p` occurs nowhere from `from` on |
| `JavaInteger.ParseInt` | src/main/java/com/example/HttpServerApp.java:38 | `Integer.parseInt`: text is accepted only when it is an optional sign then one or more digits; an accepted text's value is that signed digit value, in the 32-bit range; a refused text is malformed or out of range |
| `JavaInteger.ParseIntRejectsNonDigit` | src/main/java/com/example/HttpServerApp.java:38 | a character that is neither a digit nor a leading sign makes the text unparsable |
| `JavaInteger.ParseIntPlus` | src/main/java/com/example/HttpServerApp.java:38 | a leading `+` before digits changes nothing |
| `JavaInteger.ParseIntLeadingZero` | src/main/java/com/example/HttpServerApp.java:38 | a leading zero changes nothing, so `0080` reads as 80 |
| `JavaInteger.ParseIntToString` | src/main/java/com/example/HttpServerApp.java:38 | every 32-bit integer written in decimal is parsed back to itself |
| `MessagesHandler.ExtractMessageAt` | src/main/java/com/example/HttpServerApp.java:117-140 | when the four landmarks are found, extraction returns the slice strictly between the two quotes |
| `MessagesHandler.ExtractMessageOk` | src/main/java/com/example/HttpServerApp.java:117-140 | extraction yields `msg` if and only if the four landmarks exist and `msg` is the slice strictly between the opening and the first following quote |
| `MessagesHandler.ExtractMessageErr` | src/main/java/com/example/HttpServerApp.java:119-137 | each of the four failures happens if and only if its landmark is missing after the earlier landmarks were found |
| `MessagesHandler.ExtractMessage` | src/main/java/com/example/HttpServerApp.java:129-139 | an extracted message never contains a quote: the value stops at the first quote after the opening one |
| `MessagesHandler.ExtractedMessageShape` | src/main/java/com/example/HttpServerApp.java:129-139 | an extracted message is a contiguous slice of the body with a quote on either side |
| `MessagesHandler.ExtractAfterPrefix` | src/main/java/com/example/HttpServerApp.java:117-140 | a body starting `{"message": "` yields the text up to the next quote, whatever follows |
| `MessagesHandler.ExtractWellFormed` | src/main/java/com/example/HttpServerApp.java:117-140 | `{"message": "X"}` yields X when X has no quote |
| `MessagesHandler.ExtractTruncatesAtEscapedQuote` | src/main/java/com/example/HttpServerApp.java:129-139 | `{"message": "He said \"hi\"\n"}` yields `He said \`: an escaped quote ends the value, nothing is unescaped |
| `MessagesHandler.EscapeJsonConcat` | src/main/java/com/example/HttpServerApp.java:143-147 | the replacement chain distributes over concatenation |
| `MessagesHandler.EscapeJsonChar` | src/main/java/com/example/HttpServerApp.java:143-147 | on one character the chain gives that character's escape: text written by an earlier step is never rewritten by a later one |
| `MessagesHandler.EscapeJsonIsEscapeMap` | src/main/java/com/example/HttpServerApp.java:142-148 | the five chained replacements, backslash first, equal the single-pass per-character escape |
| `MessagesHandler.EscapeJsonProperties` | src/main/java/com/example/HttpServerApp.java:142-148 | the escape has no raw LF, CR or TAB, is never shorter than its input, and equals its input if and only if the input has none of the five special characters |
| `MessagesHandler.EscapeJsonKeepsOthers` | src/main/java/com/example/HttpServerApp.java:143-147 | any character other than the five special ones, a control character included, passes through unchanged |
| `MessagesHandler.EscapeJsonKeepsBackspace` | src/main/java/com/example/HttpServerApp.java:143-147 | a backspace (U+0008) reaches the output raw |
| `MessagesHandler.UnescapeEscapeJson` | src/main/java/com/example/HttpServerApp.java:142-148 | decoding the escape gives back the original text |
| `MessagesHandler.EscapeJsonInjective` | src/main/java/com/example/HttpServerApp.java:142-148 | two different messages never escape to the same text |
| `MessagesHandler.Reply` | src/main/java/com/example/HttpServerApp.java:87-115 | the status is always 200, 400 or 405 |
| `MessagesHandler.ReplyStatus` | src/main/java/com/example/HttpServerApp.java:88-113 | 405 if and only if the method is not `POST`; 400 if and only if `POST` and extraction fails; 200 if and only if `POST` and extraction succeeds |
| `MessagesHandler.ReplyIgnoresBodyUnlessPost` | src/main/java/com/example/HttpServerApp.java:88-91 | a method other than `POST` gets `{"error": "Method not allowed"}` with 405, whatever the body |
| `MessagesHandler.ReplyMissingField` | src/main/java/com/example/HttpServerApp.java:99-113 | a `POST` whose body has no `"message"` gets 400 with `{"error": "Invalid JSON or missing message field"}` |
| `MessagesHandler.ReplyInvalid` | src/main/java/com/example/HttpServerApp.java:111-113 | a `POST` whose extraction fails in any of its four ways gets 400 with `{"error": "Invalid JSON or missing message field"}` |
| `MessagesHandler.ReplyEchoDecodes` | src/main/java/com/example/HttpServerApp.java:102-109 | every 200 reply is `{"response": "T"}` where T decodes to `pong` for the message `ping` and to the extracted message otherwise |
| `MessagesHandler.ReplyEcho` | src/main/java/com/example/HttpServerApp.java:105-109 | a message other than `ping` gets 200 with `{"response": "` + its escape + `"}` |
| `MessagesHandler.ReplyWellFormed` | src/main/java/com/example/HttpServerApp.java:99-109 | a `POST` of `{"message": "X"}` without quotes in X gets `pong` for `ping` and the escaped X otherwise |
| `MessagesHandler.ReplyPing` | src/main/java/com/example/HttpServerApp.java:103-104 | `{"message": "ping"}` gets 200 with `{"response": "pong"}` |
| `MessagesHandler.ReplyEchoTrailingBackslash` | src/main/java/com/example/HttpServerApp.java:106 | a message whose only special character is a final backslash is echoed with that backslash doubled |
| `MessagesHandler.ReplyTruncatedEcho` | src/main/java/com/example/HttpServerApp.java:99-109 | `{"message": "He said \"hi\"\n"}` gets 200 with `{"response": "He said \\"}` |
| `HttpServerApp.FlagIndex` | src/main/java/com/example/HttpServerApp.java:35-36 | a found index is the first `--port`/`-p` at or after `from` that has a following argument; None when there is none |
| `HttpServerApp.PortFrom` | src/main/java/com/example/HttpServerApp.java:37-47 | one candidate gives a port in [1, 65535]; a text that parses into [1, 65535] gives that value, and any other text gives 8080 |
| `HttpServerApp.ResolvePort` | src/main/java/com/example/HttpServerApp.java:31-83 | the resolution always ends in a port in [1, 65535] |
| `HttpServerApp.GetPort` | src/main/java/com/example/HttpServerApp.java:31-83 | the loop-and-checks implementation returns exactly the resolution order's port, in [1, 65535] |
| `HttpServerApp.PortFromToString` | src/main/java/com/example/HttpServerApp.java:38-43 | a 32-bit integer written in decimal gives itself when in [1, 65535] and 8080 otherwise |
| `HttpServerApp.FlagDecides` | src/main/java/com/example/HttpServerApp.java:35-48 | when the first flag with a value is at i, the port is decided by `args[i+1]` alone, whatever `PORT` holds |
| `HttpServerApp.LegacyDecides` | src/main/java/com/example/HttpServerApp.java:52-64 | a single argument not starting with `-` decides the port alone, whatever `PORT` holds |
| `HttpServerApp.EnvDecides` | src/main/java/com/example/HttpServerApp.java:67-82 | with neither command-line form, a non-empty `PORT` decides; absent or empty it is 8080 |
| `HttpServerApp.EnvOnlyWithoutCommandLine` | src/main/java/com/example/HttpServerApp.java:35-82 | if two values of `PORT` give different ports, the command line has neither form |
| `HttpServerApp.FlagPortExample` | src/main/java/com/example/HttpServerApp.java:35-43 | `--port 9090` gives 9090, whatever `PORT` holds |
| `HttpServerApp.FlagOutOfRangeExample` | src/main/java/com/example/HttpServerApp.java:35-41 | `--port 70000` gives 8080, whatever `PORT` holds |
| `HttpServerApp.EnvExamples` | src/main/java/com/example/HttpServerApp.java:67-82 | no arguments with `PORT=3000` give 3000, and with no `PORT` 8080 |

## Left out

- `main` (`HttpServerApp.java:16-29`): creating and starting the server, registering the context and the banners on standard output are host I/O.
- `sendResponse` (`HttpServerApp.java:150-156`): headers, the UTF-8 `Content-Length` and the writing of the stream are I/O; `Reply` stops at the status and the body text.
- Reading the request body and decoding it from UTF-8 (`HttpServerApp.java:95-96`): `Reply` takes the decoded body as a string, and an `IOException` from the transport is not modelled.
- `System.getenv("PORT")` becomes the parameter `portEnv` (None for `null`).
- The warnings printed on standard error are diagnostics only and not modelled.
- The generic `catch (Exception e)` is modelled as the `Err` branch of `ExtractMessage`'s result; no other exception can reach it in the model.
- Concurrent dispatch by the HTTP server: the handler keeps no state, so there is nothing to model.
- JavaInteger.ParseInt: accepts only the ASCII digits `0`-`9`; Java's `Character.digit` also accepts other Unicode decimal digits (Arabic-Indic, full-width), which the model rejects.
- JavaString.IndexOf: modelled only for non-empty patterns, which is all the handler uses; Java's answer for an empty pattern is not modelled.
- Characters are Unicode scalar values, where Java's `String` holds UTF-16 code units; since every landmark and every escaped character is ASCII, the slices and replacements are the same, but indices into text with characters outside the Basic Multilingual Plane differ.
