/** The request handler of the messages endpoint: the naive extraction of
    the `"message"` field, the five-step JSON escaping of the echoed text,
    and the decision of which status and body a request gets. */
module MessagesHandler {
  import opened Wrappers
  import opened JavaString

  // ---------------------------------------------------------------------
  // Extracting the message field
  // ---------------------------------------------------------------------

  /** The key the scanner looks for, quotes included. */
  const MessageKey: string := "\"message\""

  /** Why extraction failed: one case per landmark the scanner could not
      find. The handler maps all four to the same 400 reply. */
  datatype ExtractError =
    | MissingMessageField  // no `"message"` anywhere in the body
    | MissingColon         // no `:` at or after the key
    | MissingStartQuote    // no `"` at or after that colon
    | MissingEndQuote      // no `"` after the opening quote

  /** `extractMessage`: find the first `"message"`, the first `:` at or
      after it, the first `"` at or after that colon and the next `"` after
      that quote, and return the text strictly between the two quotes, with
      no unescaping. */
  function ExtractMessage(json: string): (r: Result<string, ExtractError>)
    ensures r.Ok? ==> '"' !in r.value
  {
    match IndexOf(json, MessageKey, 0)
    case None => Err(MissingMessageField)
    case Some(m) =>
      match IndexOf(json, ":", m)
      case None => Err(MissingColon)
      case Some(c) =>
        match IndexOf(json, "\"", c)
        case None => Err(MissingStartQuote)
        case Some(q) =>
          match IndexOf(json, "\"", q + 1)
          case None => Err(MissingEndQuote)
          case Some(e) =>
            QuoteFreeSlice(json, q, e);
            Ok(json[q + 1..e])
  }

  /** The four landmarks, stated without the scanner: `m` is the first
      occurrence of the key, `c` the first colon from `m`, `q` the first
      quote from `c`, and `e` the first quote after `q`. */
  ghost predicate Landmarks(json: string, m: int, c: int, q: int, e: int)
  {
    FirstAt(json, MessageKey, 0, m) &&
    FirstAt(json, ":", m, c) &&
    FirstAt(json, "\"", c, q) &&
    FirstAt(json, "\"", q + 1, e)
  }

  /** Found landmarks make extraction succeed with the slice between the
      two quotes. */
  lemma ExtractMessageAt(json: string, m: int, c: int, q: int, e: int)
    requires Landmarks(json, m, c, q, e)
    ensures ExtractMessage(json) == Ok(json[q + 1..e])
  {
    IndexOfFirstAt(json, MessageKey, 0, m);
    IndexOfFirstAt(json, ":", m, c);
    IndexOfFirstAt(json, "\"", c, q);
    IndexOfFirstAt(json, "\"", q + 1, e);
  }

  /** Extraction succeeds with `msg` exactly when the four landmarks exist
      and `msg` is the slice strictly between the two quotes. */
  lemma ExtractMessageOk(json: string, msg: string)
    ensures ExtractMessage(json) == Ok(msg) <==>
      exists m, c, q, e :: Landmarks(json, m, c, q, e) && msg == json[q + 1..e]
  {
    if ExtractMessage(json) == Ok(msg) {
      var m := IndexOf(json, MessageKey, 0).value;
      var c := IndexOf(json, ":", m).value;
      var q := IndexOf(json, "\"", c).value;
      var e := IndexOf(json, "\"", q + 1).value;
      assert Landmarks(json, m, c, q, e);
    }
    if exists m, c, q, e :: Landmarks(json, m, c, q, e) && msg == json[q + 1..e] {
      var m, c, q, e :| Landmarks(json, m, c, q, e) && msg == json[q + 1..e];
      ExtractMessageAt(json, m, c, q, e);
    }
  }

  /** Each failure happens exactly when its landmark is missing after the
      landmarks before it were found. */
  lemma ExtractMessageErr(json: string)
    ensures ExtractMessage(json) == Err(MissingMessageField) <==>
      AbsentFrom(json, MessageKey, 0)
    ensures ExtractMessage(json) == Err(MissingColon) <==>
      exists m :: FirstAt(json, MessageKey, 0, m) && AbsentFrom(json, ":", m)
    ensures ExtractMessage(json) == Err(MissingStartQuote) <==>
      exists m, c :: FirstAt(json, MessageKey, 0, m) && FirstAt(json, ":", m, c) &&
        AbsentFrom(json, "\"", c)
    ensures ExtractMessage(json) == Err(MissingEndQuote) <==>
      exists m, c, q :: FirstAt(json, MessageKey, 0, m) && FirstAt(json, ":", m, c) &&
        FirstAt(json, "\"", c, q) && AbsentFrom(json, "\"", q + 1)
  {
  }

  /** Between a quote's position and the first quote after it there is
      no quote. */
  lemma QuoteFreeSlice(s: string, q: nat, e: int)
    requires FirstAt(s, "\"", q + 1, e)
    ensures 0 <= q + 1 <= e < |s| && s[e] == '"'
    ensures '"' !in s[q + 1..e]
  {
    OccursAtChar(s, '"', e);
    forall i | q + 1 <= i < e ensures s[i] != '"' {
      OccursAtChar(s, '"', i);
    }
  }

  /** The extracted message is a contiguous slice of the body that sits
      between two quote characters and holds no quote itself: the value
      stops at the first quote after the opening one, escaped or not. */
  lemma ExtractedMessageShape(json: string)
    requires ExtractMessage(json).Ok?
    ensures exists q :: (0 <= q && q + |ExtractMessage(json).value| + 1 < |json| &&
      json[q] == '"' && json[q + 1 + |ExtractMessage(json).value|] == '"' &&
      json[q + 1..q + 1 + |ExtractMessage(json).value|] == ExtractMessage(json).value)
  {
    var m := IndexOf(json, MessageKey, 0).value;
    var c := IndexOf(json, ":", m).value;
    var q := IndexOf(json, "\"", c).value;
    var e := IndexOf(json, "\"", q + 1).value;
    var msg := ExtractMessage(json).value;
    assert msg == json[q + 1..e];
    QuoteFreeSlice(json, q, e);
    OccursAtChar(json, '"', q);
    assert e == q + 1 + |msg|;
  }

  /** `c` stands at `k`, and not between `from` and `k`: `k` is the first
      occurrence of the one-character pattern `[c]` from `from`. */
  lemma FirstCharAt(s: string, c: char, from: int, k: int)
    requires 0 <= from <= k < |s| && s[k] == c
    requires forall j :: from <= j < k ==> s[j] != c
    ensures FirstAt(s, [c], from, k)
  {
    OccursAtChar(s, c, k);
    forall j | from <= j < k ensures !OccursAt(s, [c], j) {
      OccursAtChar(s, c, j);
    }
  }

  /** The text a well-formed body begins with, up to the opening quote. */
  const BodyPrefix: string := "{\"message\": \""

  /** A body that starts `{"message": "` yields the text up to the next
      quote, whatever follows that quote. */
  lemma {:induction false} ExtractAfterPrefix(x: string, rest: string)
    requires '"' !in x
    ensures ExtractMessage(BodyPrefix + x + "\"" + rest) == Ok(x)
  {
    var json := BodyPrefix + x + "\"" + rest;
    var e := 13 + |x|;
    forall k | 0 <= k < 13 ensures json[k] == BodyPrefix[k] {
    }
    assert json[1..10] == MessageKey by {
      assert BodyPrefix[1..10] == MessageKey;
      forall k | 0 <= k < 9 ensures json[1..10][k] == MessageKey[k] {
        assert json[1..10][k] == json[1 + k] == BodyPrefix[1 + k];
      }
    }
    assert !OccursAt(json, MessageKey, 0) by {
      assert json[0] != MessageKey[0];
    }
    assert FirstAt(json, MessageKey, 0, 1);
    FirstCharAt(json, ':', 1, 10);
    FirstCharAt(json, '"', 10, 12);
    forall j | 13 <= j < e ensures json[j] != '"' {
      assert json[j] == x[j - 13];
    }
    assert json[e] == '"';
    FirstCharAt(json, '"', 13, e);
    assert json[13..e] == x;
    ExtractMessageAt(json, 1, 10, 12, e);
  }

  /** `{"message": "X"}` yields X when X holds no quote. */
  lemma ExtractWellFormed(x: string)
    requires '"' !in x
    ensures ExtractMessage(BodyPrefix + x + "\"}") == Ok(x)
  {
    ExtractAfterPrefix(x, "}");
    assert BodyPrefix + x + "\"}" == BodyPrefix + x + "\"" + "}";
  }

  /** The truncation quirk: an escaped quote inside the value ends it, so
      the body `{"message": "He said \"hi\"\n"}` yields `He said \`. */
  lemma ExtractTruncatesAtEscapedQuote(body: string)
    requires body == BodyPrefix + "He said \\\"hi\\\"\\n\"}"
    ensures ExtractMessage(body) == Ok("He said \\")
  {
    var x, rest := "He said \\", "hi\\\"\\n\"}";
    assert "He said \\\"hi\\\"\\n\"}" == x + "\"" + rest;
    ExtractAfterPrefix(x, rest);
    assert body == BodyPrefix + x + "\"" + rest;
  }

  // ---------------------------------------------------------------------
  // Escaping the echoed text
  // ---------------------------------------------------------------------

  /** The five characters `escapeJson` rewrites. */
  predicate IsSpecial(c: char)
  {
    c == '\\' || c == '"' || c == '\n' || c == '\r' || c == '\t'
  }

  predicate NoSpecial(s: string)
  {
    forall i :: 0 <= i < |s| ==> !IsSpecial(s[i])
  }

  /** The escape of one character, as a single pass would write it. */
  function EscapeChar(c: char): (r: string)
    ensures 1 <= |r| <= 2
  {
    match c
    case '\\' => "\\\\"
    case '"' => "\\\""
    case '\n' => "\\n"
    case '\r' => "\\r"
    case '\t' => "\\t"
    case _ => [c]
  }

  /** The single-pass, per-character escape: the reference definition. */
  function EscapeMap(s: string): string
  {
    if s == [] then [] else EscapeChar(s[0]) + EscapeMap(s[1..])
  }

  /** `escapeJson`: five chained replacements, backslash first. */
  function EscapeJson(input: string): string
  {
    ReplaceChar(
      ReplaceChar(
        ReplaceChar(
          ReplaceChar(
            ReplaceChar(input, '\\', "\\\\"),
            '"', "\\\""),
          '\n', "\\n"),
        '\r', "\\r"),
      '\t', "\\t")
  }

  lemma EscapeJsonConcat(a: string, b: string)
    ensures EscapeJson(a + b) == EscapeJson(a) + EscapeJson(b)
  {
    var s1a, s1b := ReplaceChar(a, '\\', "\\\\"), ReplaceChar(b, '\\', "\\\\");
    ReplaceCharConcat(a, b, '\\', "\\\\");
    var s2a, s2b := ReplaceChar(s1a, '"', "\\\""), ReplaceChar(s1b, '"', "\\\"");
    ReplaceCharConcat(s1a, s1b, '"', "\\\"");
    var s3a, s3b := ReplaceChar(s2a, '\n', "\\n"), ReplaceChar(s2b, '\n', "\\n");
    ReplaceCharConcat(s2a, s2b, '\n', "\\n");
    var s4a, s4b := ReplaceChar(s3a, '\r', "\\r"), ReplaceChar(s3b, '\r', "\\r");
    ReplaceCharConcat(s3a, s3b, '\r', "\\r");
    ReplaceCharConcat(s4a, s4b, '\t', "\\t");
  }

  lemma ReplaceCharSingle(c: char, target: char, rep: string)
    ensures ReplaceChar([c], target, rep) == if c == target then rep else [c]
  {
    assert [c][1..] == [];
  }

  /** On one character the chain does what the single pass does: what an
      earlier step writes (`\`, `"`, `n`, `r`, `t`) no later step rewrites. */
  lemma EscapeJsonChar(c: char)
    ensures EscapeJson([c]) == EscapeChar(c)
  {
    var s1 := ReplaceChar([c], '\\', "\\\\");
    ReplaceCharSingle(c, '\\', "\\\\");
    var s2 := ReplaceChar(s1, '"', "\\\"");
    if c == '\\' { ReplaceCharAbsent(s1, '"', "\\\""); } else { ReplaceCharSingle(c, '"', "\\\""); }
    var s3 := ReplaceChar(s2, '\n', "\\n");
    if c == '\\' || c == '"' { ReplaceCharAbsent(s2, '\n', "\\n"); } else { ReplaceCharSingle(c, '\n', "\\n"); }
    var s4 := ReplaceChar(s3, '\r', "\\r");
    if c == '\\' || c == '"' || c == '\n' {
      ReplaceCharAbsent(s3, '\r', "\\r");
    } else {
      ReplaceCharSingle(c, '\r', "\\r");
    }
    if c == '\\' || c == '"' || c == '\n' || c == '\r' {
      ReplaceCharAbsent(s4, '\t', "\\t");
    } else {
      ReplaceCharSingle(c, '\t', "\\t");
    }
  }

  /** The five chained replacements equal the per-character escape. */
  lemma {:induction false} EscapeJsonIsEscapeMap(s: string)
    ensures EscapeJson(s) == EscapeMap(s)
  {
    if s == [] {
    } else {
      assert s == [s[0]] + s[1..];
      EscapeJsonConcat([s[0]], s[1..]);
      EscapeJsonChar(s[0]);
      EscapeJsonIsEscapeMap(s[1..]);
    }
  }

  lemma {:induction false} EscapeMapConcat(a: string, b: string)
    ensures EscapeMap(a + b) == EscapeMap(a) + EscapeMap(b)
  {
    if a == [] {
      assert a + b == b;
    } else {
      assert (a + b)[0] == a[0];
      assert (a + b)[1..] == a[1..] + b;
      EscapeMapConcat(a[1..], b);
    }
  }

  lemma {:induction false} EscapeMapNoRawControl(s: string)
    ensures '\n' !in EscapeMap(s) && '\r' !in EscapeMap(s) && '\t' !in EscapeMap(s)
  {
    if s != [] {
      EscapeMapNoRawControl(s[1..]);
    }
  }

  lemma {:induction false} EscapeMapLength(s: string)
    ensures |EscapeMap(s)| >= |s|
    ensures !NoSpecial(s) ==> |EscapeMap(s)| > |s|
  {
    if s != [] {
      EscapeMapLength(s[1..]);
      if !NoSpecial(s) && !IsSpecial(s[0]) {
        var i :| 0 <= i < |s| && IsSpecial(s[i]);
        assert IsSpecial(s[1..][i - 1]);
      }
    }
  }

  lemma {:induction false} EscapeMapIdentity(s: string)
    requires NoSpecial(s)
    ensures EscapeMap(s) == s
  {
    if s != [] {
      assert !IsSpecial(s[0]);
      EscapeMapIdentity(s[1..]);
    }
  }

  /** What callers can rely on from `escapeJson`: no raw line feed,
      carriage return or tab survives, the text never gets shorter, and it
      is returned unchanged exactly when it holds none of the five
      characters. */
  lemma EscapeJsonProperties(s: string)
    ensures '\n' !in EscapeJson(s) && '\r' !in EscapeJson(s) && '\t' !in EscapeJson(s)
    ensures |EscapeJson(s)| >= |s|
    ensures EscapeJson(s) == s <==> NoSpecial(s)
  {
    EscapeJsonIsEscapeMap(s);
    EscapeMapNoRawControl(s);
    EscapeMapLength(s);
    if NoSpecial(s) {
      EscapeMapIdentity(s);
    }
  }

  /** Only five characters are escaped: any other character, a control
      character such as U+0008 included, is passed through as it is. */
  lemma EscapeJsonKeepsOthers(c: char)
    requires !IsSpecial(c)
    ensures EscapeJson([c]) == [c]
  {
    EscapeJsonChar(c);
  }

  /** So a backspace reaches the reply raw. */
  lemma EscapeJsonKeepsBackspace()
    ensures EscapeJson([8 as char]) == [8 as char]
  {
    EscapeJsonKeepsOthers(8 as char);
  }

  /** The character a backslash escape stands for, for the five escapes
      `escapeJson` writes. */
  function EscapedChar(c: char): Option<char>
  {
    match c
    case '\\' => Some('\\')
    case '"' => Some('"')
    case 'n' => Some('\n')
    case 'r' => Some('\r')
    case 't' => Some('\t')
    case _ => None
  }

  /** Decoding JSON string content: a backslash must start one of the five
      escapes, and a raw quote, line feed, carriage return or tab is
      refused (a raw quote would end the JSON string). */
  function Unescape(t: string): Option<string>
    decreases |t|
  {
    if t == [] then Some([])
    else if t[0] == '\\' then
      if |t| == 1 then None
      else
        match EscapedChar(t[1])
        case None => None
        case Some(c) =>
          match Unescape(t[2..])
          case None => None
          case Some(rest) => Some([c] + rest)
    else if IsSpecial(t[0]) then None
    else
      match Unescape(t[1..])
      case None => None
      case Some(rest) => Some([t[0]] + rest)
  }

  lemma UnescapeCons(c: char, t: string)
    ensures Unescape(EscapeChar(c) + t) ==
      match Unescape(t) case None => None case Some(rest) => Some([c] + rest)
  {
    var u := EscapeChar(c) + t;
    if IsSpecial(c) {
      assert u[0] == '\\' && u[1] == EscapeChar(c)[1] && u[2..] == t;
    } else {
      assert u[0] == c && u[1..] == t;
    }
  }

  lemma {:induction false} UnescapeEscapeMap(s: string)
    ensures Unescape(EscapeMap(s)) == Some(s)
  {
    if s != [] {
      UnescapeEscapeMap(s[1..]);
      UnescapeCons(s[0], EscapeMap(s[1..]));
      assert [s[0]] + s[1..] == s;
    }
  }

  /** A client decoding the echoed text gets the message back. */
  lemma UnescapeEscapeJson(s: string)
    ensures Unescape(EscapeJson(s)) == Some(s)
  {
    EscapeJsonIsEscapeMap(s);
    UnescapeEscapeMap(s);
  }

  /** So two different messages are never echoed as the same text. */
  lemma EscapeJsonInjective(a: string, b: string)
    requires EscapeJson(a) == EscapeJson(b)
    ensures a == b
  {
    UnescapeEscapeJson(a);
    UnescapeEscapeJson(b);
  }

  // ---------------------------------------------------------------------
  // The reply decision of `handle`
  // ---------------------------------------------------------------------

  /** The status code and JSON body `handle` sends. */
  datatype Response = Response(status: int, body: string)

  const MethodNotAllowedBody: string := "{\"error\": \"Method not allowed\"}"
  const InvalidRequestBody: string := "{\"error\": \"Invalid JSON or missing message field\"}"
  const PongBody: string := "{\"response\": \"pong\"}"

  /** The reply object around an already escaped text. */
  function ResponseJson(text: string): string
  {
    "{\"response\": \"" + text + "\"}"
  }

  /** `handle`, without the transport: the request method and the body,
      already decoded from UTF-8, give the status and the reply body. */
  function Reply(requestMethod: string, body: string): (r: Response)
    ensures r.status == 200 || r.status == 400 || r.status == 405
  {
    if requestMethod != "POST" then Response(405, MethodNotAllowedBody)
    else
      match ExtractMessage(body)
      case Err(_) => Response(400, InvalidRequestBody)
      case Ok(message) =>
        if message == "ping" then Response(200, PongBody)
        else Response(200, ResponseJson(EscapeJson(message)))
  }

  /** The status tells the three outcomes apart. */
  lemma ReplyStatus(requestMethod: string, body: string)
    ensures Reply(requestMethod, body).status == 405 <==> requestMethod != "POST"
    ensures Reply(requestMethod, body).status == 400 <==> requestMethod == "POST" && ExtractMessage(body).Err?
    ensures Reply(requestMethod, body).status == 200 <==> requestMethod == "POST" && ExtractMessage(body).Ok?
  {
  }

  /** Any method other than POST gets 405, whatever the body. */
  lemma ReplyIgnoresBodyUnlessPost(requestMethod: string, body1: string, body2: string)
    requires requestMethod != "POST"
    ensures Reply(requestMethod, body1) == Reply(requestMethod, body2) == Response(405, MethodNotAllowedBody)
  {
  }

  /** A POST without the key anywhere gets 400, whatever else it holds. */
  lemma ReplyMissingField(body: string)
    requires AbsentFrom(body, MessageKey, 0)
    ensures Reply("POST", body) == Response(400, InvalidRequestBody)
  {
    ExtractMessageErr(body);
  }

  /** A POST whose extraction fails in any of its four ways gets 400. */
  lemma ReplyInvalid(body: string)
    requires ExtractMessage(body).Err?
    ensures Reply("POST", body) == Response(400, InvalidRequestBody)
  {
  }

  /** A message other than `ping` is echoed, escaped. */
  lemma ReplyEcho(body: string, msg: string)
    requires ExtractMessage(body) == Ok(msg) && msg != "ping"
    ensures Reply("POST", body) == Response(200, ResponseJson(EscapeJson(msg)))
  {
  }

  /** Every 200 reply is `{"response": "T"}` where T decodes to `pong` for
      the message `ping` and to the extracted message otherwise. */
  lemma ReplyEchoDecodes(body: string)
    requires ExtractMessage(body).Ok?
    ensures var msg := ExtractMessage(body).value;
      exists t :: Reply("POST", body) == Response(200, ResponseJson(t)) &&
        Unescape(t) == Some(if msg == "ping" then "pong" else msg)
  {
    var msg := ExtractMessage(body).value;
    if msg == "ping" {
      assert PongBody == ResponseJson("pong");
      assert Unescape("pong") == Some("pong") by {
        assert NoSpecial("pong");
        EscapeMapIdentity("pong");
        UnescapeEscapeMap("pong");
      }
    } else {
      UnescapeEscapeJson(msg);
      assert Reply("POST", body) == Response(200, ResponseJson(EscapeJson(msg)));
    }
  }

  /** A POST of `{"message": "X"}` with X free of quotes gets `pong` for
      `ping` and the escaped X otherwise. */
  lemma ReplyWellFormed(x: string)
    requires '"' !in x
    ensures Reply("POST", BodyPrefix + x + "\"}") ==
      if x == "ping" then Response(200, PongBody)
      else Response(200, ResponseJson(EscapeJson(x)))
  {
    ExtractWellFormed(x);
  }

  /** `{"message": "ping"}` gets `{"response": "pong"}`. */
  lemma ReplyPing()
    ensures Reply("POST", "{\"message\": \"ping\"}") == Response(200, PongBody)
  {
    ReplyWellFormed("ping");
    assert BodyPrefix + "ping" + "\"}" == "{\"message\": \"ping\"}";
  }

  /** A message that ends in its only special character, a backslash, is
      echoed with that backslash doubled. */
  lemma ReplyEchoTrailingBackslash(body: string, msg: string, plain: string)
    requires ExtractMessage(body) == Ok(msg)
    requires msg == plain + "\\" && NoSpecial(plain)
    ensures Reply("POST", body) == Response(200, ResponseJson(plain + "\\\\"))
  {
    assert msg != "ping" by {
      assert msg[|msg| - 1] == '\\';
    }
    EscapeJsonIsEscapeMap(msg);
    EscapeMapConcat(plain, "\\");
    EscapeMapIdentity(plain);
    assert EscapeMap("\\") == EscapeChar('\\') + EscapeMap([]);
  }

  /** The truncation quirk reaches the reply: the body
      `{"message": "He said \"hi\"\n"}` is echoed as the escape of
      `He said \`, which is `He said \\`. */
  lemma ReplyTruncatedEcho(body: string, echoed: string)
    requires body == BodyPrefix + "He said \\\"hi\\\"\\n\"}"
    requires echoed == "He said \\\\"
    ensures Reply("POST", body) == Response(200, ResponseJson(echoed))
  {
    ExtractTruncatesAtEscapedQuote(body);
    TruncatedMessageParts();
    ReplyEchoTrailingBackslash(body, "He said \\", "He said ");
  }

  /** The pieces of the truncated example message. */
  lemma TruncatedMessageParts()
    ensures NoSpecial("He said ")
    ensures "He said " + "\\" == "He said \\"
    ensures "He said " + "\\\\" == "He said \\\\"
  {
  }
}
