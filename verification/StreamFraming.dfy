/** Line framing and event dispatch of the server-sent-event streams in `chat.rs`.

    The blocking client pulls lines through a buffered reader; the cancellable client is pushed
    chunks and keeps its own pending buffer. Both are methods here, each proved against one
    reference that mentions neither buffers nor chunks. */
module StreamFraming {
  import opened Common

  const NEWLINE: byte := 10
  const MAX_LINE: nat := 1024 * 1024

  // ---------- Reference framing ----------

  /** How the transport stops: at the end of the body, or with an error. */
  datatype Ending = Finished | Interrupted

  /** Why framing stopped. */
  datatype Stop = AllRead | TooLong | Broken

  datatype Framing = Framing(lines: seq<seq<byte>>, stop: Stop)

  /** Index of the first newline. */
  function Position(s: seq<byte>): (r: Option<nat>)
    ensures r.Some? ==> r.value < |s| && s[r.value] == NEWLINE && NEWLINE !in s[..r.value]
    ensures r.None? ==> NEWLINE !in s
  {
    if s == [] then None
    else if s[0] == NEWLINE then Some(0)
    else match Position(s[1..])
      case None => None
      case Some(i) => assert s[..i + 1] == [s[0]] + s[1..][..i]; Some(i + 1)
  }

  /** Length of the first piece of `s`, its newline included. */
  function PieceLength(s: seq<byte>): (n: nat)
    ensures n <= |s|
    ensures s != [] ==> n > 0
  {
    match Position(s)
    case None => |s|
    case Some(i) => i + 1
  }

  /** The lines a body yields and the reason no further line follows. */
  function Frame(body: seq<byte>, ending: Ending, max: nat): Framing
    decreases |body|
  {
    if body == [] then
      Framing([], if ending.Finished? then AllRead else Broken)
    else
      var n := PieceLength(body);
      if n > max then Framing([], TooLong)
      else if ending.Interrupted? && NEWLINE !in body then Framing([], Broken)
      else
        var rest := Frame(body[n..], ending, max);
        Framing([body[..n]] + rest.lines, rest.stop)
  }

  /** `lines` cuts `body` after each newline: nothing is lost, no piece is empty, and a newline
      is found at the end of every piece but possibly the last, and nowhere else. */
  ghost predicate IsSplit(lines: seq<seq<byte>>, body: seq<byte>) {
    && Flatten(lines) == body
    && (forall i :: 0 <= i < |lines| ==> lines[i] != [] && '\n' as int !in lines[i][..|lines[i]| - 1])
    && (forall i :: 0 <= i < |lines| - 1 ==> lines[i] != [] && lines[i][|lines[i]| - 1] == '\n' as int)
  }

  lemma PositionConcat(a: seq<byte>, b: seq<byte>)
    ensures Position(a).Some? ==> Position(a + b) == Position(a)
    ensures NEWLINE !in a ==> PieceLength(a + b) == |a| + PieceLength(b)
  {
    match Position(a) {
      case Some(i) =>
        assert (a + b)[i] == NEWLINE;
        PositionIs(a + b, i);
      case None =>
        match Position(b) {
          case Some(j) =>
            assert (a + b)[|a| + j] == NEWLINE;
            assert (a + b)[..|a| + j] == a + b[..j];
            PositionIs(a + b, |a| + j);
          case None =>
        }
    }
  }

  lemma {:induction false} PositionIs(s: seq<byte>, i: nat)
    requires i < |s| && s[i] == NEWLINE && NEWLINE !in s[..i]
    ensures Position(s) == Some(i)
  {
    if i > 0 {
      assert s[..i] == [s[0]] + s[1..][..i - 1];
      PositionIs(s[1..], i - 1);
    }
  }

  lemma SplitNonempty(a: seq<seq<byte>>, body: seq<byte>)
    requires IsSplit(a, body)
    ensures a == [] <==> body == []
  {
    if a != [] { assert Flatten(a) == a[0] + Flatten(a[1..]); }
  }

  /** The first piece of a split ends at the first newline, and the others split what is left. */
  lemma SplitHead(a: seq<seq<byte>>, body: seq<byte>)
    requires IsSplit(a, body) && a != []
    ensures a[0] == body[..PieceLength(body)]
    ensures IsSplit(a[1..], body[PieceLength(body)..])
  {
    var h, t := a[0], Flatten(a[1..]);
    assert body == h + t;
    assert h == h[..|h| - 1] + [h[|h| - 1]];
    if h[|h| - 1] == NEWLINE {
      PositionIs(h, |h| - 1);
    } else {
      assert a[1..] == [] && body == h;
    }
    PositionConcat(h, t);
  }

  /** A body has only one split. */
  lemma {:induction false} SplitUnique(a: seq<seq<byte>>, b: seq<seq<byte>>, body: seq<byte>)
    requires IsSplit(a, body) && IsSplit(b, body)
    ensures a == b
  {
    SplitNonempty(a, body);
    SplitNonempty(b, body);
    if a != [] {
      SplitHead(a, body);
      SplitHead(b, body);
      SplitUnique(a[1..], b[1..], body[PieceLength(body)..]);
      assert a == [a[0]] + a[1..] && b == [b[0]] + b[1..];
    }
  }

  /** `f` is `pieces` cut before its first piece longer than `max`. */
  ghost predicate CutAtTooLong(f: Framing, pieces: seq<seq<byte>>, max: nat) {
    && |f.lines| <= |pieces|
    && f.lines == pieces[..|f.lines|]
    && (forall i :: 0 <= i < |f.lines| ==> |f.lines[i]| <= max)
    && (if |f.lines| == |pieces| then f.stop == AllRead
        else f.stop == TooLong && |pieces[|f.lines|]| > max)
  }

  /** The reference framing of a finished body is the body's split, cut before its first piece
      longer than `max`; "token too long" is reported exactly when there is such a piece. */
  lemma {:induction false} FrameIsSplit(body: seq<byte>, max: nat, pieces: seq<seq<byte>>)
    requires IsSplit(pieces, body)
    ensures CutAtTooLong(Frame(body, Finished, max), pieces, max)
  {
    SplitNonempty(pieces, body);
    if pieces != [] {
      SplitHead(pieces, body);
      var n := PieceLength(body);
      if n <= max {
        FrameIsSplit(body[n..], max, pieces[1..]);
        CutStep(Frame(body[n..], Finished, max), pieces, max);
      }
    }
  }

  predicate Terminated(piece: seq<byte>) { piece != [] && piece[|piece| - 1] == NEWLINE }

  /** `f` is `pieces` cut before the first that is longer than `max` or lacks its newline; the
      length decides which of the two is reported. */
  ghost predicate CutWhenBroken(f: Framing, pieces: seq<seq<byte>>, max: nat) {
    && |f.lines| <= |pieces|
    && f.lines == pieces[..|f.lines|]
    && (forall i :: 0 <= i < |f.lines| ==> |f.lines[i]| <= max && Terminated(f.lines[i]))
    && (if |f.lines| < |pieces| && |pieces[|f.lines|]| > max then f.stop == TooLong
        else f.stop == Broken && (|f.lines| < |pieces| ==> !Terminated(pieces[|f.lines|])))
  }

  /** The reference framing of a body whose transport broke off: its complete lines before the
      first piece that is too long, which is reported as such even without a newline; otherwise
      all complete lines, and the broken transport. */
  lemma {:induction false} InterruptedIsSplit(body: seq<byte>, max: nat, pieces: seq<seq<byte>>)
    requires IsSplit(pieces, body)
    ensures CutWhenBroken(Frame(body, Interrupted, max), pieces, max)
  {
    SplitNonempty(pieces, body);
    if pieces != [] {
      SplitHead(pieces, body);
      FirstTerminated(body);
      var n := PieceLength(body);
      if n <= max && NEWLINE in body {
        InterruptedIsSplit(body[n..], max, pieces[1..]);
        BrokenStep(Frame(body[n..], Interrupted, max), pieces, max);
      }
    }
  }

  lemma FirstTerminated(body: seq<byte>)
    requires body != []
    ensures Terminated(body[..PieceLength(body)]) <==> NEWLINE in body
  {
  }

  lemma BrokenStep(rest: Framing, pieces: seq<seq<byte>>, max: nat)
    requires pieces != [] && |pieces[0]| <= max && Terminated(pieces[0]) && CutWhenBroken(rest, pieces[1..], max)
    ensures CutWhenBroken(Framing([pieces[0]] + rest.lines, rest.stop), pieces, max)
  {
  }

  lemma CutStep(rest: Framing, pieces: seq<seq<byte>>, max: nat)
    requires pieces != [] && |pieces[0]| <= max && CutAtTooLong(rest, pieces[1..], max)
    ensures CutAtTooLong(Framing([pieces[0]] + rest.lines, rest.stop), pieces, max)
  {
  }

  /** Every body has a split: the reference framing with a limit no piece can pass. */
  lemma {:induction false} SplitExists(body: seq<byte>) returns (pieces: seq<seq<byte>>)
    ensures IsSplit(pieces, body)
  {
    if body == [] {
      pieces := [];
    } else {
      var n := PieceLength(body);
      var rest := SplitExists(body[n..]);
      pieces := [body[..n]] + rest;
      assert pieces[1..] == rest;
      assert body == body[..n] + body[n..];
      match Position(body) {
        case Some(i) =>
          assert body[..n][..n - 1] == body[..i];
        case None =>
          assert body[n..] == [];
          SplitNonempty(rest, []);
      }
    }
  }

  // ---------- Meaning of a line ----------

  datatype Dialect = Openai | Anthropic

  /** A call made on the caller's closures. */
  datatype Event = OnFinish(reason: string) | Callback(text: string)

  datatype Choice = Choice(finishReason: Option<string>, content: string)
  datatype Delta = Delta(stopReason: Option<string>, text: Option<string>)
  datatype AnthropicEvent = AnthropicEvent(kind: string, delta: Option<Delta>)

  /** What the model leaves uninterpreted: lossy UTF-8 decoding, Unicode white space, the JSON
      decoders (a chunk is the list of its choices), and the caller's callback, which may accept
      or refuse a text depending on every call made before. */
  datatype Surroundings = Surroundings(
    lossy: seq<byte> -> string,
    isSpace: char -> bool,
    decodeOpenai: string -> Option<seq<Choice>>,
    decodeAnthropic: string -> Option<AnthropicEvent>,
    accepts: seq<Event> -> bool)

  datatype Meaning = Ignored | Undecodable(data: string) | Delivers(events: seq<Event>)

  /** The payload of a data line that carries one. */
  function Payload(line: seq<byte>, env: Surroundings): Option<string> {
    var text := env.lossy(line);
    if "data:" <= text then
      var data := Trim(text[5..], env.isSpace);
      if data == "" || data == "[DONE]" then None else Some(data)
    else None
  }

  function FinishOf(reason: Option<string>): seq<Event> {
    if reason.Some? && reason.value != "" then [OnFinish(reason.value)] else []
  }

  function TextOf(text: Option<string>): seq<Event> {
    if text.Some? && text.value != "" then [Callback(text.value)] else []
  }

  /** Only the first choice of a chunk counts; its finish reason precedes its text. */
  function OpenaiMeaning(data: string, chunk: Option<seq<Choice>>): Meaning {
    match chunk
    case None => Undecodable(data)
    case Some(choices) =>
      if choices == [] then Delivers([])
      else Delivers(FinishOf(choices[0].finishReason) + TextOf(Some(choices[0].content)))
  }

  /** An event that does not decode, or is of another kind, asks for nothing. */
  function AnthropicMeaning(decoded: Option<AnthropicEvent>): Meaning {
    match decoded
    case Some(AnthropicEvent("message_delta", Some(delta))) => Delivers(FinishOf(delta.stopReason))
    case Some(AnthropicEvent("content_block_delta", Some(delta))) => Delivers(TextOf(delta.text))
    case _ => Delivers([])
  }

  function LineMeaning(line: seq<byte>, dialect: Dialect, env: Surroundings): Meaning {
    match Payload(line, env)
    case None => Ignored
    case Some(data) =>
      match dialect
      case Openai => OpenaiMeaning(data, env.decodeOpenai(data))
      case Anthropic => AnthropicMeaning(env.decodeAnthropic(data))
  }

  // ---------- Reference run ----------

  datatype Failure =
    | DecodeChunk(data: string)
    | CallbackRefused
    | NoStreamData
    | TokenTooLong(started: bool)
    | TransportFailed(started: bool)

  /** What a caller can observe of a whole stream: the ordered calls, whether a payload was seen,
      and the failure if there is one. */
  datatype Observed = Observed(trace: seq<Event>, started: bool, failure: Option<Failure>)

  /** Makes the calls in order, stopping after the first refused callback. */
  function Deliver(trace: seq<Event>, events: seq<Event>, env: Surroundings): (seq<Event>, bool)
    decreases |events|
  {
    if events == [] then (trace, true)
    else
      var made := trace + [events[0]];
      if events[0].Callback? && !env.accepts(made) then (made, false)
      else Deliver(made, events[1..], env)
  }

  /** The run of one line from the observation `o`. */
  function RunLine(line: seq<byte>, dialect: Dialect, env: Surroundings, o: Observed): Observed {
    Run(LineMeaning(line, dialect, env), env, o)
  }

  function Run(meaning: Meaning, env: Surroundings, o: Observed): Observed {
    match meaning
    case Ignored => o
    case Undecodable(data) => Observed(o.trace, true, Some(DecodeChunk(data)))
    case Delivers(events) =>
      var (trace, accepted) := Deliver(o.trace, events, env);
      Observed(trace, true, if accepted then None else Some(CallbackRefused))
  }

  function RunLines(lines: seq<seq<byte>>, dialect: Dialect, env: Surroundings, o: Observed): Observed
    decreases |lines|
  {
    if lines == [] || o.failure.Some? then o
    else RunLines(lines[1..], dialect, env, RunLine(lines[0], dialect, env, o))
  }

  function Conclude(o: Observed, stop: Stop): Observed {
    if o.failure.Some? then o
    else match stop
      case AllRead => if o.started then o else o.(failure := Some(NoStreamData))
      case TooLong => o.(failure := Some(TokenTooLong(o.started)))
      case Broken => o.(failure := Some(TransportFailed(o.started)))
  }

  /** The reference: frame the rest of the body, run its lines, conclude. */
  function Continue(body: seq<byte>, ending: Ending, dialect: Dialect, env: Surroundings, o: Observed): Observed {
    var framing := Frame(body, ending, MAX_LINE);
    Conclude(RunLines(framing.lines, dialect, env, o), framing.stop)
  }

  const NOTHING_SEEN := Observed([], false, None)

  function Reference(body: seq<byte>, ending: Ending, dialect: Dialect, env: Surroundings): Observed {
    Continue(body, ending, dialect, env, NOTHING_SEEN)
  }

  lemma DeliverOne(trace: seq<Event>, events: seq<Event>, env: Surroundings)
    requires |events| <= 1
    ensures Deliver(trace, events, env) ==
            (trace + events, events == [] || events[0].OnFinish? || env.accepts(trace + events))
  {
    if events == [] {
      assert trace + events == trace;
    } else {
      assert events == [events[0]] && events[1..] == [];
    }
  }

  /** The calls an OpenAI choice can ask for: a finish reason, then a text. */
  lemma DeliverTwo(trace: seq<Event>, finish: seq<Event>, texts: seq<Event>, env: Surroundings)
    requires |finish| <= 1 && |texts| <= 1
    requires finish != [] ==> finish[0].OnFinish?
    ensures Deliver(trace, finish + texts, env) ==
            (trace + finish + texts,
             texts == [] || texts[0].OnFinish? || env.accepts(trace + finish + texts))
  {
    DeliverOne(trace + finish, texts, env);
    if finish == [] {
      assert finish + texts == texts && trace + finish == trace;
    } else {
      assert (finish + texts)[1..] == texts && finish == [finish[0]];
    }
  }

  /** A failure is final: nothing after it is observed. */
  lemma ContinueStep(body: seq<byte>, ending: Ending, dialect: Dialect, env: Surroundings, o: Observed)
    requires o.failure.None? && body != []
    ensures var n := PieceLength(body);
      Continue(body, ending, dialect, env, o) ==
      if n > MAX_LINE then Conclude(o, TooLong)
      else if ending.Interrupted? && NEWLINE !in body then Conclude(o, Broken)
      else
        var next := RunLine(body[..n], dialect, env, o);
        if next.failure.Some? then next else Continue(body[n..], ending, dialect, env, next)
  {
    var n := PieceLength(body);
    if n <= MAX_LINE && !(ending.Interrupted? && NEWLINE !in body) {
      var rest := Frame(body[n..], ending, MAX_LINE);
      var framing := Frame(body, ending, MAX_LINE);
      assert framing.lines[0] == body[..n] && framing.lines[1..] == rest.lines;
      var next := RunLine(body[..n], dialect, env, o);
      assert RunLines(framing.lines, dialect, env, o) == RunLines(rest.lines, dialect, env, next);
    }
  }

  // ---------- What a line does, over its text ----------

  /** The line reads `data:`, white space, `data`, white space, and `data` is neither nothing nor
      the closing sentinel. */
  ghost predicate IsData(line: seq<byte>, data: string, env: Surroundings) {
    && data != "" && data != "[DONE]" && SolidEnds(data, env.isSpace)
    && var text := env.lossy(line);
    "data:" <= text && Padded(text[5..], data, env.isSpace)
  }

  lemma PayloadIff(line: seq<byte>, data: string, env: Surroundings)
    ensures Payload(line, env) == Some(data) <==> IsData(line, data, env)
  {
    var text := env.lossy(line);
    if "data:" <= text {
      TrimIff(text[5..], data, env.isSpace);
    }
  }

  /** A line without the prefix, with nothing behind it, or with the sentinel behind it leaves no
      mark, not even on `started`, however much white space surrounds it. */
  lemma LineIgnored(line: seq<byte>, dialect: Dialect, env: Surroundings, o: Observed)
    requires var text := env.lossy(line);
      || !("data:" <= text)
      || AllSpace(text[5..], env.isSpace)
      || (Padded(text[5..], "[DONE]", env.isSpace) && !env.isSpace('[') && !env.isSpace(']'))
    ensures RunLine(line, dialect, env, o) == o
  {
    var text := env.lossy(line);
    if "data:" <= text {
      if AllSpace(text[5..], env.isSpace) {
        assert text[5..] == text[5..] + "" + "" && AllSpace("", env.isSpace);
        TrimIff(text[5..], "", env.isSpace);
      } else {
        TrimIff(text[5..], "[DONE]", env.isSpace);
      }
    }
  }

  /** An OpenAI payload: a chunk that does not decode fails the stream before any call; otherwise
      the first choice alone counts, its finish reason is reported before its text, neither when
      empty, and a refused text is the failure. */
  lemma OpenaiLine(line: seq<byte>, data: string, env: Surroundings, o: Observed)
    requires IsData(line, data, env)
    ensures var r := RunLine(line, Openai, env, o);
      match env.decodeOpenai(data)
      case None => r == Observed(o.trace, true, Some(DecodeChunk(data)))
      case Some(choices) =>
        if choices == [] then r == Observed(o.trace, true, None)
        else
          var reason, content := choices[0].finishReason, choices[0].content;
          var silent := reason == None || reason == Some("");
          var called := if silent then o.trace else o.trace + [OnFinish(reason.value)];
          if content == "" then r == Observed(called, true, None)
          else
            var all := called + [Callback(content)];
            r == Observed(all, true, if env.accepts(all) then None else Some(CallbackRefused))
  {
    PayloadIff(line, data, env);
    var decoded := env.decodeOpenai(data);
    if decoded.Some? && decoded.value != [] {
      var choice := decoded.value[0];
      var finish, texts := FinishOf(choice.finishReason), TextOf(Some(choice.content));
      DeliverTwo(o.trace, finish, texts, env);
      assert o.trace + [] == o.trace;
      assert o.trace + (finish + texts) == (o.trace + finish) + texts;
      assert o.trace + finish + [] == o.trace + finish;
    }
  }

  /** An Anthropic payload: a `message_delta` reports its stop reason, a `content_block_delta` its
      text, neither when absent or empty; every other event, and one that does not decode, only
      counts as stream data. */
  lemma AnthropicLine(line: seq<byte>, data: string, env: Surroundings, o: Observed)
    requires IsData(line, data, env)
    ensures var r := RunLine(line, Anthropic, env, o);
      var event := env.decodeAnthropic(data);
      var delta := if event.Some? then event.value.delta else None;
      if delta.Some? && event.value.kind == "message_delta"
         && delta.value.stopReason != None && delta.value.stopReason != Some("") then
        r == Observed(o.trace + [OnFinish(delta.value.stopReason.value)], true, None)
      else if delta.Some? && event.value.kind == "content_block_delta"
              && delta.value.text != None && delta.value.text != Some("") then
        var all := o.trace + [Callback(delta.value.text.value)];
        r == Observed(all, true, if env.accepts(all) then None else Some(CallbackRefused))
      else
        r == Observed(o.trace, true, None)
  {
    PayloadIff(line, data, env);
    var event := env.decodeAnthropic(data);
    assert o.trace + [] == o.trace;
    if event.Some? && event.value.delta.Some? {
      var delta := event.value.delta.value;
      DeliverOne(o.trace, FinishOf(delta.stopReason), env);
      DeliverOne(o.trace, TextOf(delta.text), env);
    }
  }

  /** One line more at the end runs on what the lines before it left, and not at all once one of
      them failed. */
  lemma {:induction false} LastLineRuns(lines: seq<seq<byte>>, line: seq<byte>, dialect: Dialect, env: Surroundings,
                                        o: Observed)
    ensures var before := RunLines(lines, dialect, env, o);
      RunLines(lines + [line], dialect, env, o) ==
      if before.failure.Some? then before else RunLine(line, dialect, env, before)
    decreases |lines|
  {
    hide RunLine;
    if lines == [] {
      assert (lines + [line])[1..] == [];
    } else if o.failure.None? {
      assert (lines + [line])[1..] == lines[1..] + [line];
      LastLineRuns(lines[1..], line, dialect, env, RunLine(lines[0], dialect, env, o));
    }
  }

  /** How a whole stream ends, with the limit a line may have written out: the first line that
      fails decides; otherwise a piece over the limit, a broken transport and a body without
      payloads are the three failures, and the first two say whether a payload came before. */
  lemma OutcomeIff(body: seq<byte>, ending: Ending, dialect: Dialect, env: Surroundings)
    ensures var f := Frame(body, ending, 1_048_576);
      var ran := RunLines(f.lines, dialect, env, Observed([], false, None));
      var r := Reference(body, ending, dialect, env);
      && r.trace == ran.trace && r.started == ran.started
      && (ran.failure.Some? ==> r.failure == ran.failure)
      && (ran.failure.None? ==>
            && (r.failure == None <==> f.stop == AllRead && r.started)
            && (r.failure == Some(NoStreamData) <==> f.stop == AllRead && !r.started)
            && (r.failure == Some(TokenTooLong(r.started)) <==> f.stop == TooLong)
            && (r.failure == Some(TransportFailed(r.started)) <==> f.stop == Broken))
  {
  }

  /** Whether a line carries a payload, which is what sets `started`. */
  ghost predicate Carries(line: seq<byte>, env: Surroundings) {
    exists data :: IsData(line, data, env)
  }

  lemma CarriesIff(line: seq<byte>, env: Surroundings)
    ensures Carries(line, env) <==> Payload(line, env).Some?
  {
    var payload := Payload(line, env);
    if payload.Some? { PayloadIff(line, payload.value, env); }
    if Carries(line, env) {
      var data :| IsData(line, data, env);
      PayloadIff(line, data, env);
    }
  }

  ghost predicate AnyCarries(lines: seq<seq<byte>>, env: Surroundings) {
    exists i :: 0 <= i < |lines| && Carries(lines[i], env)
  }

  lemma AnyCarriesStep(lines: seq<seq<byte>>, env: Surroundings)
    requires lines != []
    ensures AnyCarries(lines, env) <==> Carries(lines[0], env) || AnyCarries(lines[1..], env)
  {
    if AnyCarries(lines, env) {
      var i :| 0 <= i < |lines| && Carries(lines[i], env);
      if i > 0 { assert Carries(lines[1..][i - 1], env); }
    }
    if AnyCarries(lines[1..], env) {
      var i :| 0 <= i < |lines[1..]| && Carries(lines[1..][i], env);
      assert Carries(lines[i + 1], env);
    }
  }

  lemma {:induction false} StartedIff(lines: seq<seq<byte>>, dialect: Dialect, env: Surroundings, o: Observed)
    requires o.failure.None?
    ensures var r := RunLines(lines, dialect, env, o);
      && (r.started <==> o.started || AnyCarries(lines, env))
      && r.failure != Some(NoStreamData)
      && (r.failure.Some? ==> r.started)
    decreases |lines|
  {
    if lines != [] {
      AnyCarriesStep(lines, env);
      CarriesIff(lines[0], env);
      var next := RunLine(lines[0], dialect, env, o);
      if next.failure.None? {
        StartedIff(lines[1..], dialect, env, next);
      }
    }
  }

  /** "No stream data" is reported exactly when the whole body was framed, no line carried a
      payload, and the transport finished; `started` holds exactly when some framed line did. */
  lemma NoStreamDataIff(body: seq<byte>, ending: Ending, dialect: Dialect, env: Surroundings)
    ensures var f := Frame(body, ending, MAX_LINE);
      var r := Reference(body, ending, dialect, env);
      && (r.started <==> AnyCarries(f.lines, env))
      && (r.failure == Some(NoStreamData) <==> f.stop == AllRead && !AnyCarries(f.lines, env))
  {
    var f := Frame(body, ending, MAX_LINE);
    StartedIff(f.lines, dialect, env, NOTHING_SEEN);
  }

  // ---------- Dispatch of one line ----------

  /** The caller's closures and the `started` flag, as both clients update them. */
  class Session {
    const env: Surroundings
    const dialect: Dialect
    var started: bool
    var trace: seq<Event>

    constructor (env: Surroundings, dialect: Dialect)
      ensures this.env == env && this.dialect == dialect && !started && trace == []
    {
      this.env, this.dialect, started, trace := env, dialect, false, [];
    }

    function Seen(): Observed
      reads this
    {
      Observed(trace, started, None)
    }

    method Finish(reason: string)
      modifies this`trace
      ensures trace == old(trace) + [OnFinish(reason)]
    {
      trace := trace + [OnFinish(reason)];
    }

    method Call(text: string) returns (ok: bool)
      modifies this`trace
      ensures trace == old(trace) + [Callback(text)] && ok == env.accepts(trace)
    {
      trace := trace + [Callback(text)];
      ok := env.accepts(trace);
    }

    method DispatchOpenai(data: string) returns (failure: Option<Failure>)
      requires started
      modifies this`trace
      ensures Observed(trace, started, failure) ==
              Run(OpenaiMeaning(data, env.decodeOpenai(data)), env, old(Seen()))
    {
      var chunk := env.decodeOpenai(data);
      if chunk.None? { return Some(DecodeChunk(data)); }
      failure := None;
      if chunk.value != [] {
        var choice := chunk.value[0];
        DeliverTwo(trace, FinishOf(choice.finishReason), TextOf(Some(choice.content)), env);
        if choice.finishReason.Some? && choice.finishReason.value != "" {
          Finish(choice.finishReason.value);
        }
        if choice.content != "" {
          var ok := Call(choice.content);
          if !ok { failure := Some(CallbackRefused); }
        }
      }
    }

    method DispatchAnthropic(data: string) returns (failure: Option<Failure>)
      requires started
      modifies this`trace
      ensures Observed(trace, started, failure) ==
              Run(AnthropicMeaning(env.decodeAnthropic(data)), env, old(Seen()))
    {
      failure := None;
      var decoded := env.decodeAnthropic(data);
      if decoded.None? || decoded.value.delta.None? { return; }
      var event, delta := decoded.value, decoded.value.delta.value;
      if event.kind == "message_delta" {
        DeliverOne(trace, FinishOf(delta.stopReason), env);
        if delta.stopReason.Some? && delta.stopReason.value != "" {
          Finish(delta.stopReason.value);
        }
      } else if event.kind == "content_block_delta" {
        DeliverOne(trace, TextOf(delta.text), env);
        if delta.text.Some? && delta.text.value != "" {
          var ok := Call(delta.text.value);
          if !ok { failure := Some(CallbackRefused); }
        }
      }
    }

    /** One raw line as the cancellable client processes it: prefix, trim, sentinel, decode, calls. */
    method ProcessLine(rawLine: seq<byte>) returns (failure: Option<Failure>)
      modifies this
      ensures Observed(trace, started, failure) == RunLine(rawLine, dialect, env, old(Seen()))
    {
      var text := env.lossy(rawLine);
      if !("data:" <= text) { return None; }
      var data := Trim(text[5..], env.isSpace);
      if data == "" || data == "[DONE]" { return None; }
      started := true;
      if dialect == Openai {
        failure := DispatchOpenai(data);
      } else {
        failure := DispatchAnthropic(data);
      }
    }

    /** One raw line as the blocking client's loop processes it: the same steps, written out a
        second time. */
    method ProcessPulledLine(rawLine: seq<byte>) returns (failure: Option<Failure>)
      modifies this
      ensures Observed(trace, started, failure) == RunLine(rawLine, dialect, env, old(Seen()))
    {
      failure := None;
      var line := env.lossy(rawLine);
      if !("data:" <= line) { return; }
      var data := Trim(line[5..], env.isSpace);
      if data == "" || data == "[DONE]" { return; }
      started := true;
      if dialect == Openai {
        var chunk := env.decodeOpenai(data);
        if chunk.None? { return Some(DecodeChunk(data)); }
        if chunk.value != [] {
          var choice := chunk.value[0];
          DeliverTwo(trace, FinishOf(choice.finishReason), TextOf(Some(choice.content)), env);
          if choice.finishReason.Some? && choice.finishReason.value != "" {
            Finish(choice.finishReason.value);
          }
          if choice.content != "" {
            var ok := Call(choice.content);
            if !ok { return Some(CallbackRefused); }
          }
        }
      } else {
        var decoded := env.decodeAnthropic(data);
        if decoded.Some? {
          var event := decoded.value;
          if event.kind == "message_delta" {
            var reason := if event.delta.Some? then event.delta.value.stopReason else None;
            DeliverOne(trace, FinishOf(reason), env);
            if reason.Some? && reason.value != "" { Finish(reason.value); }
          } else if event.kind == "content_block_delta" {
            var text := if event.delta.Some? then event.delta.value.text else None;
            DeliverOne(trace, TextOf(text), env);
            if text.Some? && text.value != "" {
              var ok := Call(text.value);
              if !ok { return Some(CallbackRefused); }
            }
          }
        }
      }
    }
  }

  // ---------- Pull: a buffered reader ----------

  /** A buffered reader: bytes read but not consumed, and the reads still to come. A read of no
      bytes means the end of the body, so none of the coming reads is empty. */
  class BufferedReader {
    var buffer: seq<byte>
    var arrivals: seq<seq<byte>>
    const ending: Ending

    constructor (arrivals: seq<seq<byte>>, ending: Ending)
      requires forall i :: 0 <= i < |arrivals| ==> arrivals[i] != []
      ensures Valid() && Remaining() == Flatten(arrivals) && this.ending == ending
    {
      this.buffer, this.arrivals, this.ending := [], arrivals, ending;
    }

    ghost predicate Valid()
      reads this
    {
      forall i :: 0 <= i < |arrivals| ==> arrivals[i] != []
    }

    ghost function Remaining(): seq<byte>
      reads this
    {
      buffer + Flatten(arrivals)
    }

    /** The unread buffer, refilled when empty; no bytes at the end; `None` for a read error. */
    method FillBuf() returns (filled: Option<seq<byte>>)
      requires Valid()
      modifies this
      ensures Valid() && Remaining() == old(Remaining())
      ensures filled.Some? ==> filled.value == buffer && buffer <= Remaining()
      ensures filled.Some? && filled.value == [] ==> Remaining() == [] && ending.Finished?
      ensures filled.None? ==> Remaining() == [] && ending.Interrupted?
    {
      if buffer == [] {
        if arrivals == [] {
          return if ending.Finished? then Some([]) else None;
        }
        assert Remaining() == arrivals[0] + Flatten(arrivals[1..]);
        buffer, arrivals := arrivals[0], arrivals[1..];
      }
      filled := Some(buffer);
    }

    method Consume(count: nat)
      requires Valid() && count <= |buffer|
      modifies this
      ensures Valid() && Remaining() == old(Remaining())[count..]
    {
      assert Remaining()[count..] == buffer[count..] + Flatten(arrivals);
      buffer := buffer[count..];
    }
  }

  datatype LineRead = EndOfBody | Line(bytes: seq<byte>) | LineTooLong | ReadFailed

  /** What the first read of a line finds in the bytes that remain. */
  function FirstLine(body: seq<byte>, ending: Ending, max: nat): LineRead {
    if body == [] then (if ending.Finished? then EndOfBody else ReadFailed)
    else if PieceLength(body) > max then LineTooLong
    else if ending.Interrupted? && NEWLINE !in body then ReadFailed
    else Line(body[..PieceLength(body)])
  }

  /** One buffer more: `line` was gathered, `buffer` is in hand, `rest` is still to come. */
  lemma FirstLineOfBuffer(line: seq<byte>, buffer: seq<byte>, rest: seq<byte>, ending: Ending, max: nat)
    requires NEWLINE !in line && buffer != []
    ensures var body := line + (buffer + rest);
      var count := PieceLength(buffer);
      && (|line| + count > max ==> FirstLine(body, ending, max) == LineTooLong)
      && (|line| + count <= max && Position(buffer).Some? ==>
            FirstLine(body, ending, max) == Line(line + buffer[..count]))
  {
    var body := line + (buffer + rest);
    PositionConcat(line, buffer + rest);
    PositionConcat(buffer, rest);
    if Position(buffer).Some? {
      var i := Position(buffer).value;
      assert body[|line| + i] == NEWLINE;
      assert body[..|line| + i + 1] == line + buffer[..i + 1];
    }
  }

  /** The end of the body, with `line` gathered. */
  lemma AtEnd(line: seq<byte>, ending: Ending, max: nat)
    requires NEWLINE !in line && |line| <= max
    ensures FirstLine(line, ending, max) ==
            if ending.Interrupted? then ReadFailed else if line == [] then EndOfBody else Line(line)
    ensures line[|line|..] == []
  {
    assert line[..|line|] == line;
  }

  /** Moving `count` bytes of `tail` to the end of `head` keeps their concatenation. */
  lemma Shift(head: seq<byte>, tail: seq<byte>, count: nat)
    requires count <= |tail|
    ensures (head + tail[..count]) + tail[count..] == head + tail
    ensures (head + tail)[|head| + count..] == tail[count..]
  {
  }

  method ReadBoundedLine(reader: BufferedReader, max: nat) returns (r: LineRead)
    requires reader.Valid()
    modifies reader
    ensures reader.Valid()
    ensures r == FirstLine(old(reader.Remaining()), reader.ending, max)
    ensures r.Line? ==> reader.Remaining() == old(reader.Remaining())[|r.bytes|..]
  {
    hide FirstLine;
    var line: seq<byte> := [];
    ghost var body := reader.Remaining();
    assert line + body == body;
    while true
      invariant reader.Valid()
      invariant line + reader.Remaining() == body
      invariant NEWLINE !in line && |line| <= max
      decreases |reader.Remaining()|
    {
      var filled := reader.FillBuf();
      ghost var tail := reader.Remaining();
      if filled.None? || filled.value == [] {
        assert body == line + [] == line;
        AtEnd(line, reader.ending, max);
        return if filled.None? then ReadFailed else if line == [] then EndOfBody else Line(line);
      }
      var buffer := filled.value;
      assert tail == buffer + tail[|buffer|..];
      FirstLineOfBuffer(line, buffer, tail[|buffer|..], reader.ending, max);
      var newline := Position(buffer);
      var count := if newline.Some? then newline.value + 1 else |buffer|;
      if |line| + count > max {
        return LineTooLong;
      }
      assert buffer[..count] == tail[..count];
      Shift(line, tail, count);
      line := line + buffer[..count];
      reader.Consume(count);
      if newline.Some? {
        return Line(line);
      }
    }
  }

  /** The blocking client's loop over `read_bounded_line`, with its own copy of the dispatch. */
  method StreamBlocking(reader: BufferedReader, session: Session) returns (failure: Option<Failure>)
    requires reader.Valid() && !session.started && session.trace == []
    modifies reader, session
    ensures Observed(session.trace, session.started, failure) ==
            Reference(old(reader.Remaining()), reader.ending, session.dialect, session.env)
  {
    hide RunLine;
    ghost var whole := Reference(reader.Remaining(), reader.ending, session.dialect, session.env);
    while true
      invariant reader.Valid()
      invariant Continue(reader.Remaining(), reader.ending, session.dialect, session.env, session.Seen()) == whole
      decreases |reader.Remaining()|
    {
      ghost var body, before := reader.Remaining(), session.Seen();
      if body != [] { ContinueStep(body, reader.ending, session.dialect, session.env, before); }
      var read := ReadBoundedLine(reader, MAX_LINE);
      match read {
        case EndOfBody =>
          return if session.started then None else Some(NoStreamData);
        case ReadFailed =>
          return Some(TransportFailed(session.started));
        case LineTooLong =>
          return Some(TokenTooLong(session.started));
        case Line(raw) =>
          failure := session.ProcessPulledLine(raw);
          if failure.Some? { return; }
      }
    }
  }

  // ---------- Push: a pending buffer ----------

  /** The pending buffer holds a complete line, whatever is still to come. */
  lemma PendingLine(pending: seq<byte>, rest: seq<byte>, ending: Ending, dialect: Dialect, env: Surroundings,
                    o: Observed)
    requires Position(pending).Some? && o.failure.None?
    ensures var n := PieceLength(pending);
      Continue(pending + rest, ending, dialect, env, o) ==
      if n > MAX_LINE then Conclude(o, TooLong)
      else
        var next := RunLine(pending[..n], dialect, env, o);
        if next.failure.Some? then next else Continue(pending[n..] + rest, ending, dialect, env, next)
  {
    hide Continue, RunLine, Conclude;
    var n := PieceLength(pending);
    PositionConcat(pending, rest);
    ContinueStep(pending + rest, ending, dialect, env, o);
    assert (pending + rest)[n - 1] == NEWLINE;
    assert (pending + rest)[..n] == pending[..n] && (pending + rest)[n..] == pending[n..] + rest;
  }

  /** The pending buffer holds no complete line and is already too long. */
  lemma PendingTooLong(pending: seq<byte>, rest: seq<byte>, ending: Ending, dialect: Dialect, env: Surroundings,
                       o: Observed)
    requires NEWLINE !in pending && |pending| > MAX_LINE && o.failure.None?
    ensures Continue(pending + rest, ending, dialect, env, o) == Conclude(o, TooLong)
  {
    PositionConcat(pending, rest);
    ContinueStep(pending + rest, ending, dialect, env, o);
  }

  /** The transport has stopped with an incomplete line in the pending buffer. */
  lemma PendingTail(pending: seq<byte>, ending: Ending, dialect: Dialect, env: Surroundings, o: Observed)
    requires NEWLINE !in pending && |pending| <= MAX_LINE && o.failure.None?
    ensures Continue(pending, ending, dialect, env, o) ==
      if ending.Interrupted? then Conclude(o, Broken)
      else if pending == [] then Conclude(o, AllRead)
      else Conclude(RunLine(pending, dialect, env, o), AllRead)
  {
    if pending != [] {
      ContinueStep(pending, ending, dialect, env, o);
      assert pending[..|pending|] == pending && pending[|pending|..] == [];
    }
  }

  /** The cancellable client's loop: chunks of any size, empty ones included, are appended to a
      pending buffer from which complete lines are drained. */
  method StreamCancellable(chunks: seq<seq<byte>>, ending: Ending, session: Session) returns (failure: Option<Failure>)
    requires !session.started && session.trace == []
    modifies session
    ensures Observed(session.trace, session.started, failure) ==
            Reference(Flatten(chunks), ending, session.dialect, session.env)
  {
    hide Continue, RunLine;
    ghost var whole := Reference(Flatten(chunks), ending, session.dialect, session.env);
    var pending: seq<byte> := [];
    var next := 0;
    assert chunks[0..] == chunks && pending + Flatten(chunks) == Flatten(chunks);
    while next < |chunks|
      invariant 0 <= next <= |chunks|
      invariant NEWLINE !in pending && |pending| <= MAX_LINE
      invariant Continue(pending + Flatten(chunks[next..]), ending, session.dialect, session.env, session.Seen()) ==
        whole
    {
      ghost var rest := Flatten(chunks[next + 1..]);
      assert chunks[next..][1..] == chunks[next + 1..];
      assert pending + Flatten(chunks[next..]) == (pending + chunks[next]) + rest;
      pending := pending + chunks[next];
      next := next + 1;
      var index := Position(pending);
      while index.Some?
        invariant index == Position(pending)
        invariant Continue(pending + rest, ending, session.dialect, session.env, session.Seen()) == whole
        decreases |pending|
      {
        PendingLine(pending, rest, ending, session.dialect, session.env, session.Seen());
        if index.value + 1 > MAX_LINE {
          return Some(TokenTooLong(session.started));
        }
        var line := pending[..index.value + 1];
        pending := pending[index.value + 1..];
        failure := session.ProcessLine(line);
        if failure.Some? { return; }
        index := Position(pending);
      }
      if |pending| > MAX_LINE {
        PendingTooLong(pending, rest, ending, session.dialect, session.env, session.Seen());
        return Some(TokenTooLong(session.started));
      }
    }
    assert chunks[next..] == [];
    assert pending + Flatten(chunks[next..]) == pending;
    PendingTail(pending, ending, session.dialect, session.env, session.Seen());
    if ending.Interrupted? {
      return Some(TransportFailed(session.started));
    }
    if pending != [] {
      failure := session.ProcessLine(pending);
      if failure.Some? { return; }
    }
    return if session.started then None else Some(NoStreamData);
  }

  /** The two clients over the same body, however each transport cuts it: same calls in the same
      order, same flag, same failure. */
  method BothClients(arrivals: seq<seq<byte>>, chunks: seq<seq<byte>>, ending: Ending, dialect: Dialect,
                     env: Surroundings)
    returns (pulled: Observed, pushed: Observed)
    requires forall i :: 0 <= i < |arrivals| ==> arrivals[i] != []
    requires Flatten(arrivals) == Flatten(chunks)
    ensures pulled == pushed
    ensures pulled == Reference(Flatten(chunks), ending, dialect, env)
  {
    var reader := new BufferedReader(arrivals, ending);
    var blocking := new Session(env, dialect);
    var failure := StreamBlocking(reader, blocking);
    pulled := Observed(blocking.trace, blocking.started, failure);
    var cancellable := new Session(env, dialect);
    failure := StreamCancellable(chunks, ending, cancellable);
    pushed := Observed(cancellable.trace, cancellable.started, failure);
  }
}
