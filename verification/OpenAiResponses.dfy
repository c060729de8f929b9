/** The OpenAI chat response of `chat.rs`, decoded through reused slots at two nesting levels. */
module OpenAiResponses {
  import opened Common
  import opened GoSlices

  datatype Function = Function(name: string, arguments: string)
  datatype ToolCall = ToolCall(id: string, function_: Function)
  datatype Message = Message(content: string, toolCalls: Slice<ToolCall>)
  datatype Choice = Choice(message: Message, finishReason: string)
  datatype Response = Response(choices: Slice<Choice>)

  const NO_FUNCTION := Function("", "")
  const NO_CALL := ToolCall("", NO_FUNCTION)
  const NO_MESSAGE := Message("", EmptySlice())
  const NO_CHOICE := Choice(NO_MESSAGE, "")
  const NO_RESPONSE := Response(EmptySlice())

  /** `Option<String>` decoded over a string: null keeps it, another type is an error. */
  function ReadText(current: string, json: Json): Option<string> {
    match json
    case Null => Some(current)
    case Text(text) => Some(text)
    case _ => None
  }

  function ReadFunction(f: Function, field: Field): Option<Function> {
    if Names(field.key, "name") then
      (match ReadText(f.name, field.value) case None => None case Some(s) => Some(f.(name := s)))
    else if Names(field.key, "arguments") then
      (match ReadText(f.arguments, field.value) case None => None case Some(s) => Some(f.(arguments := s)))
    else Some(f)
  }

  function DecodeFunction(f: Function, json: Json): Option<Function> {
    ReadObject(f, json, ReadFunction)
  }

  function ReadCall(call: ToolCall, field: Field): Option<ToolCall> {
    if Names(field.key, "id") then
      (match ReadText(call.id, field.value) case None => None case Some(s) => Some(call.(id := s)))
    else if Names(field.key, "type") then
      (match ReadText("", field.value) case None => None case Some(_) => Some(call))
    else if Names(field.key, "function") then
      (match DecodeFunction(call.function_, field.value) case None => None case Some(f) => Some(call.(function_ := f)))
    else Some(call)
  }

  function DecodeCall(call: ToolCall, json: Json): Option<ToolCall> {
    ReadObject(call, json, ReadCall)
  }

  function ReadMessage(m: Message, field: Field): Option<Message> {
    if Names(field.key, "content") then
      (match ReadText(m.content, field.value) case None => None case Some(s) => Some(m.(content := s)))
    else if Names(field.key, "tool_calls") then
      (match ReadSlice(m.toolCalls, field.value, NO_CALL, DecodeCall)
       case None => None
       case Some(calls) => Some(m.(toolCalls := calls)))
    else Some(m)
  }

  function DecodeMessage(m: Message, json: Json): Option<Message> {
    ReadObject(m, json, ReadMessage)
  }

  function ReadChoice(c: Choice, field: Field): Option<Choice> {
    if Names(field.key, "message") then
      (match DecodeMessage(c.message, field.value) case None => None case Some(m) => Some(c.(message := m)))
    else if Names(field.key, "finish_reason") then
      (match ReadText(c.finishReason, field.value) case None => None case Some(s) => Some(c.(finishReason := s)))
    else Some(c)
  }

  function DecodeChoice(c: Choice, json: Json): Option<Choice> {
    ReadObject(c, json, ReadChoice)
  }

  /** One field of the response; `errorIsValid` is the check of the ignored `error` field. */
  function ReadResponse(r: Response, field: Field, errorIsValid: Json -> bool): Option<Response> {
    if Names(field.key, "choices") then
      (match ReadSlice(r.choices, field.value, NO_CHOICE, DecodeChoice)
       case None => None
       case Some(choices) => Some(Response(choices)))
    else if Names(field.key, "error") then
      if errorIsValid(field.value) then Some(r) else None
    else Some(r)
  }

  function ReadResponseFields(r: Response, fields: seq<Field>, errorIsValid: Json -> bool): (d: Option<Response>)
    ensures d.Some? && r.choices.len <= |r.choices.slots| ==> d.value.choices.len <= |d.value.choices.slots|
    decreases |fields|
  {
    if fields == [] then Some(r)
    else match ReadResponse(r, fields[0], errorIsValid)
      case None => None
      case Some(next) => ReadResponseFields(next, fields[1..], errorIsValid)
  }

  /** The whole document: null is an empty response. */
  function DecodeResponse(json: Json, errorIsValid: Json -> bool): (d: Option<Response>)
    ensures d.Some? ==> d.value.choices.len <= |d.value.choices.slots|
  {
    match json
    case Null => Some(NO_RESPONSE)
    case Object(fields) => ReadResponseFields(NO_RESPONSE, fields, errorIsValid)
    case _ => None
  }

  // ---------- What the caller gets ----------

  /** A tool call as returned, with its arguments parsed. */
  datatype ReturnedCall = ReturnedCall(id: string, name: string, arguments: Json)

  datatype ReturnedChoice = ReturnedChoice(content: string, toolCalls: seq<ReturnedCall>, finishReason: string)

  datatype ChatResult = Decoded(choice: ReturnedChoice) | NoChoices | BadResponse

  /** Arguments that are no JSON document are returned as the text they are. */
  function ParseOrKeep(arguments: string, parse: string -> Option<Json>): Json {
    match parse(arguments)
    case Some(value) => value
    case None => Text(arguments)
  }

  function ReturnCall(call: ToolCall, parse: string -> Option<Json>): ReturnedCall {
    ReturnedCall(call.id, call.function_.name, ParseOrKeep(call.function_.arguments, parse))
  }

  function ReturnChoice(c: Choice, parse: string -> Option<Json>): ReturnedChoice {
    var calls := Active(c.message.toolCalls);
    ReturnedChoice(
      c.message.content,
      seq(|calls|, j requires 0 <= j < |calls| => ReturnCall(calls[j], parse)),
      c.finishReason)
  }

  function DecodeChat(json: Json, errorIsValid: Json -> bool, parse: string -> Option<Json>): ChatResult {
    var response := DecodeResponse(json, errorIsValid);
    if response.None? then BadResponse
    else if response.value.choices.len == 0 then NoChoices
    else Decoded(ReturnChoice(response.value.choices.slots[0], parse))
  }

  /** `decode_openai_response`, the slot object updated in place by each `choices` field. */
  method DecodeOpenAi(json: Json, errorIsValid: Json -> bool, parse: string -> Option<Json>) returns (r: ChatResult)
    ensures r == DecodeChat(json, errorIsValid, parse)
  {
    if json.Null? { return NoChoices; }
    if !json.Object? { return BadResponse; }
    var choices := new GoSlice<Choice>();
    var next := 0;
    assert json.fields[0..] == json.fields;
    while next < |json.fields|
      invariant 0 <= next <= |json.fields|
      invariant choices.len <= |choices.slots|
      invariant ReadResponseFields(Response(Slice(choices.slots, choices.len)), json.fields[next..], errorIsValid)
             == ReadResponseFields(NO_RESPONSE, json.fields, errorIsValid)
    {
      var field := json.fields[next];
      assert json.fields[next..][1..] == json.fields[next + 1..];
      if Names(field.key, "choices") {
        var ok := choices.Visit(field.value, NO_CHOICE, DecodeChoice);
        if !ok { return BadResponse; }
      } else if Names(field.key, "error") && !errorIsValid(field.value) {
        return BadResponse;
      }
      next := next + 1;
    }
    var active := choices.IntoActive();
    return if active == [] then NoChoices else Decoded(ReturnChoice(active[0], parse));
  }

  // ---------- History, level by level ----------

  /** The values given under a name, in order. */
  ghost function Under(fields: seq<Field>, name: string): seq<Json> {
    if fields == [] then []
    else (if Spells(fields[0].key, name) then [fields[0].value] else []) + Under(fields[1..], name)
  }

  /** The fields of all the objects, in order; null has none. */
  function FieldsOf(values: seq<Json>): seq<Field> {
    if values == [] then []
    else (if values[0].Object? then values[0].fields else []) + FieldsOf(values[1..])
  }

  /** The last string among the values, or `start`. */
  function LastText(values: seq<Json>, start: string): string {
    if values == [] then start
    else LastText(values[1..], if values[0].Text? then values[0].text else start)
  }

  /** The values decoded one after another on top of a slice. */
  function ReplayFrom<T>(slice: Slice<T>, history: seq<Json>, zero: T,
                         element: (T, Json) -> Option<T>): Option<Slice<T>>
    decreases |history|
  {
    if history == [] then Some(slice)
    else match ReadSlice(slice, history[0], zero, element)
      case None => None
      case Some(next) => ReplayFrom(next, history[1..], zero, element)
  }

  lemma {:induction false} ReplayFromConcat<T>(slice: Slice<T>, history: seq<Json>, last: Json, zero: T,
                                               element: (T, Json) -> Option<T>)
    ensures ReplayFrom(slice, history + [last], zero, element) ==
            match ReplayFrom(slice, history, zero, element)
            case None => None
            case Some(mid) => ReadSlice(mid, last, zero, element)
    decreases |history|
  {
    var all := history + [last];
    if history == [] {
      assert all[1..] == [];
      var next := ReadSlice(slice, last, zero, element);
      assert next.Some? ==> ReplayFrom(next.value, all[1..], zero, element) == next;
    } else {
      assert all[1..] == history[1..] + [last];
      var next := ReadSlice(slice, history[0], zero, element);
      if next.Some? { ReplayFromConcat(next.value, history[1..], last, zero, element); }
    }
  }

  lemma {:induction false} ReplayIsReplayFrom<T>(history: seq<Json>, zero: T, element: (T, Json) -> Option<T>)
    ensures Replay(history, zero, element) == ReplayFrom(EmptySlice(), history, zero, element)
    decreases |history|
  {
    if history != [] {
      var before, last := history[..|history| - 1], history[|history| - 1];
      ReplayIsReplayFrom(before, zero, element);
      ReplayFromConcat(EmptySlice(), before, last, zero, element);
      assert before + [last] == history;
    }
  }

  // ---------- Objects are folds over their fields ----------

  lemma {:induction false} FoldedObjects<T>(column: seq<Json>, zero: T, read: (T, Field) -> Option<T>,
                                            element: (T, Json) -> Option<T>)
    requires forall t, j :: element(t, j) == ReadObject(t, j, read)
    requires FoldElements(column, zero, element).Some?
    ensures ReadFields(zero, FieldsOf(column), read) == FoldElements(column, zero, element)
  {
    if column != [] {
      var front, last := column[..|column| - 1], column[|column| - 1];
      FoldedObjects(front, zero, read, element);
      FieldsOfConcat(front, last);
      assert front + [last] == column;
      ReadFieldsConcat(zero, FieldsOf(front), FieldsOf([last]), read);
      var rest := [last][1..];
      assert rest == [] && FieldsOf(rest) == [];
      assert FieldsOf([last]) == (if last.Object? then last.fields else []);
      var mid := FoldElements(front, zero, element).value;
      assert element(mid, last) == ReadObject(mid, last, read);
    }
  }

  lemma {:induction false} FieldsOfConcat(front: seq<Json>, last: Json)
    ensures FieldsOf(front + [last]) == FieldsOf(front) + FieldsOf([last])
  {
    if front == [] {
      assert front + [last] == [last];
    } else {
      assert (front + [last])[0] == front[0] && (front + [last])[1..] == front[1..] + [last];
      FieldsOfConcat(front[1..], last);
      ConcatAssociates(if front[0].Object? then front[0].fields else [], FieldsOf(front[1..]), FieldsOf([last]));
    }
  }

  lemma UnderStep(fields: seq<Field>, name: string)
    requires fields != []
    ensures Under(fields, name) ==
            if Names(fields[0].key, name) then [fields[0].value] + Under(fields[1..], name)
            else Under(fields[1..], name)
    ensures Names(fields[0].key, name) ==>
              ([fields[0].value] + Under(fields[1..], name))[1..] == Under(fields[1..], name)
  {
    NamesIff(fields[0].key, name);
  }

  lemma {:induction false} FunctionFields(f: Function, fields: seq<Field>)
    requires ReadFields(f, fields, ReadFunction).Some?
    ensures ReadFields(f, fields, ReadFunction).value ==
            Function(LastText(Under(fields, "name"), f.name), LastText(Under(fields, "arguments"), f.arguments))
    decreases |fields|
  {
    if fields != [] {
      UnderStep(fields, "name");
      UnderStep(fields, "arguments");
      FunctionFields(ReadFunction(f, fields[0]).value, fields[1..]);
    }
  }

  lemma {:induction false} CallFields(call: ToolCall, fields: seq<Field>)
    requires ReadFields(call, fields, ReadCall).Some?
    ensures var r := ReadFields(call, fields, ReadCall).value;
      && r.id == LastText(Under(fields, "id"), call.id)
      && ReadFields(call.function_, FieldsOf(Under(fields, "function")), ReadFunction) == Some(r.function_)
    decreases |fields|
  {
    if fields != [] {
      var next := ReadCall(call, fields[0]).value;
      UnderStep(fields, "id");
      UnderStep(fields, "function");
      CallFields(next, fields[1..]);
      if Names(fields[0].key, "function") {
        NestedObject(call.function_, fields[0].value, FieldsOf(Under(fields[1..], "function")), ReadFunction);
      }
    }
  }

  /** Decoding an object and then more fields is decoding all the fields. */
  lemma NestedObject<T>(target: T, json: Json, more: seq<Field>, read: (T, Field) -> Option<T>)
    requires ReadObject(target, json, read).Some?
    ensures ReadFields(target, (if json.Object? then json.fields else []) + more, read)
         == ReadFields(ReadObject(target, json, read).value, more, read)
  {
    if json.Object? {
      ReadFieldsConcat(target, json.fields, more, read);
    } else {
      assert [] + more == more;
    }
  }

  lemma {:induction false} MessageFields(m: Message, fields: seq<Field>)
    requires ReadFields(m, fields, ReadMessage).Some?
    ensures var r := ReadFields(m, fields, ReadMessage).value;
      && r.content == LastText(Under(fields, "content"), m.content)
      && ReplayFrom(m.toolCalls, Under(fields, "tool_calls"), NO_CALL, DecodeCall) == Some(r.toolCalls)
    decreases |fields|
  {
    if fields != [] {
      MessageFields(ReadMessage(m, fields[0]).value, fields[1..]);
      UnderStep(fields, "content");
      UnderStep(fields, "tool_calls");
    }
  }

  lemma {:induction false} ChoiceFields(c: Choice, fields: seq<Field>)
    requires ReadFields(c, fields, ReadChoice).Some?
    ensures var r := ReadFields(c, fields, ReadChoice).value;
      && r.finishReason == LastText(Under(fields, "finish_reason"), c.finishReason)
      && ReadFields(c.message, FieldsOf(Under(fields, "message")), ReadMessage) == Some(r.message)
    decreases |fields|
  {
    if fields != [] {
      var next := ReadChoice(c, fields[0]).value;
      UnderStep(fields, "message");
      UnderStep(fields, "finish_reason");
      ChoiceFields(next, fields[1..]);
      if Names(fields[0].key, "message") {
        NestedObject(c.message, fields[0].value, FieldsOf(Under(fields[1..], "message")), ReadMessage);
      }
    }
  }

  lemma {:induction false} ResponseFields(r: Response, fields: seq<Field>, errorIsValid: Json -> bool)
    requires ReadResponseFields(r, fields, errorIsValid).Some?
    ensures ReplayFrom(r.choices, Under(fields, "choices"), NO_CHOICE, DecodeChoice)
         == Some(ReadResponseFields(r, fields, errorIsValid).value.choices)
    decreases |fields|
  {
    if fields != [] {
      ResponseFields(ReadResponse(r, fields[0], errorIsValid).value, fields[1..], errorIsValid);
      UnderStep(fields, "choices");
    }
  }

  // ---------- The whole response ----------

  /** All the fields ever decoded into slot `i` of a slice since its last reset. */
  function SlotFields(history: seq<Json>, i: nat): seq<Field> {
    FieldsOf(Column(SinceReset(history), i))
  }

  ghost function ChoiceHistory(fields: seq<Field>, i: nat): seq<Field> {
    SlotFields(Under(fields, "choices"), i)
  }

  ghost function MessageHistory(fields: seq<Field>, i: nat): seq<Field> {
    FieldsOf(Under(ChoiceHistory(fields, i), "message"))
  }

  ghost function CallHistory(fields: seq<Field>, i: nat, j: nat): seq<Field> {
    SlotFields(Under(MessageHistory(fields, i), "tool_calls"), j)
  }

  ghost function FunctionHistory(fields: seq<Field>, i: nat, j: nat): seq<Field> {
    FieldsOf(Under(CallHistory(fields, i, j), "function"))
  }

  lemma DecodersReadObjects()
    ensures forall t, j :: DecodeChoice(t, j) == ReadObject(t, j, ReadChoice)
    ensures forall t, j :: DecodeCall(t, j) == ReadObject(t, j, ReadCall)
  {
  }

  /** Slot `i` of the choices of a decoded response: the active count is that of the last
      `choices` value, and every text is the last one given for it in the slot's history. */
  lemma ChoiceIsHistory(fields: seq<Field>, errorIsValid: Json -> bool, i: nat)
    requires DecodeResponse(Object(fields), errorIsValid).Some?
    requires i < |DecodeResponse(Object(fields), errorIsValid).value.choices.slots|
    ensures var choices := DecodeResponse(Object(fields), errorIsValid).value.choices;
      var given := Under(fields, "choices");
      var c := choices.slots[i];
      && choices.len == (if given == [] then 0 else ItemCount(given[|given| - 1])) <= |choices.slots|
      && c.finishReason == LastText(Under(ChoiceHistory(fields, i), "finish_reason"), "")
      && c.message.content == LastText(Under(MessageHistory(fields, i), "content"), "")
      && Replay(Under(MessageHistory(fields, i), "tool_calls"), NO_CALL, DecodeCall) == Some(c.message.toolCalls)
  {
    var given := Under(fields, "choices");
    ResponseFields(NO_RESPONSE, fields, errorIsValid);
    ReplayIsReplayFrom(given, NO_CHOICE, DecodeChoice);
    SlotsHoldColumns(given, NO_CHOICE, DecodeChoice);
    DecodersReadObjects();
    FoldedObjects(Column(SinceReset(given), i), NO_CHOICE, ReadChoice, DecodeChoice);
    ChoiceFields(NO_CHOICE, ChoiceHistory(fields, i));
    MessageFields(NO_MESSAGE, MessageHistory(fields, i));
    ReplayIsReplayFrom(Under(MessageHistory(fields, i), "tool_calls"), NO_CALL, DecodeCall);
  }

  /** And slot `j` of its tool calls, through the same two mechanisms one level down. */
  lemma CallIsHistory(fields: seq<Field>, errorIsValid: Json -> bool, i: nat, j: nat)
    requires DecodeResponse(Object(fields), errorIsValid).Some?
    requires i < |DecodeResponse(Object(fields), errorIsValid).value.choices.slots|
    requires j < |DecodeResponse(Object(fields), errorIsValid).value.choices.slots[i].message.toolCalls.slots|
    ensures var calls := DecodeResponse(Object(fields), errorIsValid).value.choices.slots[i].message.toolCalls;
      var given := Under(MessageHistory(fields, i), "tool_calls");
      && calls.len == (if given == [] then 0 else ItemCount(given[|given| - 1])) <= |calls.slots|
      && calls.slots[j] == ToolCall(
           LastText(Under(CallHistory(fields, i, j), "id"), ""),
           Function(LastText(Under(FunctionHistory(fields, i, j), "name"), ""),
                    LastText(Under(FunctionHistory(fields, i, j), "arguments"), "")))
  {
    hide DecodeResponse;
    var given := Under(MessageHistory(fields, i), "tool_calls");
    ChoiceIsHistory(fields, errorIsValid, i);
    SlotsHoldColumns(given, NO_CALL, DecodeCall);
    DecodersReadObjects();
    FoldedObjects(Column(SinceReset(given), j), NO_CALL, ReadCall, DecodeCall);
    CallFields(NO_CALL, CallHistory(fields, i, j));
    FunctionFields(NO_FUNCTION, FunctionHistory(fields, i, j));
  }

  /** What the caller gets of a document, in terms of its fields alone: the texts last given for the
      first choice, and one call for each item of its last tool call list, with the texts last given
      for that position since the list was last emptied. */
  lemma DecodedIsHistory(fields: seq<Field>, errorIsValid: Json -> bool, parse: string -> Option<Json>)
    requires DecodeChat(Object(fields), errorIsValid, parse).Decoded?
    ensures var r := DecodeChat(Object(fields), errorIsValid, parse).choice;
      var given := Under(MessageHistory(fields, 0), "tool_calls");
      && r.content == LastText(Under(MessageHistory(fields, 0), "content"), "")
      && r.finishReason == LastText(Under(ChoiceHistory(fields, 0), "finish_reason"), "")
      && |r.toolCalls| == (if given == [] then 0 else ItemCount(given[|given| - 1]))
      && forall j :: 0 <= j < |r.toolCalls| ==>
           && r.toolCalls[j].id == LastText(Under(CallHistory(fields, 0, j), "id"), "")
           && r.toolCalls[j].name == LastText(Under(FunctionHistory(fields, 0, j), "name"), "")
           && var text := LastText(Under(FunctionHistory(fields, 0, j), "arguments"), "");
              && (parse(text).Some? ==> r.toolCalls[j].arguments == parse(text).value)
              && (parse(text).None? ==> r.toolCalls[j].arguments == Text(text))
  {
    hide DecodeResponse, LastText, CallHistory, FunctionHistory, MessageHistory, ChoiceHistory;
    ChoiceIsHistory(fields, errorIsValid, 0);
    var calls := DecodeResponse(Object(fields), errorIsValid).value.choices.slots[0].message.toolCalls;
    CallCount(fields, errorIsValid, 0);
    forall j | 0 <= j < calls.len
      ensures calls.slots[j] == ToolCall(
        LastText(Under(CallHistory(fields, 0, j), "id"), ""),
        Function(LastText(Under(FunctionHistory(fields, 0, j), "name"), ""),
                 LastText(Under(FunctionHistory(fields, 0, j), "arguments"), "")))
    {
      CallIsHistory(fields, errorIsValid, 0, j);
    }
  }

  lemma CallCount(fields: seq<Field>, errorIsValid: Json -> bool, i: nat)
    requires DecodeResponse(Object(fields), errorIsValid).Some?
    requires i < |DecodeResponse(Object(fields), errorIsValid).value.choices.slots|
    ensures var calls := DecodeResponse(Object(fields), errorIsValid).value.choices.slots[i].message.toolCalls;
      var given := Under(MessageHistory(fields, i), "tool_calls");
      calls.len == (if given == [] then 0 else ItemCount(given[|given| - 1])) <= |calls.slots|
  {
    hide DecodeResponse;
    ChoiceIsHistory(fields, errorIsValid, i);
    SlotsHoldColumns(Under(MessageHistory(fields, i), "tool_calls"), NO_CALL, DecodeCall);
  }

  /** A document is refused for lack of choices exactly if it is null or its last `choices` value
      has no items. */
  lemma NoChoicesIff(json: Json, errorIsValid: Json -> bool, parse: string -> Option<Json>)
    requires !DecodeChat(json, errorIsValid, parse).BadResponse?
    ensures DecodeChat(json, errorIsValid, parse).NoChoices? <==>
      json.Null? || Under(json.fields, "choices") == []
      || ItemCount(Under(json.fields, "choices")[|Under(json.fields, "choices")| - 1]) == 0
  {
    if json.Object? {
      var given := Under(json.fields, "choices");
      ResponseFields(NO_RESPONSE, json.fields, errorIsValid);
      ReplayIsReplayFrom(given, NO_CHOICE, DecodeChoice);
      SlotsHoldColumns(given, NO_CHOICE, DecodeChoice);
    }
  }

  // ---------- Which documents are rejected ----------

  predicate TextOrNull(json: Json) { json.Null? || json.Text? }

  /** Null, or an object of which every field is good. */
  ghost predicate ObjectOf(json: Json, good: Field -> bool) {
    json.Null? || (json.Object? && forall field :: field in json.fields ==> good(field))
  }

  /** Null, or an array of which every item is good. */
  ghost predicate ListOf(json: Json, good: Json -> bool) {
    json.Null? || (json.List? && forall item :: item in json.items ==> good(item))
  }

  ghost predicate GoodFunctionField(field: Field) {
    Spells(field.key, "name") || Spells(field.key, "arguments") ==> TextOrNull(field.value)
  }

  ghost predicate GoodCallField(field: Field) {
    && (Spells(field.key, "id") || Spells(field.key, "type") ==> TextOrNull(field.value))
    && (Spells(field.key, "function") ==> ObjectOf(field.value, GoodFunctionField))
  }

  ghost predicate GoodCall(json: Json) { ObjectOf(json, GoodCallField) }

  ghost predicate GoodMessageField(field: Field) {
    && (Spells(field.key, "content") ==> TextOrNull(field.value))
    && (Spells(field.key, "tool_calls") ==> ListOf(field.value, GoodCall))
  }

  ghost predicate GoodChoiceField(field: Field) {
    && (Spells(field.key, "message") ==> ObjectOf(field.value, GoodMessageField))
    && (Spells(field.key, "finish_reason") ==> TextOrNull(field.value))
  }

  ghost predicate GoodChoice(json: Json) { ObjectOf(json, GoodChoiceField) }

  ghost predicate GoodResponseField(field: Field, errorIsValid: Json -> bool) {
    && (Spells(field.key, "choices") ==> ListOf(field.value, GoodChoice))
    && (Spells(field.key, "error") ==> errorIsValid(field.value))
  }

  /** If each field is judged by its value alone, so is the object. */
  lemma {:induction false} FieldsAccepted<T>(target: T, fields: seq<Field>, read: (T, Field) -> Option<T>,
                                             good: Field -> bool)
    requires forall t, f :: read(t, f).Some? <==> good(f)
    ensures ReadFields(target, fields, read).Some? <==> forall field :: field in fields ==> good(field)
    decreases |fields|
  {
    if fields != [] {
      assert forall field :: field in fields <==> field == fields[0] || field in fields[1..];
      var next := read(target, fields[0]);
      if next.Some? { FieldsAccepted(next.value, fields[1..], read, good); }
    }
  }

  lemma ObjectAccepted<T>(target: T, json: Json, read: (T, Field) -> Option<T>, good: Field -> bool)
    requires forall t, f :: read(t, f).Some? <==> good(f)
    ensures ReadObject(target, json, read).Some? <==> ObjectOf(json, good)
  {
    if json.Object? { FieldsAccepted(target, json.fields, read, good); }
  }

  /** If each element is judged by its value alone, so is the array, whatever the slots hold. */
  lemma SliceAccepted<T>(slice: Slice<T>, json: Json, zero: T, element: (T, Json) -> Option<T>, good: Json -> bool)
    requires forall t, j :: element(t, j).Some? <==> good(j)
    ensures ReadSlice(slice, json, zero, element).Some? <==> ListOf(json, good)
  {
    if json.List? {
      ReadElementsAt(slice.slots, json.items, zero, element);
      forall i | 0 <= i < |json.items|
        ensures element(SlotOr(slice.slots, i, zero), json.items[i]).Some? <==> good(json.items[i])
      {
      }
    }
  }

  lemma FieldNames()
    ensures forall key, name :: Names(key, name) <==> Spells(key, name)
  {
    forall key, name
      ensures Names(key, name) <==> Spells(key, name)
    {
      NamesIff(key, name);
    }
  }

  lemma CallAccepted(call: ToolCall, json: Json)
    ensures DecodeCall(call, json).Some? <==> GoodCall(json)
  {
    FieldNames();
    forall t: ToolCall, f: Field
      ensures ReadCall(t, f).Some? <==> GoodCallField(f)
    {
      ObjectAccepted(t.function_, f.value, ReadFunction, GoodFunctionField);
    }
    ObjectAccepted(call, json, ReadCall, GoodCallField);
  }

  lemma MessageFieldAccepted(m: Message, field: Field)
    ensures ReadMessage(m, field).Some? <==> GoodMessageField(field)
  {
    hide DecodeCall, GoodCall;
    FieldNames();
    forall t: ToolCall, j: Json
      ensures DecodeCall(t, j).Some? <==> GoodCall(j)
    {
      CallAccepted(t, j);
    }
    SliceAccepted(m.toolCalls, field.value, NO_CALL, DecodeCall, GoodCall);
  }

  lemma ChoiceAccepted(choice: Choice, json: Json)
    ensures DecodeChoice(choice, json).Some? <==> GoodChoice(json)
  {
    hide ReadMessage, GoodMessageField;
    FieldNames();
    forall m: Message, f: Field
      ensures ReadMessage(m, f).Some? <==> GoodMessageField(f)
    {
      MessageFieldAccepted(m, f);
    }
    forall t: Choice, f: Field
      ensures ReadChoice(t, f).Some? <==> GoodChoiceField(f)
    {
      ObjectAccepted(t.message, f.value, ReadMessage, GoodMessageField);
    }
    ObjectAccepted(choice, json, ReadChoice, GoodChoiceField);
  }

  lemma ResponseFieldAccepted(r: Response, field: Field, errorIsValid: Json -> bool)
    ensures ReadResponse(r, field, errorIsValid).Some? <==> GoodResponseField(field, errorIsValid)
  {
    hide DecodeChoice, GoodChoice;
    FieldNames();
    forall t: Choice, j: Json
      ensures DecodeChoice(t, j).Some? <==> GoodChoice(j)
    {
      ChoiceAccepted(t, j);
    }
    SliceAccepted(r.choices, field.value, NO_CHOICE, DecodeChoice, GoodChoice);
    assert |"choices"| != |"error"|;
  }

  lemma {:induction false} ResponseAccepted(r: Response, fields: seq<Field>, errorIsValid: Json -> bool)
    ensures ReadResponseFields(r, fields, errorIsValid).Some? <==>
            forall field :: field in fields ==> GoodResponseField(field, errorIsValid)
    decreases |fields|
  {
    hide ReadResponse, GoodResponseField;
    if fields != [] {
      assert forall field :: field in fields <==> field == fields[0] || field in fields[1..];
      ResponseFieldAccepted(r, fields[0], errorIsValid);
      var next := ReadResponse(r, fields[0], errorIsValid);
      if next.Some? { ResponseAccepted(next.value, fields[1..], errorIsValid); }
    }
  }

  /** A document is rejected exactly if it is no object, or some field of it, at any level, has a value
      of the wrong type. Repeated keys and reused slots never make a difference to that. */
  lemma RejectedIff(json: Json, errorIsValid: Json -> bool, parse: string -> Option<Json>)
    ensures DecodeChat(json, errorIsValid, parse).BadResponse? <==>
      !json.Null? && (json.Object? ==> exists field :: field in json.fields && !GoodResponseField(field, errorIsValid))
  {
    if json.Object? { ResponseAccepted(NO_RESPONSE, json.fields, errorIsValid); }
  }
}
