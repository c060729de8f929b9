/** The raw number scan of `chat.rs`, which decides whether every number of a JSON value is finite
    without parsing the value, against the JSON grammar of RFC 8259. */
module NumberScanner {
  import opened Common

  const QUOTE: byte := 34
  const PLUS: byte := 43
  const COMMA: byte := 44
  const MINUS: byte := 45
  const DOT: byte := 46
  const COLON: byte := 58
  const UPPER_E: byte := 69
  const OPEN_BRACKET: byte := 91
  const BACKSLASH: byte := 92
  const CLOSE_BRACKET: byte := 93
  const LOWER_E: byte := 101
  const OPEN_BRACE: byte := 123
  const CLOSE_BRACE: byte := 125

  datatype Verdict = Accepted | InvalidNumber | OutOfRange

  /** What parsing a number text as a 64-bit float yields; the parser itself is not modelled. */
  datatype Parsed = NotANumber | Infinite | Finite

  predicate IsDigit(b: byte) { 48 <= b <= 57 }

  predicate StartsNumber(b: byte) { b == MINUS || IsDigit(b) }

  predicate InNumber(b: byte) {
    IsDigit(b) || b == MINUS || b == DOT || b == LOWER_E || b == UPPER_E || b == PLUS
  }

  // ---------- What the scanner computes ----------

  /** What follows a string whose opening quote was consumed. A backslash hides one byte. */
  function AfterString(s: seq<byte>): (rest: seq<byte>)
    ensures |rest| <= |s|
  {
    if s == [] then []
    else if s[0] == BACKSLASH then (if |s| == 1 then [] else AfterString(s[2..]))
    else if s[0] == QUOTE then s[1..]
    else AfterString(s[1..])
  }

  function NumberLength(s: seq<byte>): (n: nat)
    ensures n <= |s|
  {
    if s == [] || !InNumber(s[0]) then 0 else 1 + NumberLength(s[1..])
  }

  function Judge(number: seq<byte>, classify: seq<byte> -> Parsed): Verdict {
    match classify(number)
    case NotANumber => InvalidNumber
    case Infinite => OutOfRange
    case Finite => Accepted
  }

  function Scan(s: seq<byte>, classify: seq<byte> -> Parsed): Verdict
    decreases |s|
  {
    if s == [] then Accepted
    else if s[0] == QUOTE then Scan(AfterString(s[1..]), classify)
    else if StartsNumber(s[0]) then
      var n := NumberLength(s);
      var verdict := Judge(s[..n], classify);
      if verdict.Accepted? then Scan(s[n..], classify) else verdict
    else Scan(s[1..], classify)
  }

  function From(s: seq<byte>, index: nat): seq<byte> {
    if index < |s| then s[index..] else []
  }

  lemma FromStep(s: seq<byte>, index: nat)
    requires index < |s|
    ensures From(s, index) != [] && From(s, index)[0] == s[index]
    ensures From(s, index)[1..] == From(s, index + 1)
    ensures |From(s, index)| > 1 ==> From(s, index)[2..] == From(s, index + 2)
    ensures |From(s, index)| == 1 ==> From(s, index + 2) == []
  {
  }

  /** The string loop, entered after the opening quote. The index may pass the end by one. */
  method SkipString(raw: seq<byte>, start: nat) returns (index: nat)
    ensures index >= start && From(raw, index) == AfterString(From(raw, start))
  {
    index := start;
    while index < |raw|
      invariant index >= start && AfterString(From(raw, index)) == AfterString(From(raw, start))
      decreases |raw| - index
    {
      FromStep(raw, index);
      if raw[index] == BACKSLASH {
        index := index + 2;
      } else if raw[index] == QUOTE {
        index := index + 1;
        return;
      } else {
        index := index + 1;
      }
    }
  }

  /** The number loop. */
  method SkipNumber(raw: seq<byte>, start: nat) returns (index: nat)
    requires start <= |raw|
    ensures start <= index <= |raw| && index - start == NumberLength(From(raw, start))
  {
    index := start;
    while index < |raw| && InNumber(raw[index])
      invariant start <= index <= |raw|
      invariant index - start + NumberLength(From(raw, index)) == NumberLength(From(raw, start))
    {
      FromStep(raw, index);
      index := index + 1;
    }
  }

  lemma FromNumber(raw: seq<byte>, start: nat, index: nat)
    requires start < |raw| && start <= index <= |raw|
    ensures From(raw, start)[..index - start] == raw[start..index]
    ensures From(raw, start)[index - start..] == From(raw, index)
  {
  }

  method ValidateNumberRanges(raw: seq<byte>, classify: seq<byte> -> Parsed) returns (verdict: Verdict)
    ensures verdict == Scan(raw, classify)
  {
    hide AfterString, NumberLength, From, InNumber;
    var index := 0;
    assert From(raw, 0) == raw by { FromZero(raw); }
    while index < |raw|
      invariant 0 <= index && Scan(From(raw, index), classify) == Scan(raw, classify)
      decreases |raw| - index
    {
      FromStep(raw, index);
      if raw[index] == QUOTE {
        index := SkipString(raw, index + 1);
      } else if StartsNumber(raw[index]) {
        var start := index;
        index := SkipNumber(raw, start);
        NumberNonempty(From(raw, start));
        FromNumber(raw, start, index);
        verdict := Judge(raw[start..index], classify);
        if !verdict.Accepted? { return; }
      } else {
        index := index + 1;
      }
    }
    FromEnd(raw, index);
    return Accepted;
  }

  lemma FromZero(s: seq<byte>)
    ensures From(s, 0) == s
  {
  }

  lemma FromEnd(s: seq<byte>, index: nat)
    requires index >= |s|
    ensures From(s, index) == []
  {
  }

  lemma NumberNonempty(s: seq<byte>)
    requires s != [] && StartsNumber(s[0])
    ensures NumberLength(s) > 0
  {
  }

  // ---------- JSON texts ----------

  datatype Exponent = NoExponent | Exponent(upper: bool, sign: Option<bool>, digits: seq<byte>)

  /** Section 6 of RFC 8259. */
  datatype Number = Number(minus: bool, whole: seq<byte>, fraction: Option<seq<byte>>, exponent: Exponent)

  /** Section 7: an unescaped byte, a two-character escape, or `\u` with four hex digits. */
  datatype StringChar = Plain(b: byte) | Escape(b: byte) | Unicode(a: byte, b: byte, c: byte, d: byte)

  /** A value with the white space of section 2 wherever the grammar allows it. */
  datatype Value =
    | True | False | Nothing
    | Num(number: Number)
    | Str(chars: seq<StringChar>)
    | EmptyArray(space: seq<byte>)
    | Array(items: Items)
    | EmptyObject(space: seq<byte>)
    | Object(members: Members)
  datatype Items =
    | LastItem(before: seq<byte>, value: Value, after: seq<byte>)
    | MoreItems(before: seq<byte>, value: Value, after: seq<byte>, rest: Items)
  datatype Member = Member(before: seq<byte>, key: seq<StringChar>, beforeColon: seq<byte>, afterColon: seq<byte>)
  datatype Members =
    | LastMember(member: Member, value: Value, after: seq<byte>)
    | MoreMembers(member: Member, value: Value, after: seq<byte>, rest: Members)

  ghost predicate IsSpace(s: seq<byte>) { forall i :: 0 <= i < |s| ==> s[i] as char in {' ', '\t', '\n', '\r'} }

  ghost predicate Digits(s: seq<byte>) { s != [] && forall i :: 0 <= i < |s| ==> '0' as int <= s[i] <= '9' as int }

  ghost predicate LegalNumber(n: Number) {
    && Digits(n.whole) && (|n.whole| > 1 ==> n.whole[0] != '0' as int)
    && (n.fraction.Some? ==> Digits(n.fraction.value))
    && (n.exponent.Exponent? ==> Digits(n.exponent.digits))
  }

  ghost predicate IsHex(b: byte) {
    '0' as int <= b <= '9' as int || 'A' as int <= b <= 'F' as int || 'a' as int <= b <= 'f' as int
  }

  ghost predicate LegalChar(c: StringChar) {
    match c
    case Plain(b) => b >= ' ' as int && b != '"' as int && b != '\\' as int
    case Escape(b) => b as char in {'"', '\\', '/', 'b', 'f', 'n', 'r', 't'}
    case Unicode(a, b, c, d) => IsHex(a) && IsHex(b) && IsHex(c) && IsHex(d)
  }

  ghost predicate LegalString(chars: seq<StringChar>) { forall i :: 0 <= i < |chars| ==> LegalChar(chars[i]) }

  ghost predicate LegalMember(m: Member) {
    IsSpace(m.before) && LegalString(m.key) && IsSpace(m.beforeColon) && IsSpace(m.afterColon)
  }

  ghost predicate Legal(v: Value) {
    match v
    case Num(n) => LegalNumber(n)
    case Str(chars) => LegalString(chars)
    case EmptyArray(space) => IsSpace(space)
    case EmptyObject(space) => IsSpace(space)
    case Array(items) => LegalItems(items)
    case Object(members) => LegalMembers(members)
    case _ => true
  }

  ghost predicate LegalItems(items: Items) {
    IsSpace(items.before) && Legal(items.value) && IsSpace(items.after) && (items.MoreItems? ==> LegalItems(items.rest))
  }

  ghost predicate LegalMembers(members: Members) {
    LegalMember(members.member) && Legal(members.value) && IsSpace(members.after)
    && (members.MoreMembers? ==> LegalMembers(members.rest))
  }

  ghost function NumberText(n: Number): seq<byte> {
    (if n.minus then ['-' as int] else []) + n.whole + FractionText(n) + ExponentText(n.exponent)
  }

  ghost function FractionText(n: Number): seq<byte> {
    if n.fraction.Some? then ['.' as int] + n.fraction.value else []
  }

  ghost function ExponentText(e: Exponent): seq<byte> {
    match e
    case NoExponent => []
    case Exponent(upper, sign, digits) => [if upper then 'E' as int else 'e' as int] + SignText(sign) + digits
  }

  ghost function SignText(sign: Option<bool>): seq<byte> {
    match sign
    case None => []
    case Some(plus) => [if plus then '+' as int else '-' as int]
  }

  ghost function CharText(c: StringChar): seq<byte> {
    match c
    case Plain(b) => [b]
    case Escape(b) => ['\\' as int, b]
    case Unicode(a, b, c, d) => ['\\' as int, 'u' as int, a, b, c, d]
  }

  ghost function CharsText(chars: seq<StringChar>): seq<byte> {
    if chars == [] then [] else CharText(chars[0]) + CharsText(chars[1..])
  }

  ghost function StringText(chars: seq<StringChar>): seq<byte> {
    ['"' as int] + CharsText(chars) + ['"' as int]
  }

  ghost function Ascii(text: string): seq<byte>
    requires forall i :: 0 <= i < |text| ==> text[i] < '\U{80}'
  {
    seq(|text|, i requires 0 <= i < |text| => text[i] as int)
  }

  ghost function TextOf(v: Value): seq<byte> {
    match v
    case True => Ascii("true")
    case False => Ascii("false")
    case Nothing => Ascii("null")
    case Num(n) => NumberText(n)
    case Str(chars) => StringText(chars)
    case EmptyArray(space) => ['[' as int] + space + [']' as int]
    case EmptyObject(space) => ['{' as int] + space + ['}' as int]
    case Array(items) => ['[' as int] + ItemsText(items) + [']' as int]
    case Object(members) => ['{' as int] + MembersText(members) + ['}' as int]
  }

  ghost function ItemsText(items: Items): seq<byte> {
    items.before + TextOf(items.value) + items.after
    + (if items.MoreItems? then [',' as int] + ItemsText(items.rest) else [])
  }

  ghost function MemberText(m: Member): seq<byte> {
    m.before + StringText(m.key) + m.beforeColon + [':' as int] + m.afterColon
  }

  ghost function MembersText(members: Members): seq<byte> {
    MemberText(members.member) + TextOf(members.value) + members.after
    + (if members.MoreMembers? then [',' as int] + MembersText(members.rest) else [])
  }

  /** The number literals of a value, in order; text inside strings is no number. */
  ghost function Numbers(v: Value): seq<seq<byte>> {
    match v
    case Num(n) => [NumberText(n)]
    case Array(items) => ItemNumbers(items)
    case Object(members) => MemberNumbers(members)
    case _ => []
  }

  ghost function ItemNumbers(items: Items): seq<seq<byte>> {
    Numbers(items.value) + (if items.MoreItems? then ItemNumbers(items.rest) else [])
  }

  ghost function MemberNumbers(members: Members): seq<seq<byte>> {
    Numbers(members.value) + (if members.MoreMembers? then MemberNumbers(members.rest) else [])
  }

  /** The verdict on the first number that is not finite, or else `after`. */
  ghost function JudgeAll(numbers: seq<seq<byte>>, after: Verdict, classify: seq<byte> -> Parsed): Verdict {
    if numbers == [] then after
    else
      var verdict := Judge(numbers[0], classify);
      if verdict.Accepted? then JudgeAll(numbers[1..], after, classify) else verdict
  }

  // ---------- The scanner follows the grammar ----------

  lemma {:induction false} JudgeConcat(a: seq<seq<byte>>, b: seq<seq<byte>>, after: Verdict,
                                       classify: seq<byte> -> Parsed)
    ensures JudgeAll(a + b, after, classify) == JudgeAll(a, JudgeAll(b, after, classify), classify)
  {
    if a == [] {
      assert a + b == b;
    } else {
      assert (a + b)[1..] == a[1..] + b;
      JudgeConcat(a[1..], b, after, classify);
    }
  }

  predicate Skipped(s: seq<byte>) { forall i :: 0 <= i < |s| ==> s[i] != QUOTE && !StartsNumber(s[i]) }

  lemma {:induction false} ScanSkips(s: seq<byte>, rest: seq<byte>, classify: seq<byte> -> Parsed)
    requires Skipped(s)
    ensures Scan(s + rest, classify) == Scan(rest, classify)
  {
    if s == [] {
      assert s + rest == rest;
    } else {
      assert (s + rest)[0] == s[0] && (s + rest)[1..] == s[1..] + rest;
      ScanSkips(s[1..], rest, classify);
    }
  }

  /** Escapes never let the scan leave the string early or run past its closing quote. */
  lemma {:induction false} StringSkipped(chars: seq<StringChar>, rest: seq<byte>)
    requires LegalString(chars)
    ensures AfterString(CharsText(chars) + [QUOTE] + rest) == rest
  {
    if chars == [] {
      assert CharsText(chars) + [QUOTE] + rest == [QUOTE] + rest;
    } else {
      StringSkipped(chars[1..], rest);
      var tail := CharsText(chars[1..]) + [QUOTE] + rest;
      assert CharsText(chars) + [QUOTE] + rest == CharText(chars[0]) + tail;
      CharSkipped(chars[0], tail);
    }
  }

  lemma CharSkipped(c: StringChar, tail: seq<byte>)
    requires LegalChar(c)
    ensures AfterString(CharText(c) + tail) == AfterString(tail)
  {
    var s := CharText(c) + tail;
    match c {
      case Plain(b) =>
        assert s[1..] == tail;
      case Escape(b) =>
        assert s[2..] == tail;
      case Unicode(a, b, c, d) =>
        assert s[2..] == [a, b, c, d] + tail;
        FourSkipped(a, b, c, d, tail);
    }
  }

  lemma FourSkipped(a: byte, b: byte, c: byte, d: byte, tail: seq<byte>)
    requires IsHex(a) && IsHex(b) && IsHex(c) && IsHex(d)
    ensures AfterString([a, b, c, d] + tail) == AfterString(tail)
  {
    hide AfterString, IsHex;
    HexSkipped(a, [b, c, d] + tail);
    assert [a] + ([b, c, d] + tail) == [a, b, c, d] + tail;
    HexSkipped(b, [c, d] + tail);
    assert [b] + ([c, d] + tail) == [b, c, d] + tail;
    HexSkipped(c, [d] + tail);
    assert [c] + ([d] + tail) == [c, d] + tail;
    HexSkipped(d, tail);
  }

  lemma HexSkipped(b: byte, tail: seq<byte>)
    requires IsHex(b)
    ensures AfterString([b] + tail) == AfterString(tail)
  {
    assert ([b] + tail)[1..] == tail;
  }

  lemma ScanString(chars: seq<StringChar>, rest: seq<byte>, classify: seq<byte> -> Parsed)
    requires LegalString(chars)
    ensures Scan(StringText(chars) + rest, classify) == Scan(rest, classify)
  {
    var s := StringText(chars) + rest;
    StringSkipped(chars, rest);
    assert s[0] == QUOTE && s[1..] == CharsText(chars) + [QUOTE] + rest;
  }

  predicate AllInNumber(s: seq<byte>) { forall i :: 0 <= i < |s| ==> InNumber(s[i]) }

  lemma {:induction false} NumberTaken(s: seq<byte>, rest: seq<byte>)
    requires AllInNumber(s) && (rest != [] ==> !InNumber(rest[0]))
    ensures NumberLength(s + rest) == |s|
  {
    if s == [] {
      assert s + rest == rest;
    } else {
      assert (s + rest)[0] == s[0] && (s + rest)[1..] == s[1..] + rest;
      NumberTaken(s[1..], rest);
    }
  }

  lemma InNumberConcat(a: seq<byte>, b: seq<byte>)
    requires AllInNumber(a) && AllInNumber(b)
    ensures AllInNumber(a + b)
  {
  }

  lemma ExponentShape(n: Number)
    requires LegalNumber(n)
    ensures AllInNumber(ExponentText(n.exponent))
  {
    if n.exponent.Exponent? {
      var e: byte := if n.exponent.upper then UPPER_E else LOWER_E;
      InNumberConcat([e], SignText(n.exponent.sign));
      InNumberConcat([e] + SignText(n.exponent.sign), n.exponent.digits);
    }
  }

  lemma NumberTextShape(n: Number)
    requires LegalNumber(n)
    ensures NumberText(n) != [] && StartsNumber(NumberText(n)[0]) && AllInNumber(NumberText(n))
  {
    hide ExponentText;
    var head := (if n.minus then [MINUS] else []) + n.whole;
    assert head != [] && StartsNumber(head[0]) && AllInNumber(head);
    ExponentShape(n);
    InNumberConcat(head, FractionText(n));
    InNumberConcat(head + FractionText(n), ExponentText(n.exponent));
  }

  /** A number literal is taken whole when no number byte follows it. */
  lemma ScanNumber(n: Number, rest: seq<byte>, classify: seq<byte> -> Parsed)
    requires LegalNumber(n) && (rest != [] ==> !InNumber(rest[0]))
    ensures Scan(NumberText(n) + rest, classify) == JudgeAll([NumberText(n)], Scan(rest, classify), classify)
  {
    var text := NumberText(n);
    var s := text + rest;
    NumberTextShape(n);
    NumberTaken(text, rest);
    assert s[0] == text[0] && s[..|text|] == text && s[|text|..] == rest;
    var others: seq<seq<byte>> := [text][1..];
    assert others == [] && JudgeAll(others, Scan(rest, classify), classify) == Scan(rest, classify);
  }

  predicate EndsValue(rest: seq<byte>) { rest != [] ==> !InNumber(rest[0]) }

  /** Between brackets that the scan skips. */
  lemma ScanBracketed(open: byte, inner: seq<byte>, close: byte, rest: seq<byte>, classify: seq<byte> -> Parsed)
    requires Skipped([open]) && Skipped([close])
    ensures Scan([open] + inner + [close] + rest, classify) == Scan(inner + ([close] + rest), classify)
    ensures Scan([close] + rest, classify) == Scan(rest, classify)
  {
    assert [open] + inner + [close] + rest == [open] + (inner + ([close] + rest));
    ScanSkips([open], inner + ([close] + rest), classify);
    ScanSkips([close], rest, classify);
  }

  lemma {:induction false} ScanValue(v: Value, rest: seq<byte>, classify: seq<byte> -> Parsed)
    requires Legal(v) && EndsValue(rest)
    ensures Scan(TextOf(v) + rest, classify) == JudgeAll(Numbers(v), Scan(rest, classify), classify)
    decreases v, 0
  {
    hide Scan, NumberText, StringText, ItemsText, MembersText;
    match v {
      case Num(n) => ScanNumber(n, rest, classify);
      case Str(chars) => ScanString(chars, rest, classify);
      case Array(items) =>
        ScanBracketed(OPEN_BRACKET, ItemsText(items), CLOSE_BRACKET, rest, classify);
        ScanItems(items, [CLOSE_BRACKET] + rest, classify);
      case Object(members) =>
        ScanBracketed(OPEN_BRACE, MembersText(members), CLOSE_BRACE, rest, classify);
        ScanMembers(members, [CLOSE_BRACE] + rest, classify);
      case _ => ScanSkips(TextOf(v), rest, classify);
    }
  }

  /** A value among white space, then the text that ends it. */
  lemma ScanPadded(before: seq<byte>, v: Value, after: seq<byte>, tail: seq<byte>, classify: seq<byte> -> Parsed)
    requires IsSpace(before) && Legal(v) && IsSpace(after) && EndsValue(tail)
    ensures Scan(before + TextOf(v) + after + tail, classify) == JudgeAll(Numbers(v), Scan(tail, classify), classify)
    decreases v, 1
  {
    hide Scan, TextOf, Numbers, Legal;
    assert before + TextOf(v) + after + tail == before + (TextOf(v) + (after + tail));
    ScanSkips(before, TextOf(v) + (after + tail), classify);
    ScanValue(v, after + tail, classify);
    ScanSkips(after, tail, classify);
  }

  lemma {:induction false} ScanItems(items: Items, rest: seq<byte>, classify: seq<byte> -> Parsed)
    requires LegalItems(items) && rest != [] && EndsValue(rest)
    ensures Scan(ItemsText(items) + rest, classify) == JudgeAll(ItemNumbers(items), Scan(rest, classify), classify)
    decreases items, 0
  {
    hide Scan, TextOf, Numbers, Legal, IsSpace;
    var one := items.before + TextOf(items.value) + items.after;
    if items.MoreItems? {
      var tail := [COMMA] + (ItemsText(items.rest) + rest);
      assert ItemsText(items) + rest == one + tail;
      ScanPadded(items.before, items.value, items.after, tail, classify);
      ScanSkips([COMMA], ItemsText(items.rest) + rest, classify);
      ScanItems(items.rest, rest, classify);
      JudgeConcat(Numbers(items.value), ItemNumbers(items.rest), Scan(rest, classify), classify);
    } else {
      assert ItemsText(items) == one + [] == one;
      ScanPadded(items.before, items.value, items.after, rest, classify);
      assert Numbers(items.value) + [] == Numbers(items.value);
    }
  }

  lemma ScanMember(m: Member, rest: seq<byte>, classify: seq<byte> -> Parsed)
    requires LegalMember(m)
    ensures Scan(MemberText(m) + rest, classify) == Scan(rest, classify)
  {
    hide Scan, StringText;
    var tail := m.beforeColon + [COLON] + m.afterColon;
    assert MemberText(m) + rest == m.before + (StringText(m.key) + (tail + rest));
    ScanSkips(m.before, StringText(m.key) + (tail + rest), classify);
    ScanString(m.key, tail + rest, classify);
    ScanSkips(tail, rest, classify);
  }

  lemma {:induction false} ScanMembers(members: Members, rest: seq<byte>, classify: seq<byte> -> Parsed)
    requires LegalMembers(members) && rest != [] && EndsValue(rest)
    ensures Scan(MembersText(members) + rest, classify) ==
      JudgeAll(MemberNumbers(members), Scan(rest, classify), classify)
    decreases members, 0
  {
    hide Scan, TextOf, Numbers, Legal, IsSpace, MemberText, LegalMember;
    var m, after := MemberText(members.member), members.after;
    var one := [] + TextOf(members.value) + after;
    assert IsSpace([]) by { NoSpace(); }
    if members.MoreMembers? {
      var tail := [COMMA] + (MembersText(members.rest) + rest);
      assert MembersText(members) + rest == m + (one + tail);
      ScanMember(members.member, one + tail, classify);
      ScanPadded([], members.value, after, tail, classify);
      ScanSkips([COMMA], MembersText(members.rest) + rest, classify);
      ScanMembers(members.rest, rest, classify);
      JudgeConcat(Numbers(members.value), MemberNumbers(members.rest), Scan(rest, classify), classify);
    } else {
      assert MembersText(members) + rest == m + (one + rest);
      ScanMember(members.member, one + rest, classify);
      ScanPadded([], members.value, after, rest, classify);
      assert Numbers(members.value) + [] == Numbers(members.value);
    }
  }

  lemma NoSpace()
    ensures IsSpace([])
  {
  }

  predicate AllFinite(numbers: seq<seq<byte>>, classify: seq<byte> -> Parsed) {
    forall i :: 0 <= i < |numbers| ==> classify(numbers[i]).Finite?
  }

  lemma {:induction false} JudgeAllAccepts(numbers: seq<seq<byte>>, classify: seq<byte> -> Parsed)
    ensures JudgeAll(numbers, Accepted, classify).Accepted? <==> AllFinite(numbers, classify)
  {
    if numbers != [] {
      var rest := numbers[1..];
      JudgeAllAccepts(rest, classify);
      assert forall i :: 0 <= i < |rest| ==> rest[i] == numbers[i + 1];
      if AllFinite(rest, classify) && classify(numbers[0]).Finite? {
        forall i | 0 <= i < |numbers| ensures classify(numbers[i]).Finite? {
          if i > 0 { assert numbers[i] == rest[i - 1]; }
        }
      }
    }
  }

  /** The first literal that is not finite is classified as `p`. */
  ghost predicate FirstBad(numbers: seq<seq<byte>>, p: Parsed, classify: seq<byte> -> Parsed) {
    !p.Finite? && exists i :: 0 <= i < |numbers| && classify(numbers[i]) == p && FiniteBefore(numbers, i, classify)
  }

  ghost predicate FiniteBefore(numbers: seq<seq<byte>>, i: nat, classify: seq<byte> -> Parsed)
    requires i <= |numbers|
  {
    forall k :: 0 <= k < i ==> classify(numbers[k]).Finite?
  }

  lemma {:induction false} JudgeAllRejects(numbers: seq<seq<byte>>, classify: seq<byte> -> Parsed)
    ensures JudgeAll(numbers, Accepted, classify).InvalidNumber? <==> FirstBad(numbers, NotANumber, classify)
    ensures JudgeAll(numbers, Accepted, classify).OutOfRange? <==> FirstBad(numbers, Infinite, classify)
  {
    if numbers != [] {
      var rest := numbers[1..];
      JudgeAllRejects(rest, classify);
      FirstBadStep(numbers, NotANumber, classify);
      FirstBadStep(numbers, Infinite, classify);
    }
  }

  lemma FirstBadStep(numbers: seq<seq<byte>>, p: Parsed, classify: seq<byte> -> Parsed)
    requires numbers != [] && !p.Finite?
    ensures FirstBad(numbers, p, classify) <==>
            if classify(numbers[0]).Finite? then FirstBad(numbers[1..], p, classify) else classify(numbers[0]) == p
  {
    var rest := numbers[1..];
    if i :| 0 < i < |numbers| && classify(numbers[i]) == p && FiniteBefore(numbers, i, classify) {
      assert rest[i - 1] == numbers[i];
      forall k | 0 <= k < i - 1 ensures classify(rest[k]).Finite? { assert rest[k] == numbers[k + 1]; }
      assert FiniteBefore(rest, i - 1, classify);
    }
    if classify(numbers[0]).Finite? {
      if i :| 0 <= i < |rest| && classify(rest[i]) == p && FiniteBefore(rest, i, classify) {
        assert rest[i] == numbers[i + 1];
        forall k | 0 <= k < i + 1 ensures classify(numbers[k]).Finite? {
          if k > 0 { assert numbers[k] == rest[k - 1]; }
        }
        assert FiniteBefore(numbers, i + 1, classify);
      }
    } else if classify(numbers[0]) == p {
      assert FiniteBefore(numbers, 0, classify);
    }
  }

  /** For every JSON text in every layout: the scan accepts exactly when every number literal is
      finite, and otherwise reports the first that is not, as invalid or as out of range. */
  lemma ScanAcceptsFinite(v: Value, before: seq<byte>, after: seq<byte>, classify: seq<byte> -> Parsed)
    requires Legal(v) && IsSpace(before) && IsSpace(after)
    ensures var verdict := Scan(before + TextOf(v) + after, classify);
      && verdict == JudgeAll(Numbers(v), Accepted, classify)
      && (verdict.Accepted? <==> AllFinite(Numbers(v), classify))
      && (verdict.InvalidNumber? <==> FirstBad(Numbers(v), NotANumber, classify))
      && (verdict.OutOfRange? <==> FirstBad(Numbers(v), Infinite, classify))
  {
    assert before + TextOf(v) + after == before + TextOf(v) + after + [];
    ScanPadded(before, v, after, [], classify);
    JudgeAllAccepts(Numbers(v), classify);
    JudgeAllRejects(Numbers(v), classify);
  }
}
