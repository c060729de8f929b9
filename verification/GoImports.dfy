/** The import scanner of `port/consumer/verify.py`: one pass over Go source text that should find
    every import path and nothing inside comments or literals. It does for paths in double quotes;
    a path in backquotes makes it take the inside of literals for the outside (`RawPathLosesStep`). */
module GoImports {
  import opened Common

  // ---------- Characters ----------

  /** Python's character tests. */
  datatype CharTests = CharTests(space: char -> bool, alpha: char -> bool, alnum: char -> bool)

  const PUNCTUATION: set<char> := {'/', '*', '"', '\'', '`', '(', ')', '.', ';', '\\', '_'}

  const LETTERS: set<char> := {'i', 'm', 'p', 'o', 'r', 't'}

  /** What the scanner relies on, true of Python's tests on every character. */
  ghost predicate Sane(t: CharTests) {
    && (forall c: char :: t.alpha(c) ==> t.alnum(c))
    && (forall c: char :: t.alnum(c) ==> !t.space(c))
    && (forall c: char :: c in PUNCTUATION ==> !t.alnum(c) && !t.space(c))
    && (forall c: char :: c in LETTERS ==> t.alpha(c))
  }

  function AsciiSpace(c: char): bool { c in " \t\n\r" }

  function AsciiAlpha(c: char): bool { 'a' <= c <= 'z' || 'A' <= c <= 'Z' }

  function AsciiAlnum(c: char): bool { AsciiAlpha(c) || '0' <= c <= '9' }

  type Tests = t: CharTests | Sane(t) ghost witness CharTests(AsciiSpace, AsciiAlpha, AsciiAlnum)

  predicate WordStart(c: char, t: Tests) { t.alpha(c) || c == '_' }

  predicate WordChar(c: char, t: Tests) { t.alnum(c) || c == '_' }

  // ---------- What the scanner computes, on the text that is left ----------

  function Drop(s: string, n: nat): string { if n <= |s| then s[n..] else "" }

  /** The text after the end of a block comment, or nothing. */
  function AfterBlock(s: string): (r: string)
    ensures |r| <= |s|
  {
    if |s| < 2 then "" else if s[0] == '*' && s[1] == '/' then s[2..] else AfterBlock(s[1..])
  }

  /** The text after the first newline, or nothing. */
  function AfterLine(s: string): (r: string)
    ensures |r| <= |s|
  {
    if s == "" then "" else if s[0] == '\n' then s[1..] else AfterLine(s[1..])
  }

  predicate StartsComment(s: string) { "//" <= s || "/*" <= s }

  /** `_skip_go_ignored`. */
  function SkipIgnored(s: string, t: Tests): (r: string)
    ensures |r| <= |s|
    decreases |s|
  {
    if s == "" then ""
    else if t.space(s[0]) then SkipIgnored(s[1..], t)
    else if "//" <= s then SkipIgnored(AfterLine(s[2..]), t)
    else if "/*" <= s then SkipIgnored(AfterBlock(s[2..]), t)
    else s
  }

  /** The text after the literal whose opening quote was consumed. */
  function AfterQuote(quote: char, s: string): (r: string)
    ensures |r| <= |s|
    decreases |s|
  {
    if s == "" then ""
    else if quote != '`' && s[0] == '\\' then AfterQuote(quote, Drop(s, 2))
    else if s[0] == quote then s[1..]
    else AfterQuote(quote, s[1..])
  }

  /** Length of the path up to its closing quote, if no backslash or end of text comes first. */
  function PathLength(s: string): (n: Option<nat>)
    ensures n.Some? ==> n.value < |s| && s[n.value] == '"'
  {
    if s == "" || s[0] == '\\' then None
    else if s[0] == '"' then Some(0)
    else match PathLength(s[1..])
      case None => None
      case Some(n) => Some(n + 1)
  }

  /** `_go_import_string`: the path, if there is a plain one, and the text after the literal. */
  function ImportString(s: string): (r: (Option<string>, string))
    ensures |r.1| <= |s|
    ensures s != "" && s[0] == '"' ==> |r.1| < |s|
  {
    if s == "" || s[0] != '"' then (None, s)
    else match PathLength(s[1..])
      case Some(n) => (Some(s[1..n + 1]), s[n + 2..])
      case None => (None, AfterQuote('"', s[1..]))
  }

  function WordLength(s: string, t: Tests): (n: nat)
    ensures n <= |s|
  {
    if s == "" || !WordChar(s[0], t) then 0 else 1 + WordLength(s[1..], t)
  }

  function AliasLength(s: string, t: Tests): (n: nat)
    ensures n <= |s|
  {
    if s == "" || !(WordChar(s[0], t) || s[0] == '.') then 0 else 1 + AliasLength(s[1..], t)
  }

  /** In a group: an alias, if one is there, and what may be ignored after it. */
  function AfterGroupAlias(s: string, t: Tests): (r: string)
    ensures |r| <= |s|
  {
    if s != "" && (s[0] == '.' || WordStart(s[0], t)) then SkipIgnored(s[1 + WordLength(s[1..], t)..], t) else s
  }

  function AfterSingleAlias(s: string, t: Tests): (r: string)
    ensures |r| <= |s|
  {
    if s != "" && s[0] != '"' then SkipIgnored(s[AliasLength(s, t)..], t) else s
  }

  function ListOf(imported: Option<string>): seq<string> {
    if imported.Some? then [imported.value] else []
  }

  /** Past what was read, or past one character. */
  function Progress(s: string, after: string): (r: string)
    ensures |after| <= |s| ==> |r| <= |s| && (s != "" ==> |r| < |s|)
  {
    if |after| < |s| then after else Drop(s, 1)
  }

  /** One turn of the group loop at something that is not the closing parenthesis. */
  function Spec(s: string, t: Tests): (r: (Option<string>, string))
    ensures |r.1| <= |s| && (s != "" ==> |r.1| < |s|)
  {
    var path := AfterGroupAlias(s, t);
    var (imported, after) := ImportString(path);
    (imported, Progress(path, after))
  }

  /** The imports of a group whose parenthesis was consumed, and the text after it. */
  function Group(s: string, t: Tests): (r: (seq<string>, string))
    ensures |r.1| <= |s|
    decreases |s|
  {
    if s == "" then ([], "")
    else
      var spec := SkipIgnored(s, t);
      if spec == "" || spec[0] == ')' then ([], Drop(spec, 1))
      else
        var (imported, next) := Spec(spec, t);
        var (others, rest) := Group(next, t);
        (ListOf(imported) + others, rest)
  }

  /** One import after the keyword. */
  function Single(s: string, t: Tests): (r: (seq<string>, string))
    ensures |r.1| <= |s|
  {
    var path := AfterSingleAlias(s, t);
    var (imported, after) := ImportString(path);
    (ListOf(imported), Progress(path, after))
  }

  predicate IsQuote(c: char) { c in "\"'`" }

  /** `go_imports`. */
  function Scan(s: string, t: Tests): seq<string>
    decreases |s|
  {
    if s == "" then []
    else if StartsComment(s) then
      SkipsComment(s, t);
      Scan(SkipIgnored(s, t), t)
    else if IsQuote(s[0]) then Scan(AfterQuote(s[0], s[1..]), t)
    else if WordStart(s[0], t) then
      var n := 1 + WordLength(s[1..], t);
      if s[..n] != "import" then Scan(s[n..], t)
      else
        var after := SkipIgnored(s[n..], t);
        var (imports, rest) := if after != "" && after[0] == '(' then Group(after[1..], t) else Single(after, t);
        imports + Scan(rest, t)
    else Scan(s[1..], t)
  }

  lemma SkipsComment(s: string, t: Tests)
    requires StartsComment(s)
    ensures |SkipIgnored(s, t)| < |s|
  {
    assert s[0] == '/';
    assert '/' in PUNCTUATION;
    assert !t.space(s[0]);
  }

  // ---------- The scanner as written, on an index ----------

  function From(text: string, index: nat): string { Drop(text, index) }

  lemma FromStep(text: string, index: nat)
    requires index < |text|
    ensures From(text, index) != "" && From(text, index)[0] == text[index]
    ensures From(text, index)[1..] == From(text, index + 1)
    ensures forall n: nat :: Drop(From(text, index), n) == From(text, index + n)
  {
  }

  /** `text.startswith(two, index)` for a text of two characters. */
  predicate StartsWith(text: string, two: string, index: nat)
    requires |two| == 2
  {
    index + 1 < |text| && text[index] == two[0] && text[index + 1] == two[1]
  }

  lemma StartsWithFrom(text: string, two: string, index: nat)
    requires |two| == 2 && index <= |text|
    ensures StartsWith(text, two, index) <==> two <= From(text, index)
  {
    if two <= From(text, index) {
      assert From(text, index)[..2] == two;
      assert From(text, index)[0] == two[0] && From(text, index)[1] == two[1];
    }
  }

  method FindLineEnd(text: string, start: nat) returns (index: nat)
    requires start <= |text|
    ensures start <= index <= |text| && From(text, index) == AfterLine(From(text, start))
  {
    index := start;
    while index < |text|
      invariant start <= index <= |text| && AfterLine(From(text, index)) == AfterLine(From(text, start))
    {
      FromStep(text, index);
      index := index + 1;
      if text[index - 1] == '\n' { return; }
    }
  }

  method FindBlockEnd(text: string, start: nat) returns (index: nat)
    requires start <= |text|
    ensures start <= index <= |text| && From(text, index) == AfterBlock(From(text, start))
  {
    index := start;
    while index < |text|
      invariant start <= index <= |text| && AfterBlock(From(text, index)) == AfterBlock(From(text, start))
    {
      FromStep(text, index);
      if StartsWith(text, "*/", index) {
        assert From(text, index)[1] == '/' && From(text, index)[2..] == From(text, index + 2);
        return index + 2;
      }
      index := index + 1;
    }
  }

  lemma FromTwo(text: string, index: nat)
    requires index < |text|
    ensures |From(text, index)| == |text| - index
    ensures |From(text, index)| >= 2 ==> From(text, index)[2..] == From(text, index + 2)
  {
  }

  lemma FromEnds(text: string, index: nat)
    ensures index >= |text| ==> From(text, index) == ""
  {
  }

  method SkipGoIgnored(text: string, start: nat, t: Tests) returns (index: nat)
    requires start <= |text|
    ensures start <= index <= |text| && From(text, index) == SkipIgnored(From(text, start), t)
  {
    hide AfterLine, AfterBlock, From, Drop, StartsWith;
    index := start;
    while index < |text|
      invariant start <= index <= |text| && SkipIgnored(From(text, index), t) == SkipIgnored(From(text, start), t)
      decreases |text| - index
    {
      FromStep(text, index);
      FromTwo(text, index);
      StartsWithFrom(text, "//", index);
      StartsWithFrom(text, "/*", index);
      if t.space(text[index]) {
        index := index + 1;
      } else if StartsWith(text, "//", index) {
        index := FindLineEnd(text, index + 2);
      } else if StartsWith(text, "/*", index) {
        index := FindBlockEnd(text, index + 2);
      } else {
        break;
      }
    }
    FromEnds(text, index);
  }

  method SkipGoString(text: string, start: nat) returns (index: nat)
    requires start < |text|
    ensures start < index <= |text| && From(text, index) == AfterQuote(text[start], From(text, start + 1))
  {
    var quote := text[start];
    var at := start + 1;
    while at < |text|
      invariant start < at && AfterQuote(quote, From(text, at)) == AfterQuote(quote, From(text, start + 1))
      decreases |text| - at
    {
      FromStep(text, at);
      if quote != '`' && text[at] == '\\' {
        at := at + 2;
      } else if text[at] == quote {
        return at + 1;
      } else {
        at := at + 1;
      }
    }
    return |text|;
  }

  method GoImportString(text: string, start: nat) returns (imported: Option<string>, index: nat)
    requires start <= |text|
    ensures start <= index <= |text| && (imported, From(text, index)) == ImportString(From(text, start))
  {
    hide AfterQuote, From, Drop, ImportString;
    FromAt(text, start);
    ImportAt(text, start);
    if start >= |text| || text[start] != '"' { return None, start; }
    FromAt(text, start + 1);
    var end := start + 1;
    while end < |text|
      invariant start < end <= |text| && '\\' !in text[start + 1..end]
      invariant PathLength(From(text, start + 1)) ==
        match PathLength(From(text, end)) case None => None case Some(n) => Some(end - (start + 1) + n)
    {
      FromAt(text, end);
      if text[end] == '\\' {
        index := SkipGoString(text, start);
        return None, index;
      }
      if text[end] == '"' {
        QuoteFound(text, start, end);
        return Some(text[start + 1..end]), end + 1;
      }
      end := end + 1;
    }
    FromToEnd(text, start + 1);
    NoQuoteToEnd(From(text, start + 1));
    return None, |text|;
  }

  lemma ImportAt(text: string, start: nat)
    requires start <= |text|
    ensures start == |text| || text[start] != '"' ==> ImportString(From(text, start)) == (None, From(text, start))
    ensures start < |text| && text[start] == '"' && PathLength(From(text, start + 1)).None? ==>
              ImportString(From(text, start)) == (None, AfterQuote('"', From(text, start + 1)))
  {
  }

  lemma QuoteFound(text: string, start: nat, end: nat)
    requires start < end < |text| && text[start] == '"' && PathLength(From(text, start + 1)) == Some(end - (start + 1))
    ensures ImportString(From(text, start)) == (Some(text[start + 1..end]), From(text, end + 1))
  {
    hide From, PathLength;
    FromAt(text, start);
    FromSlice(text, start, end + 1);
    FromInner(text, start, end);
  }

  lemma FromInner(text: string, start: nat, end: nat)
    requires start < end <= |text|
    ensures |From(text, start)| >= end - start && From(text, start)[1..end - start] == text[start + 1..end]
  {
  }

  lemma FromToEnd(text: string, start: nat)
    requires start <= |text|
    ensures From(text, start) == text[start..|text|] && From(text, |text|) == ""
  {
  }

  /** A text without a closing quote: the literal runs to the end, unless a backslash comes first,
      which the loop has excluded. */
  lemma NoQuoteToEnd(s: string)
    requires PathLength(s).None? && '\\' !in s
    ensures AfterQuote('"', s) == ""
  {
  }

  method SkipWord(text: string, start: nat, t: Tests) returns (index: nat)
    requires start <= |text|
    ensures start <= index <= |text| && index - start == WordLength(From(text, start), t)
  {
    index := start;
    while index < |text| && WordChar(text[index], t)
      invariant start <= index <= |text|
      invariant index - start + WordLength(From(text, index), t) == WordLength(From(text, start), t)
    {
      FromStep(text, index);
      index := index + 1;
    }
  }

  method SkipAlias(text: string, start: nat, t: Tests) returns (index: nat)
    requires start <= |text|
    ensures start <= index <= |text| && index - start == AliasLength(From(text, start), t)
  {
    index := start;
    while index < |text| && (WordChar(text[index], t) || text[index] == '.')
      invariant start <= index <= |text|
      invariant index - start + AliasLength(From(text, index), t) == AliasLength(From(text, start), t)
    {
      FromStep(text, index);
      index := index + 1;
    }
  }

  /** `index_after if index_after > index else index + 1`; the index may pass the end by one. */
  lemma ProgressIndex(text: string, index: nat, after: nat)
    requires index <= after <= |text|
    ensures From(text, if after > index then after else index + 1) == Progress(From(text, index), From(text, after))
  {
  }

  lemma FromAt(text: string, index: nat)
    requires index <= |text|
    ensures From(text, index) == "" <==> index == |text|
    ensures index < |text| ==> From(text, index)[0] == text[index]
    ensures forall n: nat :: n <= |From(text, index)| ==> From(text, index)[n..] == From(text, index + n)
    ensures Drop(From(text, index), 1) == From(text, index + 1)
  {
  }

  lemma FromBeyond(text: string, index: nat)
    requires index >= |text|
    ensures From(text, index) == ""
  {
  }

  method ReadSpec(text: string, start: nat, t: Tests) returns (imported: Option<string>, index: nat)
    requires start < |text|
    ensures start < index && (imported, From(text, index)) == Spec(From(text, start), t)
  {
    hide SkipIgnored, WordLength, ImportString, Progress, From, Drop;
    FromAt(text, start);
    var path := start;
    if text[start] == '.' || WordStart(text[start], t) {
      FromAt(text, start + 1);
      path := SkipWord(text, start + 1, t);
      path := SkipGoIgnored(text, path, t);
    }
    assert From(text, path) == AfterGroupAlias(From(text, start), t);
    var after;
    imported, after := GoImportString(text, path);
    ProgressIndex(text, path, after);
    index := if after > path then after else path + 1;
  }

  /** The loop over a group, its parenthesis consumed. */
  method ReadGroup(text: string, start: nat, t: Tests) returns (imports: seq<string>, index: nat)
    ensures start <= index && (imports, From(text, index)) == Group(From(text, start), t)
  {
    hide SkipIgnored, Spec, From, Drop;
    imports, index := [], start;
    ghost var all := Group(From(text, start), t);
    assert [] + all.0 == all.0;
    while index < |text|
      invariant start <= index
      invariant all == (imports + Group(From(text, index), t).0, Group(From(text, index), t).1)
      decreases |text| - index
    {
      ghost var s := From(text, index);
      FromAt(text, index);
      var spec := SkipGoIgnored(text, index, t);
      FromAt(text, spec);
      if spec >= |text| || text[spec] == ')' {
        assert imports + [] == imports;
        return imports, spec + 1;
      }
      var imported;
      imported, index := ReadSpec(text, spec, t);
      AppendFound(imports, imported, Group(From(text, index), t).0);
      if imported.Some? { imports := imports + [imported.value]; }
    }
    FromBeyond(text, index);
    assert imports + [] == imports;
  }

  lemma AppendFound(imports: seq<string>, imported: Option<string>, others: seq<string>)
    ensures imports + (ListOf(imported) + others) ==
            (if imported.Some? then imports + [imported.value] else imports) + others
  {
    assert imports + (ListOf(imported) + others) == (imports + ListOf(imported)) + others;
    assert imports + [] == imports;
  }

  method ReadSingle(text: string, start: nat, t: Tests) returns (imports: seq<string>, index: nat)
    requires start <= |text|
    ensures start < index && (imports, From(text, index)) == Single(From(text, start), t)
  {
    hide SkipIgnored, AliasLength, ImportString, Progress, From, Drop;
    FromAt(text, start);
    var path := start;
    if start < |text| && text[start] != '"' {
      path := SkipAlias(text, start, t);
      path := SkipGoIgnored(text, path, t);
    }
    assert From(text, path) == AfterSingleAlias(From(text, start), t);
    var imported, after := GoImportString(text, path);
    ProgressIndex(text, path, after);
    imports := if imported.Some? then [imported.value] else [];
    index := if after > path then after else path + 1;
  }

  lemma CommentAt(text: string, index: nat)
    requires index < |text|
    ensures StartsWith(text, "//", index) || StartsWith(text, "/*", index) <==> StartsComment(From(text, index))
  {
    hide StartsWith, From;
    StartsWithFrom(text, "//", index);
    StartsWithFrom(text, "/*", index);
  }

  /** One turn of the main loop. */
  lemma ScanStep(s: string, t: Tests)
    requires s != ""
    ensures StartsComment(s) ==> |SkipIgnored(s, t)| < |s| && Scan(s, t) == Scan(SkipIgnored(s, t), t)
    ensures !StartsComment(s) && IsQuote(s[0]) ==> Scan(s, t) == Scan(AfterQuote(s[0], s[1..]), t)
    ensures !StartsComment(s) && !IsQuote(s[0]) && !WordStart(s[0], t) ==> Scan(s, t) == Scan(s[1..], t)
  {
    hide SkipIgnored, WordLength, AfterQuote, Group, Single, StartsComment, IsQuote, WordStart;
    if StartsComment(s) { SkipsComment(s, t); }
  }

  lemma ScanWordStep(s: string, t: Tests)
    requires s != "" && !StartsComment(s) && !IsQuote(s[0]) && WordStart(s[0], t)
    ensures var n := 1 + WordLength(s[1..], t);
      var after := SkipIgnored(s[n..], t);
      var found := if after != "" && after[0] == '(' then Group(after[1..], t) else Single(after, t);
      Scan(s, t) == if s[..n] != "import" then Scan(s[n..], t) else found.0 + Scan(found.1, t)
  {
    hide SkipIgnored, WordLength, AfterQuote, Group, Single, StartsComment, IsQuote, WordStart;
  }

  method ReadImports(text: string, t: Tests) returns (imports: seq<string>)
    ensures imports == Scan(text, t)
  {
    hide Scan, SkipIgnored, WordLength, AfterQuote, Group, Single;
    hide From, Drop, StartsWith, StartsComment, IsQuote, WordStart;
    imports := [];
    var index := 0;
    FromZero(text);
    ScanNothing(t);
    assert imports + Scan(text, t) == Scan(text, t);
    while index < |text|
      invariant imports + Scan(From(text, index), t) == Scan(text, t)
      decreases |text| - index
    {
      ghost var s := From(text, index);
      FromAt(text, index);
      CommentAt(text, index);
      ScanStep(s, t);
      if StartsWith(text, "//", index) || StartsWith(text, "/*", index) {
        ghost var before := index;
        index := SkipGoIgnored(text, index, t);
        FromLonger(text, index, before);
        continue;
      }
      if IsQuote(text[index]) {
        index := SkipGoString(text, index);
        continue;
      }
      if !WordStart(text[index], t) {
        index := index + 1;
        continue;
      }
      ScanWordStep(s, t);
      var start := index;
      FromAt(text, index + 1);
      index := SkipWord(text, index + 1, t);
      FromSlice(text, start, index);
      if text[start..index] != "import" { continue; }
      index := SkipGoIgnored(text, index, t);
      FromAt(text, index);
      var found;
      if index < |text| && text[index] == '(' {
        found, index := ReadGroup(text, index + 1, t);
      } else {
        found, index := ReadSingle(text, index, t);
      }
      ConcatAssociates(imports, found, Scan(From(text, index), t));
      imports := imports + found;
    }
    FromBeyond(text, index);
    assert imports + [] == imports;
  }

  lemma FromZero(text: string)
    ensures From(text, 0) == text
  {
  }

  lemma FromSlice(text: string, start: nat, index: nat)
    requires start <= index <= |text|
    ensures From(text, start)[..index - start] == text[start..index]
    ensures From(text, start)[index - start..] == From(text, index)
  {
  }

  /** A shorter rest is a greater index. */
  lemma FromLonger(text: string, index: nat, before: nat)
    requires index <= |text| && before <= |text| && |From(text, index)| < |From(text, before)|
    ensures index > before
  {
  }

  // ---------- Go source text ----------

  /** White space and comments (Go specification, "Comments"). */
  datatype Ignored = Space(c: char) | LineComment(text: string) | BlockComment(text: string)

  datatype LiteralChar = Plain(c: char) | Escape(c: char)

  /** A path is a string literal: in double quotes without or with escapes, or in backquotes. */
  datatype Path = Quoted(text: string) | Escaped(chars: seq<LiteralChar>) | Raw(text: string)

  /** One import specification (Go specification, "Import declarations"); `between` separates an
      alias from its path. */
  datatype Import = Import(before: seq<Ignored>, alias: Option<string>, between: seq<Ignored>, path: Path)

  datatype Item = Imports(imp: Import) | Semicolon(before: seq<Ignored>)

  /** A source file as the pieces the scanner has to tell apart. */
  datatype Element =
    | Skipped(ignored: Ignored)
    | Literal(quote: char, body: seq<LiteralChar>)
    | Word(text: string)
    | Symbol(c: char)
    | ImportOne(one: Import)
    | ImportGroup(beforeOpen: seq<Ignored>, items: seq<Item>, beforeClose: seq<Ignored>)
    | LastLine(comment: string)   // a line comment that the file ends with

  function IgnoredText(i: Ignored): string {
    match i
    case Space(c) => [c]
    case LineComment(text) => "//" + text + "\n"
    case BlockComment(text) => "/*" + text + "*/"
  }

  function GapText(gap: seq<Ignored>): string {
    if gap == [] then "" else IgnoredText(gap[0]) + GapText(gap[1..])
  }

  function BodyText(body: seq<LiteralChar>): string {
    if body == [] then ""
    else (match body[0] case Plain(c) => [c] case Escape(c) => ['\\', c]) + BodyText(body[1..])
  }

  function PathText(path: Path): string {
    match path
    case Quoted(text) => "\"" + text + "\""
    case Escaped(chars) => "\"" + BodyText(chars) + "\""
    case Raw(text) => "`" + text + "`"
  }

  function NamedPath(i: Import): string {
    (if i.alias.Some? then i.alias.value + GapText(i.between) else "") + PathText(i.path)
  }

  function ImportText(i: Import): string { GapText(i.before) + NamedPath(i) }

  function ItemText(i: Item): string {
    match i
    case Imports(imp) => ImportText(imp)
    case Semicolon(before) => GapText(before) + ";"
  }

  function ItemsText(items: seq<Item>): string {
    if items == [] then "" else ItemText(items[0]) + ItemsText(items[1..])
  }

  function GroupText(items: seq<Item>, beforeClose: seq<Ignored>): string {
    ItemsText(items) + GapText(beforeClose) + ")"
  }

  function ElementText(e: Element): string {
    match e
    case Skipped(i) => IgnoredText(i)
    case Literal(quote, body) => [quote] + BodyText(body) + [quote]
    case Word(text) => text
    case Symbol(c) => [c]
    case ImportOne(one) => "import" + ImportText(one)
    case ImportGroup(beforeOpen, items, beforeClose) =>
      "import" + GapText(beforeOpen) + "(" + GroupText(items, beforeClose)
    case LastLine(comment) => "//" + comment
  }

  function SourceText(elements: seq<Element>): string {
    if elements == [] then "" else ElementText(elements[0]) + SourceText(elements[1..])
  }

  predicate HasBlockEnd(s: string) { exists i :: 0 <= i < |s| - 1 && s[i] == '*' && s[i + 1] == '/' }

  predicate LegalIgnored(i: Ignored, t: Tests) {
    match i
    case Space(c) => t.space(c)
    case LineComment(text) => '\n' !in text
    case BlockComment(text) => !HasBlockEnd(text)
  }

  predicate LegalGap(gap: seq<Ignored>, t: Tests) {
    gap == [] || (LegalIgnored(gap[0], t) && LegalGap(gap[1..], t))
  }

  /** In a raw literal a backslash is an ordinary character. */
  predicate LegalBody(body: seq<LiteralChar>, quote: char) {
    body == [] ||
    (&& (match body[0]
         case Plain(c) => c != quote && (quote != '`' ==> c != '\\')
         case Escape(c) => quote != '`')
     && LegalBody(body[1..], quote))
  }

  predicate IsIdentifier(s: string, t: Tests) {
    s != "" && (t.alpha(s[0]) || s[0] == '_') && forall i :: 0 <= i < |s| ==> t.alnum(s[i]) || s[i] == '_'
  }

  /** The characters that the Go specification lets a compiler exclude from import paths; a space
      of any kind is another. */
  predicate PathChar(c: char, t: Tests) { !t.space(c) && c !in "!\"#$%&'()*,:;<=>?[\\]^`{|}" }

  /** A path between backquotes, with no two slashes in a row. */
  predicate RawPath(s: string, t: Tests) {
    s == "" || (PathChar(s[0], t) && !("//" <= s) && RawPath(s[1..], t))
  }

  predicate HasEscape(chars: seq<LiteralChar>) {
    chars != [] && (chars[0].Escape? || HasEscape(chars[1..]))
  }

  predicate LegalPath(path: Path, t: Tests) {
    match path
    case Quoted(text) => '"' !in text && '\\' !in text
    case Escaped(chars) => LegalBody(chars, '"') && HasEscape(chars)
    case Raw(text) => RawPath(text, t)
  }

  /** An alias is a dot or an identifier. */
  predicate LegalImport(i: Import, t: Tests) {
    && LegalGap(i.before, t) && LegalGap(i.between, t)
    && (i.alias.Some? ==> i.alias.value == "." || IsIdentifier(i.alias.value, t))
    && LegalPath(i.path, t)
  }

  predicate LegalItems(items: seq<Item>, t: Tests) {
    items == [] ||
    (&& (match items[0] case Imports(imp) => LegalImport(imp, t) case Semicolon(before) => LegalGap(before, t))
     && LegalItems(items[1..], t))
  }

  predicate EndsWord(rest: string, t: Tests) { rest == "" || (!t.alnum(rest[0]) && rest[0] != '_') }

  /** An element in front of `rest`: words are taken whole, and a slash does not open a comment. */
  predicate LegalElement(e: Element, rest: string, t: Tests) {
    match e
    case Skipped(i) => LegalIgnored(i, t)
    case Literal(quote, body) => quote in {'"', '\'', '`'} && LegalBody(body, quote)
    case Word(text) => IsIdentifier(text, t) && text != "import" && EndsWord(rest, t)
    case Symbol(c) =>
      c !in {'"', '\'', '`', '_'} && !t.alpha(c) && !(c == '/' && rest != "" && rest[0] in {'/', '*'})
    case ImportOne(one) => LegalImport(one, t) && EndsWord(ImportText(one), t)
    case ImportGroup(beforeOpen, items, beforeClose) =>
      LegalGap(beforeOpen, t) && LegalItems(items, t) && LegalGap(beforeClose, t)
    case LastLine(comment) => '\n' !in comment && rest == ""
  }

  predicate LegalSource(elements: seq<Element>, t: Tests) {
    elements == [] || (LegalElement(elements[0], SourceText(elements[1..]), t) && LegalSource(elements[1..], t))
  }

  function ItemPaths(items: seq<Item>): seq<Path> {
    if items == [] then []
    else (if items[0].Imports? then [items[0].imp.path] else []) + ItemPaths(items[1..])
  }

  function ElementPaths(e: Element): seq<Path> {
    match e
    case ImportOne(one) => [one.path]
    case ImportGroup(_, items, _) => ItemPaths(items)
    case _ => []
  }

  /** The paths a source text imports. */
  function Declared(elements: seq<Element>): seq<Path> {
    if elements == [] then [] else ElementPaths(elements[0]) + Declared(elements[1..])
  }

  function FoundOne(path: Path): Option<string> {
    if path.Quoted? then Some(path.text) else None
  }

  /** The ones in double quotes without escapes. */
  function Found(paths: seq<Path>): seq<string> {
    if paths == [] then [] else (if paths[0].Quoted? then [paths[0].text] else []) + Found(paths[1..])
  }

  // ---------- Gaps, literals and words ----------

  lemma Punctuation(t: Tests)
    ensures forall c: char :: c in PUNCTUATION ==> !t.alnum(c) && !t.alpha(c) && !t.space(c)
    ensures forall c: char :: WordStart(c, t) ==> WordChar(c, t) && !t.space(c) && c !in PUNCTUATION - {'_'}
  {
  }

  lemma {:induction false} AfterLineIs(text: string, rest: string)
    requires '\n' !in text
    ensures AfterLine(text + "\n" + rest) == rest
  {
    var s := text + "\n" + rest;
    if text != "" {
      assert s[1..] == text[1..] + "\n" + rest;
      AfterLineIs(text[1..], rest);
    }
  }

  lemma {:induction false} AfterBlockIs(text: string, rest: string)
    requires !HasBlockEnd(text)
    ensures AfterBlock(text + "*/" + rest) == rest
  {
    var s := text + "*/" + rest;
    if text == "" {
      assert s[2..] == rest;
    } else {
      assert s[1..] == text[1..] + "*/" + rest;
      forall i | 0 <= i < |text[1..]| - 1 ensures !(text[1..][i] == '*' && text[1..][i + 1] == '/') {
        assert !(text[i + 1] == '*' && text[i + 1 + 1] == '/');
      }
      assert !(s[0] == '*' && s[1] == '/') by {
        if |text| > 1 { assert !(text[0] == '*' && text[0 + 1] == '/'); }
      }
      AfterBlockIs(text[1..], rest);
    }
  }

  lemma SkipSpace(c: char, rest: string, t: Tests)
    requires t.space(c)
    ensures SkipIgnored([c] + rest, t) == SkipIgnored(rest, t)
  {
    assert ([c] + rest)[1..] == rest;
  }

  lemma SkipLine(rest: string, t: Tests)
    ensures SkipIgnored("//" + rest, t) == SkipIgnored(AfterLine(rest), t)
  {
    hide AfterLine;
    Punctuation(t);
    var s := "//" + rest;
    assert s[0] == '/' && s[2..] == rest && "//" <= s;
  }

  lemma SkipBlock(rest: string, t: Tests)
    ensures SkipIgnored("/*" + rest, t) == SkipIgnored(AfterBlock(rest), t)
  {
    hide AfterBlock;
    Punctuation(t);
    var s := "/*" + rest;
    assert s[0] == '/' && s[1] == '*' && s[2..] == rest && "/*" <= s && !("//" <= s);
  }

  lemma SkipOne(i: Ignored, rest: string, t: Tests)
    requires LegalIgnored(i, t)
    ensures SkipIgnored(IgnoredText(i) + rest, t) == SkipIgnored(rest, t)
  {
    hide SkipIgnored, AfterLine, AfterBlock, HasBlockEnd;
    match i {
      case Space(c) => SkipSpace(c, rest, t);
      case LineComment(text) =>
        assert IgnoredText(i) + rest == "//" + (text + "\n" + rest);
        SkipLine(text + "\n" + rest, t);
        AfterLineIs(text, rest);
      case BlockComment(text) =>
        assert IgnoredText(i) + rest == "/*" + (text + "*/" + rest);
        SkipBlock(text + "*/" + rest, t);
        AfterBlockIs(text, rest);
    }
  }

  lemma {:induction false} SkipGap(gap: seq<Ignored>, rest: string, t: Tests)
    requires LegalGap(gap, t)
    ensures SkipIgnored(GapText(gap) + rest, t) == SkipIgnored(rest, t)
  {
    hide SkipIgnored, IgnoredText;
    if gap == [] {
      assert GapText(gap) + rest == rest;
    } else {
      var tail := GapText(gap[1..]) + rest;
      assert GapText(gap) + rest == IgnoredText(gap[0]) + tail;
      SkipOne(gap[0], tail, t);
      SkipGap(gap[1..], rest, t);
    }
  }

  predicate Solid(s: string, t: Tests) { s != "" && !t.space(s[0]) && s[0] != '/' }

  /** A gap in front of something solid is skipped, and no more. */
  lemma SkipToSolid(gap: seq<Ignored>, rest: string, t: Tests)
    requires LegalGap(gap, t) && Solid(rest, t)
    ensures SkipIgnored(GapText(gap) + rest, t) == rest
  {
    SkipGap(gap, rest, t);
    assert !("//" <= rest) && !("/*" <= rest);
  }

  lemma {:induction false} ScanIgnores(s: string, t: Tests)
    ensures Scan(s, t) == Scan(SkipIgnored(s, t), t)
    decreases |s|
  {
    if s != "" && t.space(s[0]) {
      Punctuation(t);
      ScanIgnores(s[1..], t);
    }
  }

  lemma {:induction false} LiteralSkipped(quote: char, body: seq<LiteralChar>, rest: string)
    requires IsQuote(quote) && LegalBody(body, quote)
    ensures AfterQuote(quote, BodyText(body) + [quote] + rest) == rest
  {
    var s := BodyText(body) + [quote] + rest;
    if body != [] {
      var tail := BodyText(body[1..]) + [quote] + rest;
      LiteralSkipped(quote, body[1..], rest);
      match body[0] {
        case Plain(c) => assert s == [c] + tail && s[1..] == tail;
        case Escape(c) => assert s == ['\\', c] + tail && s[2..] == tail;
      }
    }
  }

  lemma {:induction false} WordTaken(word: string, rest: string, t: Tests)
    requires (forall i :: 0 <= i < |word| ==> WordChar(word[i], t)) && EndsWord(rest, t)
    ensures WordLength(word + rest, t) == |word|
  {
    if word == "" {
      assert word + rest == rest;
    } else {
      assert (word + rest)[0] == word[0] && (word + rest)[1..] == word[1..] + rest;
      WordTaken(word[1..], rest, t);
    }
  }

  lemma {:induction false} AliasTaken(alias: string, rest: string, t: Tests)
    requires forall i :: 0 <= i < |alias| ==> WordChar(alias[i], t) || alias[i] == '.'
    requires rest != "" && !WordChar(rest[0], t) && rest[0] != '.'
    ensures AliasLength(alias + rest, t) == |alias|
  {
    if alias == "" {
      assert alias + rest == rest;
    } else {
      assert (alias + rest)[0] == alias[0] && (alias + rest)[1..] == alias[1..] + rest;
      AliasTaken(alias[1..], rest, t);
    }
  }

  // ---------- One path ----------

  lemma {:induction false} PathTaken(path: string, rest: string)
    requires '"' !in path && '\\' !in path
    ensures PathLength(path + "\"" + rest) == Some(|path|)
  {
    var s := path + "\"" + rest;
    if path != "" {
      assert s[1..] == path[1..] + "\"" + rest;
      PathTaken(path[1..], rest);
    }
  }

  lemma {:induction false} EscapeStopsPath(chars: seq<LiteralChar>, rest: string)
    requires LegalBody(chars, '"') && HasEscape(chars)
    ensures PathLength(BodyText(chars) + rest).None?
  {
    var s, tail := BodyText(chars) + rest, BodyText(chars[1..]) + rest;
    match chars[0] {
      case Escape(c) =>
        assert s == ['\\', c] + tail;
      case Plain(c) =>
        assert s == [c] + tail && s[1..] == tail;
        EscapeStopsPath(chars[1..], rest);
    }
  }

  /** The text at which scanning goes on after a path: past its literal, or, for a path in
      backquotes, past the first of them. */
  function AfterPath(path: Path, rest: string): string {
    if path.Raw? then path.text + "`" + rest else rest
  }

  lemma QuotedRead(text: string, rest: string)
    requires '"' !in text && '\\' !in text
    ensures ImportString("\"" + text + "\"" + rest) == (Some(text), rest)
  {
    var s := "\"" + text + "\"" + rest;
    assert s[1..] == text + "\"" + rest;
    PathTaken(text, rest);
    assert s[1..|text| + 1] == text && s[|text| + 2..] == rest;
  }

  lemma EscapedRead(chars: seq<LiteralChar>, rest: string)
    requires LegalBody(chars, '"') && HasEscape(chars)
    ensures ImportString("\"" + BodyText(chars) + "\"" + rest) == (None, rest)
  {
    hide BodyText, LegalBody, HasEscape, AfterQuote, PathLength;
    var s, tail := "\"" + BodyText(chars) + "\"" + rest, "\"" + rest;
    assert s[0] == '"' && s[1..] == BodyText(chars) + tail;
    EscapeStopsPath(chars, tail);
    assert BodyText(chars) + tail == BodyText(chars) + ['"'] + rest;
    LiteralSkipped('"', chars, rest);
  }

  lemma PathRead(path: Path, rest: string, t: Tests)
    requires LegalPath(path, t)
    ensures var s := PathText(path) + rest;
      var (imported, after) := ImportString(s);
      imported == FoundOne(path) && Progress(s, after) == AfterPath(path, rest)
  {
    hide BodyText, LegalBody, HasEscape, AfterQuote, PathLength, RawPath;
    match path {
      case Quoted(text) => QuotedRead(text, rest);
      case Escaped(chars) => EscapedRead(chars, rest);
      case Raw(text) =>
        var s := PathText(path) + rest;
        assert s[0] == '`' && s[1..] == text + "`" + rest;
    }
  }

  /** What follows an alias: a gap, or the quote at once. */
  lemma GapEndsWord(gap: seq<Ignored>, rest: string, t: Tests)
    requires LegalGap(gap, t) && rest != "" && (rest[0] == '"' || rest[0] == '`')
    ensures var s := GapText(gap) + rest; s != "" && !WordChar(s[0], t) && s[0] != '.'
  {
    Punctuation(t);
    var s := GapText(gap) + rest;
    if gap == [] {
      assert s == rest;
    } else {
      IgnoredStart(gap[0], t);
      assert s[0] == IgnoredText(gap[0])[0];
    }
  }

  lemma IgnoredStart(i: Ignored, t: Tests)
    requires LegalIgnored(i, t)
    ensures IgnoredText(i) != "" && !WordChar(IgnoredText(i)[0], t) && IgnoredText(i)[0] != '.'
  {
    Punctuation(t);
  }

  lemma PathStart(path: Path, rest: string)
    ensures var s := PathText(path) + rest; s != "" && (s[0] == '"' || s[0] == '`')
    ensures (PathText(path) + rest)[0] == '`' <==> path.Raw?
  {
  }

  lemma NamedPathSolid(i: Import, rest: string, t: Tests)
    requires LegalImport(i, t)
    ensures var s := NamedPath(i) + rest; Solid(s, t) && s[0] != '(' && s[0] != ')' && s[0] != ';'
  {
    hide GapText, PathText, LegalGap, LegalPath;
    Punctuation(t);
    var s := NamedPath(i) + rest;
    if i.alias.Some? {
      assert s == i.alias.value + (GapText(i.between) + PathText(i.path) + rest);
      assert s[0] == i.alias.value[0];
    } else {
      PathStart(i.path, rest);
      assert s == PathText(i.path) + rest;
    }
  }

  lemma PathNotSkipped(path: Path, rest: string, t: Tests)
    ensures var s := PathText(path) + rest; Solid(s, t) && SkipIgnored(s, t) == s
    ensures var s := PathText(path) + rest; AfterSingleAlias(s, t) == s == AfterGroupAlias(s, t)
  {
    Punctuation(t);
    PathStart(path, rest);
    var s := PathText(path) + rest;
    assert !("//" <= s) && !("/*" <= s);
    assert AliasLength(s, t) == 0 && s[0..] == s;
  }

  /** A name and then something that cannot continue it: both ways of skipping stop there. */
  lemma NameSkipped(name: string, tail: string, t: Tests)
    requires name == "." || IsIdentifier(name, t)
    requires tail != "" && !WordChar(tail[0], t) && tail[0] != '.'
    ensures AfterSingleAlias(name + tail, t) == SkipIgnored(tail, t) == AfterGroupAlias(name + tail, t)
  {
    hide SkipIgnored;
    Punctuation(t);
    var s := name + tail;
    AliasTaken(name, tail, t);
    assert s[0] == name[0] && s[|name|..] == tail;
    assert s[1..] == name[1..] + tail;
    WordTaken(name[1..], tail, t);
  }

  /** Both ways of skipping an alias arrive at the path. */
  lemma AliasSkipped(i: Import, rest: string, t: Tests)
    requires LegalImport(i, t)
    ensures var s := NamedPath(i) + rest;
      AfterSingleAlias(s, t) == PathText(i.path) + rest == AfterGroupAlias(s, t)
  {
    hide SkipIgnored, GapText, PathText, LegalPath, IsIdentifier, AfterSingleAlias, AfterGroupAlias;
    var s, path := NamedPath(i) + rest, PathText(i.path) + rest;
    PathNotSkipped(i.path, rest, t);
    if i.alias.Some? {
      var tail := GapText(i.between) + path;
      assert s == i.alias.value + tail;
      PathStart(i.path, rest);
      GapEndsWord(i.between, path, t);
      SkipToSolid(i.between, path, t);
      NameSkipped(i.alias.value, tail, t);
    } else {
      assert s == path;
    }
  }

  lemma SingleRead(i: Import, rest: string, t: Tests)
    requires LegalImport(i, t)
    ensures Single(NamedPath(i) + rest, t) == (ListOf(FoundOne(i.path)), AfterPath(i.path, rest))
  {
    hide AfterSingleAlias, ImportString, NamedPath, Progress, PathText, AfterPath, FoundOne;
    AliasSkipped(i, rest, t);
    PathRead(i.path, rest, t);
  }

  lemma SpecRead(i: Import, rest: string, t: Tests)
    requires LegalImport(i, t)
    ensures Spec(NamedPath(i) + rest, t) == (FoundOne(i.path), AfterPath(i.path, rest))
  {
    hide AfterGroupAlias, AfterSingleAlias, ImportString, NamedPath, Progress, PathText, AfterPath, FoundOne;
    AliasSkipped(i, rest, t);
    PathRead(i.path, rest, t);
  }

  // ---------- The inside of a path in backquotes ----------

  lemma {:induction false} RawSuffix(text: string, n: nat, t: Tests)
    requires RawPath(text, t) && n <= |text|
    ensures RawPath(text[n..], t)
  {
    if n > 0 { RawSuffix(text[1..], n - 1, t); }
  }

  lemma PathCharIs(c: char, t: Tests)
    requires PathChar(c, t)
    ensures !t.space(c) && c != '(' && c != ')' && c != '*' && !IsQuote(c)
  {
    assert '"' in "!\"#$%&'()*,:;<=>?[\\]^`{|}";
  }

  lemma RawStart(text: string, rest: string, t: Tests)
    requires RawPath(text, t)
    ensures var s := text + "`" + rest;
      && s != "" && s[0] == (if text == "" then '`' else text[0])
      && s[0] != '"' && s[0] != '(' && s[0] != ')' && s[0] != '\'' && (text != "" ==> !IsQuote(text[0]))
      && !t.space(s[0]) && s[1..] == (if text == "" then rest else text[1..] + "`" + rest)
  {
    hide PathChar;
    Punctuation(t);
    if text != "" { PathCharIs(text[0], t); }
  }

  lemma RawNoComment(text: string, rest: string, t: Tests)
    requires RawPath(text, t)
    ensures !StartsComment(text + "`" + rest)
  {
    hide PathChar;
    var s := text + "`" + rest;
    if |text| > 1 {
      PathCharIs(text[1..][0], t);
      assert s[0] == text[0] && s[1] == text[1] && s[..2] == text[..2];
    } else if |text| == 1 {
      assert s[1] == '`';
    } else {
      assert s[0] == '`';
    }
  }

  /** Nothing in it is skipped as white space or comment. */
  lemma RawNotSkipped(text: string, rest: string, t: Tests)
    requires RawPath(text, t)
    ensures SkipIgnored(text + "`" + rest, t) == text + "`" + rest
  {
    hide RawPath;
    RawStart(text, rest, t);
    RawNoComment(text, rest, t);
  }

  lemma {:induction false} RawWord(text: string, rest: string, t: Tests)
    ensures WordLength(text + "`" + rest, t) == WordLength(text, t)
    ensures AliasLength(text + "`" + rest, t) == AliasLength(text, t)
  {
    Punctuation(t);
    var s := text + "`" + rest;
    if text != "" {
      assert s[1..] == text[1..] + "`" + rest;
      RawWord(text[1..], rest, t);
    }
  }

  lemma RawCut(text: string, rest: string, n: nat)
    requires n <= |text|
    ensures (text + "`" + rest)[n..] == text[n..] + "`" + rest && (text + "`" + rest)[..n] == text[..n]
  {
  }

  /** Read as a path, the text left in a raw path yields nothing and loses one character. */
  lemma RawNoPath(text: string, rest: string, t: Tests)
    requires RawPath(text, t)
    ensures var s := text + "`" + rest;
      ImportString(s) == (None, s) && Progress(s, s) == if text == "" then rest else text[1..] + "`" + rest
  {
    RawStart(text, rest, t);
  }

  /** Length of the word that the group loop skips as an alias. */
  function FalseAlias(text: string, t: Tests): (n: nat)
    ensures n <= |text|
  {
    if text != "" && (text[0] == '.' || WordStart(text[0], t)) then 1 + WordLength(text[1..], t) else 0
  }

  lemma RawGroupAlias(text: string, rest: string, t: Tests)
    requires RawPath(text, t)
    ensures AfterGroupAlias(text + "`" + rest, t) == text[FalseAlias(text, t)..] + "`" + rest
  {
    hide SkipIgnored, RawPath;
    Punctuation(t);
    RawStart(text, rest, t);
    var n := FalseAlias(text, t);
    RawSuffix(text, n, t);
    RawCut(text, rest, n);
    RawNotSkipped(text[n..], rest, t);
    if n > 0 {
      RawWord(text[1..], rest, t);
    } else {
      assert text[0..] == text;
    }
  }

  /** In a group: such a word, if one begins here, and the character after it. */
  lemma RawSpec(text: string, rest: string, t: Tests)
    requires RawPath(text, t)
    ensures var n := FalseAlias(text, t);
      Spec(text + "`" + rest, t) == (None, if n == |text| then rest else text[n + 1..] + "`" + rest)
  {
    hide AfterGroupAlias, ImportString, Progress, FalseAlias, RawPath;
    var n := FalseAlias(text, t);
    RawGroupAlias(text, rest, t);
    RawSuffix(text, n, t);
    RawNoPath(text[n..], rest, t);
    assert n < |text| ==> text[n..][1..] == text[n + 1..];
  }

  /** In a group the rest of a raw path is read as specifications without a path, up to its closing
      backquote. */
  lemma {:induction false} GroupPassesRaw(text: string, rest: string, t: Tests)
    requires RawPath(text, t)
    ensures Group(text + "`" + rest, t) == Group(rest, t)
    decreases |text|
  {
    hide Group, Spec, SkipIgnored, RawPath, FalseAlias;
    var n := FalseAlias(text, t);
    var s := text + "`" + rest;
    RawStart(text, rest, t);
    RawNotSkipped(text, rest, t);
    RawSpec(text, rest, t);
    if n == |text| {
      GroupStep(s, s, None, rest, t);
      NothingFound(Group(rest, t));
    } else {
      var next := text[n + 1..] + "`" + rest;
      GroupStep(s, s, None, next, t);
      NothingFound(Group(next, t));
      RawSuffix(text, n + 1, t);
      GroupPassesRaw(text[n + 1..], rest, t);
    }
  }

  lemma NothingFound(r: (seq<string>, string))
    ensures (ListOf(None) + r.0, r.1) == r
  {
    assert [] + r.0 == r.0;
  }

  /** Whether the word `import` inside a raw path is taken for the keyword in such a way that the
      closing backquote goes with it: directly, or after an alias. */
  predicate TakesClosing(text: string, t: Tests)
    decreases |text|
  {
    if text == "" then false
    else if WordStart(text[0], t) then
      var n := 1 + WordLength(text[1..], t);
      if text[..n] != "import" then TakesClosing(text[n..], t)
      else
        var m := n + AliasLength(text[n..], t);
        m == |text| || TakesClosing(text[m + 1..], t)
    else TakesClosing(text[1..], t)
  }

  predicate NoKeyword(text: string) {
    !("import" <= text) && (text == "" || NoKeyword(text[1..]))
  }

  lemma {:induction false} NoKeywordSuffix(text: string, n: nat)
    requires NoKeyword(text) && n <= |text|
    ensures NoKeyword(text[n..])
  {
    if n > 0 { NoKeywordSuffix(text[1..], n - 1); }
  }

  /** It cannot be if those letters do not occur in the path. */
  lemma {:induction false} NotTaken(text: string, t: Tests)
    requires NoKeyword(text)
    ensures !TakesClosing(text, t)
    decreases |text|
  {
    hide NoKeyword, WordLength;
    if text != "" {
      var n := if WordStart(text[0], t) then 1 + WordLength(text[1..], t) else 1;
      assert text[..n] != "import" by { KeywordIsPrefix(text, n); }
      NoKeywordSuffix(text, n);
      NotTaken(text[n..], t);
    }
  }

  lemma KeywordIsPrefix(text: string, n: nat)
    requires NoKeyword(text) && n <= |text|
    ensures text[..n] != "import"
  {
  }

  lemma ScanQuote(rest: string, t: Tests)
    ensures Scan("`" + rest, t) == Scan(AfterQuote('`', rest), t)
  {
    hide SkipIgnored, Group, Single;
    var s := "`" + rest;
    assert s[0] == '`' && s[1..] == rest && !StartsComment(s);
  }

  /** Out of a group the rest of a raw path is scanned as source text, and its closing backquote
      opens a literal. */
  lemma {:induction false} RawScanned(text: string, rest: string, t: Tests)
    requires RawPath(text, t)
    ensures Scan(text + "`" + rest, t) == Scan(if TakesClosing(text, t) then rest else AfterQuote('`', rest), t)
    decreases |text|
  {
    hide Scan, SkipIgnored, Group, Single, RawPath, AfterQuote, IsIdentifier, WordStart, EndsWord;
    RawStart(text, rest, t);
    if text == "" {
      assert text + "`" + rest == "`" + rest;
      ScanQuote(rest, t);
    } else if WordStart(text[0], t) {
      var n := 1 + WordLength(text[1..], t);
      RawSuffix(text, n, t);
      RawWordEnds(text, rest, n, t);
      RawSplit(text, rest, n);
      if text[..n] != "import" {
        WordScanned(text[..n], text[n..] + "`" + rest, t);
        RawScanned(text[n..], rest, t);
      } else {
        RawKeyword(text[n..], rest, t);
        var m := n + AliasLength(text[n..], t);
        if m < |text| {
          assert text[n..][m - n + 1..] == text[m + 1..];
          RawSuffix(text, m + 1, t);
          RawScanned(text[m + 1..], rest, t);
        }
      }
    } else {
      RawSplit(text, rest, 1);
      RawNoComment(text, rest, t);
      SymbolScanned(text[0], text[1..] + "`" + rest, t);
      RawSuffix(text, 1, t);
      RawScanned(text[1..], rest, t);
    }
  }

  lemma RawSplit(text: string, rest: string, n: nat)
    requires n <= |text|
    ensures text + "`" + rest == text[..n] + (text[n..] + "`" + rest) && (text != "" ==> text[..1] == [text[0]])
  {
  }

  lemma {:induction false} WordLengthIs(s: string, t: Tests)
    ensures forall i :: 0 <= i < WordLength(s, t) ==> WordChar(s[i], t)
    ensures WordLength(s, t) < |s| ==> !WordChar(s[WordLength(s, t)], t)
  {
    if s != "" && WordChar(s[0], t) {
      WordLengthIs(s[1..], t);
      assert forall i :: 0 < i < WordLength(s, t) ==> s[i] == s[1..][i - 1];
    }
  }

  lemma RawWordEnds(text: string, rest: string, n: nat, t: Tests)
    requires text != "" && WordStart(text[0], t) && n == 1 + WordLength(text[1..], t)
    ensures IsIdentifier(text[..n], t) && EndsWord(text[n..] + "`" + rest, t)
  {
    Punctuation(t);
    WordLengthIs(text[1..], t);
    assert forall i :: 0 < i < n ==> text[i] == text[1..][i - 1];
  }

  /** After the word `import` in a raw path: an alias, if one is there, and one more character. */
  lemma RawKeyword(text: string, rest: string, t: Tests)
    requires RawPath(text, t) && EndsWord(text + "`" + rest, t)
    ensures var m := AliasLength(text, t);
      Scan("import" + (text + "`" + rest), t) == Scan(if m == |text| then rest else text[m + 1..] + "`" + rest, t)
  {
    hide Scan, SkipIgnored, ImportString, Progress, Group, RawPath;
    var s := text + "`" + rest;
    var m := AliasLength(text, t);
    KeywordScanned(s, t);
    RawNotSkipped(text, rest, t);
    RawWord(text, rest, t);
    RawCut(text, rest, m);
    RawSuffix(text, m, t);
    RawNotSkipped(text[m..], rest, t);
    RawStart(text, rest, t);
    RawNoPath(text[m..], rest, t);
    assert m < |text| ==> text[m..][1..] == text[m + 1..];
    var next := if m == |text| then rest else text[m + 1..] + "`" + rest;
    assert Single(s, t) == ([], next);
    assert [] + Scan(next, t) == Scan(next, t);
  }

  // ---------- Groups ----------

  lemma SemicolonRead(rest: string, t: Tests)
    ensures Spec(";" + rest, t) == (None, rest)
  {
    Punctuation(t);
    var s := ";" + rest;
    assert s[0] == ';' && s[1..] == rest;
  }

  lemma GroupStep(s: string, spec: string, imported: Option<string>, next: string, t: Tests)
    requires SkipIgnored(s, t) == spec && spec != "" && spec[0] != ')' && Spec(spec, t) == (imported, next)
    ensures Group(s, t) == (ListOf(imported) + Group(next, t).0, Group(next, t).1)
  {
    hide SkipIgnored, Spec;
    assert s != "" by { SkipsNothing(t); }
  }

  lemma GroupClose(s: string, rest: string, t: Tests)
    requires SkipIgnored(s, t) == ")" + rest
    ensures Group(s, t) == ([], rest)
  {
    hide SkipIgnored, Spec;
    assert s != "" by { SkipsNothing(t); }
    assert (")" + rest)[1..] == rest;
  }

  lemma SkipsNothing(t: Tests)
    ensures SkipIgnored("", t) == ""
  {
  }

  lemma FoundConcat(a: seq<Path>, b: seq<Path>)
    ensures Found(a + b) == Found(a) + Found(b)
  {
    if a == [] {
      assert a + b == b;
    } else {
      assert (a + b)[0] == a[0] && (a + b)[1..] == a[1..] + b;
      FoundConcat(a[1..], b);
      ConcatAssociates(ListOf(FoundOne(a[0])), Found(a[1..]), Found(b));
    }
  }

  lemma FoundSingle(path: Path)
    ensures Found([path]) == ListOf(FoundOne(path))
  {
    var none: seq<Path> := [path][1..];
    assert none == [] && ListOf(FoundOne(path)) + Found(none) == ListOf(FoundOne(path));
  }

  /** A specification with its path, whichever way that is written; only a plain one is found. */
  lemma ItemRead(item: Item, tail: string, t: Tests)
    requires LegalItems([item], t)
    ensures Group(ItemText(item) + tail, t) ==
            ((if item.Imports? then ListOf(FoundOne(item.imp.path)) else []) + Group(tail, t).0, Group(tail, t).1)
  {
    hide SkipIgnored, Spec, GapText, NamedPath, LegalImport, LegalGap, Group;
    match item {
      case Imports(imp) => ImportRead(imp, tail, t);
      case Semicolon(before) =>
        Punctuation(t);
        assert GapText(before) + ";" + tail == GapText(before) + (";" + tail);
        SkipToSolid(before, ";" + tail, t);
        SemicolonRead(tail, t);
        GroupStep(GapText(before) + ";" + tail, ";" + tail, None, tail, t);
    }
  }

  lemma ImportRead(imp: Import, tail: string, t: Tests)
    requires LegalImport(imp, t)
    ensures Group(ImportText(imp) + tail, t) == (ListOf(FoundOne(imp.path)) + Group(tail, t).0, Group(tail, t).1)
  {
    hide SkipIgnored, Spec, GapText, NamedPath, LegalGap, Group, ListOf, FoundOne, LegalPath;
    var spec, next := NamedPath(imp) + tail, AfterPath(imp.path, tail);
    assert ImportText(imp) + tail == GapText(imp.before) + spec;
    NamedPathSolid(imp, tail, t);
    SkipToSolid(imp.before, spec, t);
    SpecRead(imp, tail, t);
    GroupStep(ImportText(imp) + tail, spec, FoundOne(imp.path), next, t);
    if imp.path.Raw? {
      RawIsLegal(imp.path, t);
      GroupPassesRaw(imp.path.text, tail, t);
    }
  }

  lemma RawIsLegal(path: Path, t: Tests)
    requires LegalPath(path, t) && path.Raw?
    ensures RawPath(path.text, t)
  {
  }

  lemma {:induction false} GroupRead(items: seq<Item>, beforeClose: seq<Ignored>, rest: string, t: Tests)
    requires LegalItems(items, t) && LegalGap(beforeClose, t)
    ensures Group(GroupText(items, beforeClose) + rest, t) == (Found(ItemPaths(items)), rest)
  {
    hide SkipIgnored, Group, GapText, ItemText, LegalImport, LegalGap;
    if items == [] {
      Punctuation(t);
      assert GroupText(items, beforeClose) + rest == GapText(beforeClose) + (")" + rest);
      SkipToSolid(beforeClose, ")" + rest, t);
      GroupClose(GapText(beforeClose) + (")" + rest), rest, t);
    } else {
      var tail := GroupText(items[1..], beforeClose) + rest;
      assert GroupText(items, beforeClose) + rest == ItemText(items[0]) + tail;
      assert [items[0]][1..] == [] && LegalItems([items[0]], t);
      ItemRead(items[0], tail, t);
      GroupRead(items[1..], beforeClose, rest, t);
      if items[0].Imports? {
        FoundSingle(items[0].imp.path);
        FoundConcat([items[0].imp.path], ItemPaths(items[1..]));
      } else {
        assert [] + ItemPaths(items[1..]) == ItemPaths(items[1..]);
        assert [] + Found(ItemPaths(items[1..])) == Found(ItemPaths(items[1..]));
      }
    }
  }

  // ---------- One element ----------

  /** The keyword is recognised when nothing that continues a word follows it. */
  lemma KeywordScanned(s: string, t: Tests)
    requires EndsWord(s, t)
    ensures var after := SkipIgnored(s, t);
      var found := if after != "" && after[0] == '(' then Group(after[1..], t) else Single(after, t);
      Scan("import" + s, t) == found.0 + Scan(found.1, t)
  {
    hide SkipIgnored, Group, Single;
    Punctuation(t);
    var text := "import" + s;
    assert forall c: char :: c in LETTERS ==> WordChar(c, t) && t.alpha(c);
    var tail := "mport";
    assert forall i :: 0 <= i < |tail| ==> tail[i] in LETTERS;
    WordTaken(tail, s, t);
    assert text[0] == 'i' && 'i' in LETTERS && text[1..] == tail + s;
    assert text[..6] == "import" && text[6..] == s;
    assert !StartsComment(text) && !IsQuote(text[0]);
  }

  lemma WordScanned(text: string, rest: string, t: Tests)
    requires IsIdentifier(text, t) && text != "import" && EndsWord(rest, t)
    ensures Scan(text + rest, t) == Scan(rest, t)
  {
    hide SkipIgnored, Group, Single;
    Punctuation(t);
    var s := text + rest;
    assert s[0] == text[0] && s[1..] == text[1..] + rest;
    WordTaken(text[1..], rest, t);
    assert s[..|text|] == text && s[|text|..] == rest;
    assert !StartsComment(s) && !IsQuote(s[0]);
  }

  /** The text at which scanning goes on after an element: what follows it, unless it was a lone
      import whose path is in backquotes. */
  function AfterElement(e: Element, rest: string, t: Tests): string {
    if InStep(e, t) then rest else AfterQuote('`', rest)
  }

  predicate InStep(e: Element, t: Tests) {
    e.ImportOne? && e.one.path.Raw? ==> TakesClosing(e.one.path.text, t)
  }

  lemma ImportOneScanned(one: Import, rest: string, t: Tests)
    requires LegalImport(one, t) && EndsWord(ImportText(one), t)
    ensures Scan("import" + ImportText(one) + rest, t) ==
            ListOf(FoundOne(one.path)) + Scan(AfterElement(ImportOne(one), rest, t), t)
  {
    hide Scan, SkipIgnored, Group, Single, GapText, NamedPath;
    hide LegalPath, LegalGap, ListOf, FoundOne, AfterQuote, TakesClosing;
    var named := NamedPath(one) + rest;
    NamedPathSolid(one, rest, t);
    ImportTextNonempty(one);
    assert "import" + ImportText(one) + rest == "import" + (ImportText(one) + rest);
    assert ImportText(one) + rest == GapText(one.before) + named;
    SkipToSolid(one.before, named, t);
    KeywordScanned(ImportText(one) + rest, t);
    SingleRead(one, rest, t);
    if one.path.Raw? {
      RawIsLegal(one.path, t);
      RawScanned(one.path.text, rest, t);
    }
  }

  lemma ImportTextNonempty(one: Import)
    ensures ImportText(one) != ""
  {
  }

  lemma ImportGroupScanned(beforeOpen: seq<Ignored>, items: seq<Item>, beforeClose: seq<Ignored>, rest: string,
                           t: Tests)
    requires LegalGap(beforeOpen, t) && LegalItems(items, t) && LegalGap(beforeClose, t)
    ensures Scan("import" + GapText(beforeOpen) + "(" + GroupText(items, beforeClose) + rest, t) ==
      Found(ItemPaths(items)) + Scan(rest, t)
  {
    hide Scan, SkipIgnored, Group, Single, GapText, GroupText, LegalGap, LegalItems;
    var group := GroupText(items, beforeClose) + rest;
    var after := GapText(beforeOpen) + ("(" + group);
    assert "import" + GapText(beforeOpen) + "(" + GroupText(items, beforeClose) + rest == "import" + after;
    Punctuation(t);
    SkipToSolid(beforeOpen, "(" + group, t);
    OpenEndsWord(beforeOpen, group, t);
    KeywordScanned(after, t);
    assert ("(" + group)[1..] == group;
    GroupRead(items, beforeClose, rest, t);
  }

  lemma ElementScanned(e: Element, rest: string, t: Tests)
    requires LegalElement(e, rest, t)
    ensures Scan(ElementText(e) + rest, t) == Found(ElementPaths(e)) + Scan(AfterElement(e, rest, t), t)
  {
    hide Scan, SkipIgnored, GapText, GroupText, ImportText, LegalImport, LegalGap;
    hide LegalItems, EndsWord, AfterQuote, TakesClosing, FoundOne, ListOf;
    match e {
      case Skipped(i) =>
        ScanIgnores(ElementText(e) + rest, t);
        SkipOne(i, rest, t);
        ScanIgnores(rest, t);
      case Literal(quote, body) => LiteralScanned(quote, body, rest, t);
      case Word(text) => WordScanned(text, rest, t);
      case Symbol(c) =>
        SymbolIsPlain(c, rest, t);
        SymbolScanned(c, rest, t);
      case ImportOne(one) =>
        FoundSingle(one.path);
        ImportOneScanned(one, rest, t);
      case ImportGroup(beforeOpen, items, beforeClose) => ImportGroupScanned(beforeOpen, items, beforeClose, rest, t);
      case LastLine(comment) => LastLineScanned(comment, t);
    }
  }

  lemma LastLineScanned(comment: string, t: Tests)
    requires '\n' !in comment
    ensures Scan("//" + comment + "", t) == [] + Scan("", t)
  {
    hide SkipIgnored, Scan;
    assert "//" + comment + "" == "//" + comment;
    ScanIgnores("//" + comment, t);
    SkipLine(comment, t);
    LineUnended(comment);
    SkipsNothing(t);
    assert [] + Scan("", t) == Scan("", t);
  }

  lemma {:induction false} LineUnended(comment: string)
    requires '\n' !in comment
    ensures AfterLine(comment) == ""
  {
    if comment != "" { LineUnended(comment[1..]); }
  }

  lemma OpenEndsWord(gap: seq<Ignored>, rest: string, t: Tests)
    requires LegalGap(gap, t)
    ensures EndsWord(GapText(gap) + ("(" + rest), t)
  {
    Punctuation(t);
    if gap != [] {
      assert (GapText(gap) + ("(" + rest))[0] == IgnoredText(gap[0])[0];
    }
  }

  lemma LiteralScanned(quote: char, body: seq<LiteralChar>, rest: string, t: Tests)
    requires IsQuote(quote) && LegalBody(body, quote)
    ensures Scan([quote] + BodyText(body) + [quote] + rest, t) == Scan(rest, t)
  {
    hide SkipIgnored, Group, Single;
    var s := [quote] + BodyText(body) + [quote] + rest;
    assert s[0] == quote && s[1..] == BodyText(body) + [quote] + rest;
    LiteralSkipped(quote, body, rest);
    assert !StartsComment(s);
  }

  lemma SymbolIsPlain(c: char, rest: string, t: Tests)
    requires LegalElement(Symbol(c), rest, t)
    ensures !IsQuote(c) && !WordStart(c, t) && !StartsComment([c] + rest)
  {
    var s := [c] + rest;
    assert s[0] == c && (|s| > 1 ==> s[1] == rest[0]);
  }

  lemma SymbolScanned(c: char, rest: string, t: Tests)
    requires !IsQuote(c) && !WordStart(c, t) && !StartsComment([c] + rest)
    ensures Scan([c] + rest, t) == Scan(rest, t)
  {
    hide SkipIgnored, Group, Single;
    assert ([c] + rest)[0] == c && ([c] + rest)[1..] == rest;
  }

  // ---------- Whole source texts ----------

  predicate AllInStep(elements: seq<Element>, t: Tests) {
    elements == [] || (InStep(elements[0], t) && AllInStep(elements[1..], t))
  }

  lemma {:induction false} LegalSuffix(front: seq<Element>, elements: seq<Element>, t: Tests)
    requires LegalSource(front + elements, t)
    ensures LegalSource(elements, t)
  {
    hide LegalElement;
    if front == [] {
      assert front + elements == elements;
    } else {
      assert (front + elements)[1..] == front[1..] + elements;
      LegalSuffix(front[1..], elements, t);
    }
  }

  lemma {:induction false} ScanPrefix(front: seq<Element>, elements: seq<Element>, t: Tests)
    requires LegalSource(front + elements, t) && AllInStep(front, t)
    ensures Scan(SourceText(front + elements), t) == Found(Declared(front)) + Scan(SourceText(elements), t)
  {
    hide Scan, ElementText, ElementPaths, LegalElement, InStep, AfterQuote, FoundOne, ListOf;
    var rest := Scan(SourceText(elements), t);
    if front == [] {
      assert front + elements == elements && [] + rest == rest;
    } else {
      var first, others := front[0], front[1..];
      assert (front + elements)[0] == first && (front + elements)[1..] == others + elements;
      ElementScanned(first, SourceText(others + elements), t);
      ScanPrefix(others, elements, t);
      FoundConcat(ElementPaths(first), Declared(others));
      ConcatAssociates(Found(ElementPaths(first)), Found(Declared(others)), rest);
    }
  }

  lemma ScanNothing(t: Tests)
    ensures Scan("", t) == []
  {
  }

  /** For every source text made of comments (the last line may lack its newline), literals, words,
      other symbols and import declarations in which no lone import has a path in backquotes (or only
      one that ends with a false keyword): the scanner returns exactly the plain paths, in order. */
  lemma ImportsExact(elements: seq<Element>, t: Tests)
    requires LegalSource(elements, t) && AllInStep(elements, t)
    ensures Scan(SourceText(elements), t) == Found(Declared(elements))
  {
    hide Scan, Found, LegalSource;
    assert elements + [] == elements && SourceText([]) == "";
    ScanPrefix(elements, [], t);
    ScanNothing(t);
    assert Found(Declared(elements)) + [] == Found(Declared(elements));
  }

  predicate AllQuoted(paths: seq<Path>) {
    paths == [] || (paths[0].Quoted? && AllQuoted(paths[1..]))
  }

  lemma {:induction false} FoundCount(paths: seq<Path>)
    ensures |Found(paths)| <= |paths| && (|Found(paths)| == |paths| <==> AllQuoted(paths))
    ensures AllQuoted(paths) ==> forall k :: 0 <= k < |paths| ==> paths[k] == Quoted(Found(paths)[k])
  {
    if paths != [] {
      FoundCount(paths[1..]);
      assert AllQuoted(paths) ==> Found(paths) == [paths[0].text] + Found(paths[1..]);
    }
  }

  /** Without such a lone import, every path is found exactly if all are in double quotes and free
      of escapes. */
  lemma AllFoundIff(elements: seq<Element>, t: Tests)
    requires LegalSource(elements, t) && AllInStep(elements, t)
    ensures |Scan(SourceText(elements), t)| == |Declared(elements)| <==> AllQuoted(Declared(elements))
  {
    ImportsExact(elements, t);
    FoundCount(Declared(elements));
  }

  lemma {:induction false} QuotedInStep(elements: seq<Element>, t: Tests)
    requires AllQuoted(Declared(elements))
    ensures AllInStep(elements, t)
  {
    hide TakesClosing;
    if elements != [] {
      QuotedSplit(ElementPaths(elements[0]), Declared(elements[1..]));
      QuotedInStep(elements[1..], t);
    }
  }

  lemma {:induction false} QuotedSplit(a: seq<Path>, b: seq<Path>)
    requires AllQuoted(a + b)
    ensures AllQuoted(a) && AllQuoted(b)
  {
    if a == [] {
      assert a + b == b;
    } else {
      assert (a + b)[0] == a[0] && (a + b)[1..] == a[1..] + b;
      QuotedSplit(a[1..], b);
    }
  }

  /** So a source text whose paths are all in double quotes and free of escapes is read exactly. */
  lemma PlainImportsExact(elements: seq<Element>, t: Tests)
    requires LegalSource(elements, t) && AllQuoted(Declared(elements))
    ensures var found := Scan(SourceText(elements), t);
      |found| == |Declared(elements)| && forall k :: 0 <= k < |found| ==> Declared(elements)[k] == Quoted(found[k])
  {
    hide Scan, LegalSource, SourceText;
    QuotedInStep(elements, t);
    ImportsExact(elements, t);
    FoundCount(Declared(elements));
  }

  // ---------- A lone import with its path in backquotes ----------

  /** From the first such import on the scanner is out of step: what stands behind its closing
      backquote is a literal to it, up to the next backquote. */
  lemma RawPathLosesStep(front: seq<Element>, one: Import, rest: seq<Element>, t: Tests)
    requires LegalSource(front + ([ImportOne(one)] + rest), t) && AllInStep(front, t)
    requires one.path.Raw? && !TakesClosing(one.path.text, t)
    ensures Scan(SourceText(front + ([ImportOne(one)] + rest)), t) ==
            Found(Declared(front)) + Scan(AfterQuote('`', SourceText(rest)), t)
  {
    hide Scan, LegalElement, ElementText, AfterQuote, TakesClosing;
    var lone := [ImportOne(one)] + rest;
    ScanPrefix(front, lone, t);
    LegalSuffix(front, lone, t);
    assert lone[0] == ImportOne(one) && lone[1..] == rest;
    ElementScanned(ImportOne(one), SourceText(rest), t);
    FoundSingle(one.path);
    assert [] + Scan(AfterQuote('`', SourceText(rest)), t) == Scan(AfterQuote('`', SourceText(rest)), t);
  }

  lemma {:induction false} NoClosing(s: string)
    requires '`' !in s
    ensures AfterQuote('`', s) == ""
  {
    if s != "" { NoClosing(s[1..]); }
  }

  lemma {:induction false} ClosingAt(s: string, rest: string)
    requires '`' !in s
    ensures AfterQuote('`', s + "`" + rest) == rest
  {
    var text := s + "`" + rest;
    if s != "" {
      assert text[1..] == s[1..] + "`" + rest;
      ClosingAt(s[1..], rest);
    }
  }

  /** If no backquote follows, every later import is lost. */
  lemma LaterImportsLost(front: seq<Element>, one: Import, rest: seq<Element>, t: Tests)
    requires LegalSource(front + ([ImportOne(one)] + rest), t) && AllInStep(front, t)
    requires one.path.Raw? && !TakesClosing(one.path.text, t) && '`' !in SourceText(rest)
    ensures Scan(SourceText(front + ([ImportOne(one)] + rest)), t) == Found(Declared(front))
  {
    hide Scan, LegalSource, SourceText, Found;
    RawPathLosesStep(front, one, rest, t);
    NoClosing(SourceText(rest));
    ScanNothing(t);
    assert Found(Declared(front)) + [] == Found(Declared(front));
  }

  /** Otherwise the inside of the next raw literal is scanned as source text. */
  lemma LiteralScannedAsSource(front: seq<Element>, one: Import, middle: seq<Element>, body: seq<LiteralChar>,
                               rest: seq<Element>, t: Tests)
    requires LegalSource(front + ([ImportOne(one)] + (middle + ([Literal('`', body)] + rest))), t)
    requires AllInStep(front, t)
    requires one.path.Raw? && !TakesClosing(one.path.text, t) && '`' !in SourceText(middle)
    ensures Scan(SourceText(front + ([ImportOne(one)] + (middle + ([Literal('`', body)] + rest)))), t) ==
            Found(Declared(front)) + Scan(BodyText(body) + "`" + SourceText(rest), t)
  {
    hide Scan, LegalSource, SourceText, Found, Declared, AllInStep, TakesClosing, AfterQuote, BodyText;
    var literal := [Literal('`', body)] + rest;
    var inside := BodyText(body) + "`" + SourceText(rest);
    RawPathLosesStep(front, one, middle + literal, t);
    LiteralAfter(middle, body, rest);
    ClosingAt(SourceText(middle), inside);
  }

  lemma LiteralAfter(middle: seq<Element>, body: seq<LiteralChar>, rest: seq<Element>)
    ensures SourceText(middle + ([Literal('`', body)] + rest)) ==
            SourceText(middle) + "`" + (BodyText(body) + "`" + SourceText(rest))
  {
    hide BodyText;
    var literal := [Literal('`', body)] + rest;
    SourceConcat(middle, literal);
    assert literal[0] == Literal('`', body) && literal[1..] == rest;
    assert SourceText(literal) == ElementText(Literal('`', body)) + SourceText(rest);
    LiteralTexts(SourceText(middle), BodyText(body), SourceText(rest));
  }

  lemma LiteralTexts(middle: string, body: string, rest: string)
    ensures middle + (['`'] + body + ['`'] + rest) == middle + "`" + (body + "`" + rest)
  {
  }

  lemma {:induction false} SourceConcat(a: seq<Element>, b: seq<Element>)
    ensures SourceText(a + b) == SourceText(a) + SourceText(b)
  {
    hide ElementText;
    if a == [] {
      assert a + b == b;
    } else {
      assert (a + b)[0] == a[0] && (a + b)[1..] == a[1..] + b;
      SourceConcat(a[1..], b);
      ConcatAssociates(ElementText(a[0]), SourceText(a[1..]), SourceText(b));
    }
  }

  function Plains(s: string): seq<LiteralChar> {
    if s == "" then [] else [Plain(s[0])] + Plains(s[1..])
  }

  lemma {:induction false} PlainsText(s: string)
    requires '`' !in s
    ensures BodyText(Plains(s)) == s && LegalBody(Plains(s), '`')
  {
    if s != "" {
      PlainsText(s[1..]);
      assert Plains(s)[0] == Plain(s[0]) && Plains(s)[1..] == Plains(s[1..]);
      assert [s[0]] + s[1..] == s;
    }
  }

  /** A raw literal that holds the text of an import declaration. */
  function ImportInLiteral(path: string): Element {
    Literal('`', Plains("import\"" + path + "\""))
  }

  /** A lone import of `raw`, then a raw literal that holds the text of an import of `path`. */
  function ImportThenLiteral(raw: string, path: string): seq<Element> {
    [ImportOne(Import([], None, [], Raw(raw)))] + [ImportInLiteral(path)]
  }

  /** Of the two the scanner reports the one in the literal, and only that one. */
  lemma LiteralReported(raw: string, path: string, t: Tests)
    requires RawPath(raw, t) && NoKeyword(raw) && '"' !in path && '\\' !in path && '`' !in path
    ensures LegalSource(ImportThenLiteral(raw, path), t)
    ensures Declared(ImportThenLiteral(raw, path)) == [Raw(raw)]
    ensures Scan(SourceText(ImportThenLiteral(raw, path)), t) == [path]
  {
    hide Scan, RawPath, NoKeyword, TakesClosing, AfterQuote, BodyText, Plains;
    var text := "import\"" + path + "\"";
    var lone, literal := Import([], None, [], Raw(raw)), Literal('`', Plains(text));
    PlainsText(text);
    NotTaken(raw, t);
    TwoElements(lone, literal, t);
    assert [] + ([ImportOne(lone)] + ([] + ([literal] + []))) == ImportThenLiteral(raw, path);
    LiteralScannedAsSource([], lone, [], Plains(text), [], t);
    assert text + "`" + "" == "import\"" + path + "\"`";
    ImportInside(path, t);
    assert Declared([]) == [] && SourceText([]) == "" && Found([]) + [path] == [path];
  }

  lemma TwoElements(lone: Import, literal: Element, t: Tests)
    requires literal.Literal? && IsQuote(literal.quote) && LegalBody(literal.body, literal.quote)
    requires lone.before == [] && lone.alias.None? && lone.between == [] && LegalPath(lone.path, t)
    ensures LegalSource([ImportOne(lone)] + [literal], t) && Declared([ImportOne(lone)] + [literal]) == [lone.path]
  {
    hide LegalPath, LegalBody, PathText;
    var both := [ImportOne(lone)] + [literal];
    assert both[0] == ImportOne(lone) && both[1..] == [literal] && [literal][1..] == [];
    assert ImportText(lone) == PathText(lone.path) by { assert "" + PathText(lone.path) == PathText(lone.path); }
    PathEndsWord(lone.path, t);
    assert LegalElement(ImportOne(lone), SourceText([literal]), t);
    assert LegalElement(literal, SourceText([]), t) && LegalSource([], t);
    assert LegalSource([literal], t);
    assert Declared([]) == [] && Declared([literal]) == [];
    assert Declared(both) == ElementPaths(both[0]) + Declared([literal]) == [lone.path] + [];
  }

  lemma ImportInside(path: string, t: Tests)
    requires '"' !in path && '\\' !in path
    ensures Scan("import\"" + path + "\"`", t) == [path]
  {
    hide Scan, Single, PathText, EndsWord, AfterQuote;
    var one := Import([], None, [], Quoted(path));
    var text := PathText(Quoted(path));
    assert ImportText(one) == text by { assert "" + text == text; }
    assert EndsWord(text, t) by { PathEndsWord(Quoted(path), t); }
    ImportOneScanned(one, "`", t);
    assert text == "\"" + path + "\"" by { PathTextOf(path); }
    assert "import" + text + "`" == "import\"" + path + "\"`";
    assert "`" + "" == "`";
    ScanQuote("", t);
    NoClosing("");
    ScanNothing(t);
    assert [path] + [] == [path];
  }

  lemma PathTextOf(path: string)
    ensures PathText(Quoted(path)) == "\"" + path + "\""
  {
  }

  lemma PathEndsWord(path: Path, t: Tests)
    ensures EndsWord(PathText(path), t)
  {
    Punctuation(t);
    PathStart(path, "");
    assert PathText(path) + "" == PathText(path);
  }

  // ---------- Which lone imports keep the scanner in step ----------

  ghost predicate ReadExactly(elements: seq<Element>, t: Tests) {
    Scan(SourceText(elements), t) == Found(Declared(elements))
  }

  /** An element that is legal in front of some text is legal in front of more. */
  lemma LegalInFront(e: Element, rest: string, more: string, t: Tests)
    requires LegalElement(e, rest, t) && rest != ""
    ensures LegalElement(e, rest + more, t)
  {
    hide LegalIgnored, LegalBody, LegalImport, LegalItems, LegalGap;
    assert (rest + more)[0] == rest[0];
    if e.Symbol? {
      CommentStart(e.c, rest);
      CommentStart(e.c, rest + more);
    }
  }

  lemma CommentStart(c: char, rest: string)
    requires rest != ""
    ensures StartsComment([c] + rest) <==> c == '/' && (rest[0] == '/' || rest[0] == '*')
  {
    var s := [c] + rest;
    assert s[0] == c && s[1] == rest[0];
    assert s[..2] == [c, rest[0]];
  }

  lemma {:induction false} LegalExtended(front: seq<Element>, e: Element, rest: seq<Element>, t: Tests)
    requires LegalSource(front + [e], t) && ElementText(e) != "" && LegalSource([e] + rest, t)
    ensures LegalSource(front + ([e] + rest), t)
  {
    hide LegalElement, ElementText;
    if front == [] {
      assert front + ([e] + rest) == [e] + rest;
    } else {
      var others := front[1..];
      assert (front + [e])[0] == front[0] && (front + [e])[1..] == others + [e];
      assert (front + ([e] + rest))[0] == front[0] && (front + ([e] + rest))[1..] == others + ([e] + rest);
      LegalExtended(others, e, rest, t);
      assert others + ([e] + rest) == (others + [e]) + rest;
      SourceConcat(others + [e], rest);
      SourceConcat(others, [e]);
      assert [e][1..] == [] && SourceText([e]) == ElementText(e) + "";
      LegalInFront(front[0], SourceText(others + [e]), SourceText(rest), t);
    }
  }

  /** A lone import in backquotes, behind declarations that are read in step, keeps the scanner in step
      exactly if whatever in step may follow is then read exactly. */
  lemma InStepIff(front: seq<Element>, one: Import, t: Tests)
    requires LegalSource(front + [ImportOne(one)], t) && AllInStep(front, t) && one.path.Raw?
    ensures InStep(ImportOne(one), t) <==>
            forall rest :: LegalSource(front + ([ImportOne(one)] + rest), t) && AllInStep(rest, t) ==>
              ReadExactly(front + ([ImportOne(one)] + rest), t)
  {
    hide Scan, LegalSource, SourceText, Found, Declared, InStep, AllInStep;
    if InStep(ImportOne(one), t) {
      forall rest | LegalSource(front + ([ImportOne(one)] + rest), t) && AllInStep(rest, t)
        ensures ReadExactly(front + ([ImportOne(one)] + rest), t)
      {
        InStepJoined(front, ImportOne(one), rest, t);
        ImportsExact(front + ([ImportOne(one)] + rest), t);
      }
    } else {
      ReadWrongly(front, one, t);
    }
  }

  lemma {:induction false} InStepJoined(front: seq<Element>, e: Element, rest: seq<Element>, t: Tests)
    requires AllInStep(front, t) && InStep(e, t) && AllInStep(rest, t)
    ensures AllInStep(front + ([e] + rest), t)
  {
    hide InStep;
    if front == [] {
      assert front + ([e] + rest) == [e] + rest && ([e] + rest)[1..] == rest;
    } else {
      assert (front + ([e] + rest))[0] == front[0] && (front + ([e] + rest))[1..] == front[1..] + ([e] + rest);
      InStepJoined(front[1..], e, rest, t);
    }
  }

  /** Behind an import that loses step such a literal is reported as an import. */
  lemma ReadWrongly(front: seq<Element>, one: Import, t: Tests)
    requires LegalSource(front + [ImportOne(one)], t) && AllInStep(front, t)
    requires one.path.Raw? && !InStep(ImportOne(one), t)
    ensures var rest := [ImportInLiteral("x")];
      && LegalSource(front + ([ImportOne(one)] + rest), t) && AllInStep(rest, t)
      && !ReadExactly(front + ([ImportOne(one)] + rest), t)
  {
    hide Scan, Found, TakesClosing, Plains, BodyText, LegalBody, LegalSource, SourceText, Declared, AllInStep;
    var text := "import\"" + "x" + "\"";
    var literal := ImportInLiteral("x");
    PlainsText(text);
    LiteralBehind(front, one, literal, t);
    assert [] + ([literal] + []) == [literal];
    assert SourceText([]) == "" by { NoText(); }
    LiteralScannedAsSource(front, one, [], Plains(text), [], t);
    ImportInside("x", t);
    assert text + "`" + "" == "import\"" + "x" + "\"`";
    DeclaredConcat(front, [ImportOne(one)] + [literal]);
    LoneDeclares(one, literal);
    FoundConcat(Declared(front), [one.path]);
    FoundSingle(one.path);
    assert |Found(Declared(front)) + ["x"]| != |Found(Declared(front)) + []|;
  }

  lemma NoText()
    ensures SourceText([]) == ""
  {
  }

  lemma LiteralBehind(front: seq<Element>, one: Import, literal: Element, t: Tests)
    requires LegalSource(front + [ImportOne(one)], t) && literal.Literal?
    requires IsQuote(literal.quote) && LegalBody(literal.body, literal.quote)
    ensures LegalSource(front + ([ImportOne(one)] + [literal]), t) && AllInStep([literal], t)
  {
    hide LegalBody, LegalImport, ImportText, EndsWord, BodyText, TakesClosing;
    LegalSuffix(front, [ImportOne(one)], t);
    assert [literal][1..] == [] && [ImportOne(one)][1..] == [];
    assert LegalSource([], t) && AllInStep([], t);
    assert LegalSource([literal], t);
    assert ([ImportOne(one)] + [literal])[0] == ImportOne(one) && ([ImportOne(one)] + [literal])[1..] == [literal];
    assert ElementText(ImportOne(one)) != "";
    LegalExtended(front, ImportOne(one), [literal], t);
  }

  lemma LoneDeclares(one: Import, literal: Element)
    requires literal.Literal?
    ensures Declared([ImportOne(one)] + [literal]) == [one.path]
  {
    var both := [ImportOne(one)] + [literal];
    assert both[0] == ImportOne(one) && both[1..] == [literal] && [literal][1..] == [];
    assert Declared([]) == [] && Declared([literal]) == [];
    assert Declared(both) == [one.path] + [];
  }

  lemma {:induction false} DeclaredConcat(a: seq<Element>, b: seq<Element>)
    ensures Declared(a + b) == Declared(a) + Declared(b)
  {
    if a == [] {
      assert a + b == b;
    } else {
      assert (a + b)[0] == a[0] && (a + b)[1..] == a[1..] + b;
      DeclaredConcat(a[1..], b);
      ConcatAssociates(ElementPaths(a[0]), Declared(a[1..]), Declared(b));
    }
  }
}
