/** The trimming of an error body (`truncate_body_bytes` in `error.rs`): one pass over undecoded
    bytes that looks at four of them at a time, against UTF-8 as RFC 3629 defines it. */
module BodyTruncation {
  import opened Common

  const REPLACEMENT: nat := 0xFFFD
  const WINDOW: nat := 4
  const LIMIT: nat := 512

  /** A character and the number of bytes it was read from. */
  datatype Decoded = Decoded(code: nat, width: nat)

  // ---------- UTF-8, section 4 of RFC 3629 ----------

  predicate IsScalar(code: nat) { code < 0xD800 || 0xE000 <= code < 0x11_0000 }

  predicate Tail(b: byte) { 0x80 <= b <= 0xBF }

  function Encode(code: nat): seq<byte>
    requires IsScalar(code)
  {
    if code < 0x80 then [code]
    else if code < 0x800 then [0xC0 + code / 64, 0x80 + code % 64]
    else if code < 0x1_0000 then [0xE0 + code / 4096, 0x80 + code / 64 % 64, 0x80 + code % 64]
    else [0xF0 + code / 262144, 0x80 + code / 4096 % 64, 0x80 + code / 64 % 64, 0x80 + code % 64]
  }

  function Join2(a: nat, b: nat): nat { a * 64 + b }

  function Join3(a: nat, b: nat, c: nat): nat { a * 4096 + b * 64 + c }

  function Join4(a: nat, b: nat, c: nat, d: nat): nat { a * 262144 + b * 4096 + c * 64 + d }

  lemma SplitJoin2(a: nat, b: nat)
    requires b < 64
    ensures Join2(a, b) / 64 == a && Join2(a, b) % 64 == b
  {
  }

  lemma SplitJoin3(a: nat, b: nat, c: nat)
    requires b < 64 && c < 64
    ensures var n := Join3(a, b, c); n / 4096 == a && n / 64 % 64 == b && n % 64 == c
  {
    var n := Join3(a, b, c);
    assert n / 64 == a * 64 + b;
  }

  lemma SplitJoin4(a: nat, b: nat, c: nat, d: nat)
    requires b < 64 && c < 64 && d < 64
    ensures var n := Join4(a, b, c, d); n / 262144 == a && n / 4096 % 64 == b && n / 64 % 64 == c && n % 64 == d
  {
    var n := Join4(a, b, c, d);
    assert n / 64 == a * 4096 + b * 64 + c;
    assert n / 4096 == a * 64 + b;
  }

  lemma Nested(n: nat)
    ensures n / 64 / 64 == n / 4096 && n / 4096 / 64 == n / 262144
  {
  }

  lemma JoinSplit(n: nat)
    ensures Join2(n / 64, n % 64) == n && Join3(n / 4096, n / 64 % 64, n % 64) == n
    ensures Join4(n / 262144, n / 4096 % 64, n / 64 % 64, n % 64) == n
  {
    Nested(n);
    var a, b := n / 64, n / 4096;
    assert n == a * 64 + n % 64;
    assert a == b * 64 + a % 64;
    assert b == b / 64 * 64 + b % 64;
  }

  /** The well-formed sequence `s` begins with, by the byte ranges of the grammar. */
  function DecodeFirst(s: seq<byte>): (r: Option<Decoded>)
    ensures r.Some? ==> 0 < r.value.width <= |s| && r.value.width <= WINDOW
  {
    if s == [] then None
    else if s[0] < 0x80 then Some(Decoded(s[0], 1))
    else if |s| >= 2 && 0xC2 <= s[0] <= 0xDF && Tail(s[1]) then
      Some(Decoded(Join2(s[0] as int - 0xC0, s[1] as int - 0x80), 2))
    else if |s| >= 3 && 0xE0 <= s[0] <= 0xEF && Tail(s[1]) && Tail(s[2])
            && (s[0] == 0xE0 ==> s[1] >= 0xA0) && (s[0] == 0xED ==> s[1] <= 0x9F) then
      Some(Decoded(Join3(s[0] as int - 0xE0, s[1] as int - 0x80, s[2] as int - 0x80), 3))
    else if |s| >= 4 && 0xF0 <= s[0] <= 0xF4 && Tail(s[1]) && Tail(s[2]) && Tail(s[3])
            && (s[0] == 0xF0 ==> s[1] >= 0x90) && (s[0] == 0xF4 ==> s[1] <= 0x8F) then
      Some(Decoded(Join4(s[0] as int - 0xF0, s[1] as int - 0x80, s[2] as int - 0x80, s[3] as int - 0x80), 4))
    else None
  }

  lemma DecodeShort(code: nat)
    requires code < 0x800
    ensures DecodeFirst(Encode(code)) == Some(Decoded(code, |Encode(code)|))
  {
    hide Join2, Join3, Join4;
    JoinSplit(code);
  }

  lemma DecodeThree(code: nat)
    requires IsScalar(code) && 0x800 <= code < 0x1_0000
    ensures DecodeFirst(Encode(code)) == Some(Decoded(code, |Encode(code)|))
  {
    hide Join2, Join3, Join4;
    JoinSplit(code);
    var s := Encode(code);
    assert s == [0xE0 + code / 4096, 0x80 + code / 64 % 64, 0x80 + code % 64];
    assert Tail(s[1]) && Tail(s[2]) && 0xE0 <= s[0] <= 0xEF;
    assert s[0] == 0xE0 ==> s[1] >= 0xA0;
    assert s[0] == 0xED ==> s[1] <= 0x9F;
  }

  lemma DecodeFour(code: nat)
    requires 0x1_0000 <= code < 0x11_0000
    ensures DecodeFirst(Encode(code)) == Some(Decoded(code, |Encode(code)|))
  {
    hide Join2, Join3, Join4;
    JoinSplit(code);
    var s := Encode(code);
    assert s == [0xF0 + code / 262144, 0x80 + code / 4096 % 64, 0x80 + code / 64 % 64, 0x80 + code % 64];
    assert Tail(s[1]) && Tail(s[2]) && Tail(s[3]) && 0xF0 <= s[0] <= 0xF4;
    assert s[0] == 0xF0 ==> s[1] >= 0x90;
    assert s[0] == 0xF4 ==> s[1] <= 0x8F;
  }

  /** The byte ranges are those of the encoding: a sequence is read back, and only what some
      character encodes to is read. */
  lemma DecodeOfEncode(code: nat, rest: seq<byte>)
    requires IsScalar(code)
    ensures DecodeFirst(Encode(code) + rest) == Some(Decoded(code, |Encode(code)|))
  {
    hide Encode, DecodeFirst;
    if code < 0x800 { DecodeShort(code); } else if code < 0x1_0000 { DecodeThree(code); } else { DecodeFour(code); }
    assert (Encode(code) + rest)[..|Encode(code)|] == Encode(code);
    DecodePrefix(Encode(code) + rest, |Encode(code)|);
  }

  lemma EncodeOfTwo(s: seq<byte>)
    requires DecodeFirst(s).Some? && DecodeFirst(s).value.width == 2
    ensures var code := DecodeFirst(s).value.code; 0x80 <= code < 0x800 && s[..2] == Encode(code)
  {
    var a, b: nat := s[0] as int - 0xC0, s[1] as int - 0x80;
    SplitJoin2(a, b);
    assert DecodeFirst(s).value.code == Join2(a, b);
  }

  lemma EncodeOfThree(s: seq<byte>)
    requires DecodeFirst(s).Some? && DecodeFirst(s).value.width == 3
    ensures var code := DecodeFirst(s).value.code; IsScalar(code) && 0x800 <= code < 0x1_0000 && s[..3] == Encode(code)
  {
    var a, b, c: nat := s[0] as int - 0xE0, s[1] as int - 0x80, s[2] as int - 0x80;
    SplitJoin3(a, b, c);
    assert DecodeFirst(s).value.code == Join3(a, b, c);
  }

  lemma EncodeOfFour(s: seq<byte>)
    requires DecodeFirst(s).Some? && DecodeFirst(s).value.width == 4
    ensures var code := DecodeFirst(s).value.code; 0x1_0000 <= code < 0x11_0000 && s[..4] == Encode(code)
  {
    var a, b, c, d: nat := s[0] as int - 0xF0, s[1] as int - 0x80, s[2] as int - 0x80, s[3] as int - 0x80;
    SplitJoin4(a, b, c, d);
    assert DecodeFirst(s).value.code == Join4(a, b, c, d);
  }

  lemma EncodeOfDecode(s: seq<byte>)
    requires DecodeFirst(s).Some?
    ensures var d := DecodeFirst(s).value; IsScalar(d.code) && s[..d.width] == Encode(d.code)
  {
    hide Join2, Join3, Join4;
    var width := DecodeFirst(s).value.width;
    if width == 2 { EncodeOfTwo(s); } else if width == 3 { EncodeOfThree(s); } else if width == 4 { EncodeOfFour(s); }
  }

  /** `error.valid_up_to()`, or the whole length: how far `s` is well formed. */
  function ValidUpTo(s: seq<byte>): (n: nat)
    ensures n <= |s|
  {
    match DecodeFirst(s)
    case None => 0
    case Some(d) => d.width + ValidUpTo(s[d.width..])
  }

  // ---------- Characters of a body ----------

  /** `char::is_whitespace`. */
  predicate IsWhite(code: nat) {
    || 0x09 <= code <= 0x0D || code in {0x20, 0x85, 0xA0, 0x1680, 0x2028, 0x2029, 0x202F, 0x205F, 0x3000}
    || 0x2000 <= code <= 0x200A
  }

  /** The next character of a non-empty suffix; an undecodable byte stands for one replacement
      character. */
  function NextChar(rest: seq<byte>): (d: Decoded)
    requires rest != []
    ensures 0 < d.width <= |rest|
  {
    match DecodeFirst(rest)
    case Some(d) => d
    case None => Decoded(REPLACEMENT, 1)
  }

  datatype Cell = Cell(start: nat, end: nat, white: bool)

  /** The characters from `pos` to the end of the body. */
  function Cells(body: seq<byte>, pos: nat): seq<Cell>
    requires pos <= |body|
    decreases |body| - pos
  {
    if pos == |body| then []
    else
      var d := NextChar(body[pos..]);
      [Cell(pos, pos + d.width, IsWhite(d.code))] + Cells(body, pos + d.width)
  }

  /** The cells follow each other without gap or overlap, from `from` to `to`. */
  ghost predicate Covers(cells: seq<Cell>, from: nat, to: nat) {
    && (forall i :: 0 <= i < |cells| ==> from <= cells[i].start < cells[i].end <= to)
    && (forall i :: 0 <= i < |cells| - 1 ==> cells[i].end == cells[i + 1].start)
    && (if cells == [] then from == to else cells[0].start == from && cells[|cells| - 1].end == to)
  }

  lemma CoversStep(cell: Cell, rest: seq<Cell>, to: nat)
    requires cell.start < cell.end <= to && Covers(rest, cell.end, to)
    ensures Covers([cell] + rest, cell.start, to)
  {
    var cells := [cell] + rest;
    assert forall i :: 0 < i < |cells| ==> cells[i] == rest[i - 1];
  }

  /** The cells of a body cover it. */
  lemma {:induction false} CellsPartition(body: seq<byte>, pos: nat)
    requires pos <= |body|
    ensures Covers(Cells(body, pos), pos, |body|)
    decreases |body| - pos
  {
    hide NextChar, IsWhite;
    if pos < |body| {
      hide Covers;
      var d := NextChar(body[pos..]);
      CellsPartition(body, pos + d.width);
      CoversStep(Cell(pos, pos + d.width, IsWhite(d.code)), Cells(body, pos + d.width), |body|);
    }
  }

  /** `first` and `last` are the first and last cells that are kept. */
  ghost predicate Spans(cells: seq<Cell>, first: nat, last: nat, start: nat, end: nat) {
    && first <= last < |cells| && !cells[first].white && !cells[last].white
    && (forall i :: 0 <= i < first ==> cells[i].white)
    && (forall i :: last < i < |cells| ==> cells[i].white)
    && start == cells[first].start && end == cells[last].end
  }

  /** From the first character that is not white space to the last. */
  ghost predicate IsTrimmed(cells: seq<Cell>, start: nat, end: nat) {
    if forall i :: 0 <= i < |cells| ==> cells[i].white then start == end == 0
    else exists first, last :: Spans(cells, first, last, start, end)
  }

  // ---------- The four-byte window ----------

  /** What the code derives from a window of at most four bytes. */
  function WindowChar(window: seq<byte>): Decoded
    requires window != []
  {
    var valid := ValidUpTo(window);
    if valid == |window| then (if DecodeFirst(window).Some? then DecodeFirst(window).value else Decoded(REPLACEMENT, 1))
    else if valid > 0 then
      (if DecodeFirst(window[..valid]).Some? then DecodeFirst(window[..valid]).value else Decoded(REPLACEMENT, 1))
    else Decoded(REPLACEMENT, 1)
  }

  lemma DecodePrefix(s: seq<byte>, n: nat)
    requires n <= |s|
    ensures DecodeFirst(s[..n]).Some? ==> DecodeFirst(s) == DecodeFirst(s[..n])
    ensures DecodeFirst(s).Some? && DecodeFirst(s).value.width <= n ==> DecodeFirst(s[..n]) == DecodeFirst(s)
  {
  }

  /** Four bytes are enough: the window gives the same character and width as the whole suffix,
      and the two branches that expect a character find one. */
  lemma WindowIsEnough(rest: seq<byte>)
    requires rest != []
    ensures var window := rest[..if |rest| < 4 then |rest| else 4];
      && WindowChar(window) == NextChar(rest)
      && (ValidUpTo(window) == |window| ==> DecodeFirst(window).Some?)
      && (ValidUpTo(window) > 0 ==> DecodeFirst(window[..ValidUpTo(window)]).Some?)
  {
    var n := if |rest| < WINDOW then |rest| else WINDOW;
    var window := rest[..n];
    DecodePrefix(rest, n);
    var valid := ValidUpTo(window);
    DecodePrefix(window, valid);
  }

  // ---------- The scan ----------

  /** The state of the scan after `done`: `end` is zero until a character is kept. */
  ghost predicate ScanInv(done: seq<Cell>, start: nat, end: nat) {
    && (end == 0 ==> start == 0 && forall i :: 0 <= i < |done| ==> done[i].white)
    && (end > 0 ==> exists first, last :: Spans(done, first, last, start, end))
  }

  lemma SpansStep(done: seq<Cell>, cell: Cell, first: nat, last: nat, start: nat, end: nat)
    requires Spans(done, first, last, start, end)
    ensures cell.white ==> Spans(done + [cell], first, last, start, end)
    ensures !cell.white ==> Spans(done + [cell], first, |done|, start, cell.end)
  {
  }

  lemma SpansFirst(done: seq<Cell>, cell: Cell)
    requires (forall i :: 0 <= i < |done| ==> done[i].white) && !cell.white
    ensures Spans(done + [cell], |done|, |done|, cell.start, cell.end)
  {
  }

  lemma ScanStep(done: seq<Cell>, cell: Cell, start: nat, end: nat)
    requires ScanInv(done, start, end) && cell.start < cell.end
    ensures ScanInv(done + [cell],
      if !cell.white && end == 0 then cell.start else start,
      if !cell.white then cell.end else end)
  {
    hide Spans;
    if end > 0 {
      var first, last :| Spans(done, first, last, start, end);
      SpansStep(done, cell, first, last, start, end);
    } else if !cell.white {
      SpansFirst(done, cell);
    }
  }

  lemma ScanDone(cells: seq<Cell>, start: nat, end: nat)
    requires ScanInv(cells, start, end)
    ensures IsTrimmed(cells, start, end)
  {
  }

  lemma CellsUnfold(body: seq<byte>, pos: nat)
    requires pos < |body|
    ensures var d := NextChar(body[pos..]);
      Cells(body, pos) == [Cell(pos, pos + d.width, IsWhite(d.code))] + Cells(body, pos + d.width)
  {
    hide NextChar, IsWhite;
  }

  lemma CellsStep(body: seq<byte>, pos: nat, done: seq<Cell>)
    requires pos < |body| && done + Cells(body, pos) == Cells(body, 0)
    ensures var d := NextChar(body[pos..]);
      pos + d.width <= |body|
      && (done + [Cell(pos, pos + d.width, IsWhite(d.code))]) + Cells(body, pos + d.width) == Cells(body, 0)
  {
    hide NextChar, IsWhite, Cells;
    var d := NextChar(body[pos..]);
    CellsUnfold(body, pos);
    ConcatAssociates(done, [Cell(pos, pos + d.width, IsWhite(d.code))], Cells(body, pos + d.width));
  }

  /** The `match` on `from_utf8` of the window. */
  method ReadChar(remaining: seq<byte>) returns (d: Decoded)
    requires remaining != []
    ensures d == NextChar(remaining)
  {
    var window := remaining[..if |remaining| < WINDOW then |remaining| else WINDOW];
    var valid := ValidUpTo(window);
    WindowIsEnough(remaining);
    if valid == |window| {
      d := DecodeFirst(window).value;
    } else if valid > 0 {
      d := DecodeFirst(window[..valid]).value;
    } else {
      d := Decoded(REPLACEMENT, 1);
    }
  }

  /** The trimmed body, cut at 512 bytes. */
  ghost predicate IsCut(body: seq<byte>, start: nat, end: nat, kept: seq<byte>) {
    start <= end <= |body| && IsTrimmed(Cells(body, 0), start, end)
    && kept == body[start..if end - start < LIMIT then end else start + LIMIT]
  }

  /** One pass over the body; what is kept is decoded with losses. */
  method TruncateBodyBytes(body: seq<byte>, lossy: seq<byte> -> string) returns (text: string)
    ensures exists start, end, kept :: IsCut(body, start, end, kept) && text == lossy(kept)
  {
    hide Cells, ScanInv, IsTrimmed, IsCut, NextChar, IsWhite;
    var first, last, pos := 0, 0, 0;
    ghost var done: seq<Cell> := [];
    assert done + Cells(body, 0) == Cells(body, 0);
    ScanStart();
    while pos < |body|
      invariant 0 <= pos <= |body| && 0 <= first <= last <= pos
      invariant done + Cells(body, pos) == Cells(body, 0)
      invariant ScanInv(done, first, last)
      decreases |body| - pos
    {
      var d := ReadChar(body[pos..]);
      CellsStep(body, pos, done);
      ghost var cell := Cell(pos, pos + d.width, IsWhite(d.code));
      ScanStep(done, cell, first, last);
      done := done + [cell];
      if !IsWhite(d.code) {
        if last == 0 { first := pos; }
        last := pos + d.width;
      }
      pos := pos + d.width;
    }
    CellsEnd(body, done);
    ScanDone(done, first, last);
    var trimmed := body[first..last];
    var kept := trimmed[..if |trimmed| < LIMIT then |trimmed| else LIMIT];
    text := lossy(kept);
    Cut(body, first, last);
    assert IsCut(body, first, last, kept) && text == lossy(kept);
  }

  lemma Cut(body: seq<byte>, first: nat, last: nat)
    requires first <= last <= |body| && IsTrimmed(Cells(body, 0), first, last)
    ensures var trimmed := body[first..last];
      IsCut(body, first, last, trimmed[..if |trimmed| < LIMIT then |trimmed| else LIMIT])
  {
    hide Cells, IsTrimmed;
  }

  lemma ScanStart()
    ensures ScanInv([], 0, 0)
  {
  }

  lemma CellsEnd(body: seq<byte>, done: seq<Cell>)
    requires done + Cells(body, |body|) == Cells(body, 0)
    ensures done == Cells(body, 0)
  {
    assert done + [] == done;
  }

  /** What is kept is determined: two cuts of a body agree. */
  lemma CutUnique(body: seq<byte>, s1: nat, e1: nat, kept1: seq<byte>, s2: nat, e2: nat, kept2: seq<byte>)
    requires IsCut(body, s1, e1, kept1) && IsCut(body, s2, e2, kept2)
    ensures s1 == s2 && e1 == e2 && kept1 == kept2
  {
  }

  // ---------- Bodies that are text ----------

  /** The code points with the Unicode property White_Space. */
  const WHITE_SPACE: set<nat> := {
    0x0009, 0x000A, 0x000B, 0x000C, 0x000D, 0x0020, 0x0085, 0x00A0, 0x1680, 0x2000, 0x2001, 0x2002, 0x2003, 0x2004,
    0x2005, 0x2006, 0x2007, 0x2008, 0x2009, 0x200A, 0x2028, 0x2029, 0x202F, 0x205F, 0x3000}

  lemma IsWhiteIff(code: nat)
    ensures IsWhite(code) <==> code in WHITE_SPACE
  {
  }

  /** A byte that begins no character is one cell, and is kept. */
  lemma StrayKept(body: seq<byte>, pos: nat)
    requires pos < |body| && DecodeFirst(body[pos..]).None?
    ensures Cells(body, pos) == [Cell(pos, pos + 1, false)] + Cells(body, pos + 1)
  {
    hide DecodeFirst;
    IsWhiteIff(REPLACEMENT);
    CellsUnfold(body, pos);
  }

  ghost predicate AllScalars(text: seq<nat>) { forall i :: 0 <= i < |text| ==> IsScalar(text[i]) }

  ghost predicate AllWhite(text: seq<nat>) { forall i :: 0 <= i < |text| ==> text[i] in WHITE_SPACE }

  ghost function EncodeAll(text: seq<nat>): seq<byte>
    requires AllScalars(text)
  {
    if text == [] then [] else Encode(text[0]) + EncodeAll(text[1..])
  }

  lemma {:induction false} EncodeAllConcat(a: seq<nat>, b: seq<nat>)
    requires AllScalars(a) && AllScalars(b)
    ensures AllScalars(a + b) && EncodeAll(a + b) == EncodeAll(a) + EncodeAll(b)
  {
    hide Encode;
    if a == [] {
      assert a + b == b;
    } else {
      assert (a + b)[1..] == a[1..] + b;
      EncodeAllConcat(a[1..], b);
    }
  }

  /** The cells of a text that starts at `pos`. */
  ghost function TextCells(text: seq<nat>, pos: nat): seq<Cell>
    requires AllScalars(text)
  {
    if text == [] then []
    else
      var end := pos + |Encode(text[0])|;
      [Cell(pos, end, text[0] in WHITE_SPACE)] + TextCells(text[1..], end)
  }

  lemma {:induction false} CellsOfText(body: seq<byte>, pos: nat, text: seq<nat>)
    requires AllScalars(text) && pos <= |body| && body[pos..] == EncodeAll(text)
    ensures Cells(body, pos) == TextCells(text, pos)
    decreases |text|
  {
    hide IsWhite, Encode, DecodeFirst;
    if text != [] {
      var rest := EncodeAll(text[1..]);
      EncodedNonempty(text[0]);
      DecodeOfEncode(text[0], rest);
      IsWhiteIff(text[0]);
      var end := pos + |Encode(text[0])|;
      assert body[end..] == body[pos..][|Encode(text[0])|..] == rest;
      CellsUnfold(body, pos);
      CellsOfText(body, end, text[1..]);
    }
  }

  lemma EncodedNonempty(code: nat)
    requires IsScalar(code)
    ensures Encode(code) != []
  {
  }

  lemma {:induction false} TextCellsAt(text: seq<nat>, pos: nat, i: nat)
    requires AllScalars(text) && i < |text|
    ensures |TextCells(text, pos)| == |text|
    ensures AllScalars(text[..i]) && AllScalars(text[..i + 1])
    ensures TextCells(text, pos)[i] ==
            Cell(pos + |EncodeAll(text[..i])|, pos + |EncodeAll(text[..i + 1])|, text[i] in WHITE_SPACE)
    decreases |text|
  {
    hide Encode;
    var head := text[..i + 1];
    assert head[0] == text[0] && head[1..] == text[1..][..i];
    if i > 0 {
      assert text[..i][0] == text[0] && text[..i][1..] == text[1..][..i - 1];
      TextCellsAt(text[1..], pos + |Encode(text[0])|, i - 1);
    } else {
      if |text| > 1 { TextCellsAt(text[1..], pos + |Encode(text[0])|, 0); }
      assert text[..0] == [] && head[1..] == [];
    }
  }

  lemma NothingToKeep(body: seq<byte>, text: seq<nat>)
    requires AllScalars(text) && AllWhite(text) && body == EncodeAll(text)
    ensures IsCut(body, 0, 0, [])
  {
    hide Encode;
    CellsOfText(body, 0, text);
    forall i | 0 <= i < |Cells(body, 0)| ensures Cells(body, 0)[i].white {
      if text != [] {
        TextCellsAt(text, 0, 0);
        TextCellsAt(text, 0, i);
      }
    }
  }

  lemma CoreSpans(a: seq<nat>, core: seq<nat>, b: seq<nat>, cells: seq<Cell>)
    requires AllScalars(a) && AllScalars(core) && AllScalars(b) && AllScalars(a + core + b) && AllScalars(a + core)
    requires AllWhite(a) && AllWhite(b) && core != []
    requires core[0] !in WHITE_SPACE && core[|core| - 1] !in WHITE_SPACE
    requires cells == TextCells(a + core + b, 0)
    ensures Spans(cells, |a|, |a| + |core| - 1, |EncodeAll(a)|, |EncodeAll(a + core)|)
  {
    hide TextCells, EncodeAll, Encode;
    var text := a + core + b;
    forall i | 0 <= i < |text|
      ensures |cells| == |text| && cells[i].white == (text[i] in WHITE_SPACE)
    {
      TextCellsAt(text, 0, i);
    }
    assert text[|a|] == core[0] && text[|a| + |core| - 1] == core[|core| - 1];
    TextCellsAt(text, 0, |a|);
    TextCellsAt(text, 0, |a| + |core| - 1);
    assert text[..|a|] == a && text[..|a| + |core|] == a + core;
    forall i | |a| + |core| <= i < |cells| ensures cells[i].white {
      assert text[i] == b[i - |a| - |core|];
    }
  }

  /** A body that is text keeps its text without the white space at both ends, in the first 512
      bytes of its encoding; a body of white space keeps nothing. */
  lemma TextTrimmed(body: seq<byte>, a: seq<nat>, core: seq<nat>, b: seq<nat>, start: nat, end: nat, kept: seq<byte>)
    requires AllScalars(a) && AllScalars(core) && AllScalars(b) && AllScalars(a + core + b)
    requires AllWhite(a) && AllWhite(b)
    requires core != [] ==> core[0] !in WHITE_SPACE && core[|core| - 1] !in WHITE_SPACE
    requires body == EncodeAll(a + core + b) && IsCut(body, start, end, kept)
    ensures var whole := EncodeAll(core);
      kept == if |whole| <= 512 then whole else whole[..512]
  {
    hide Encode, EncodeAll, TextCells, Cells, Spans, AllScalars, AllWhite, IsCut, FirstBytes;
    if core == [] {
      WhiteTogether(a, core, b);
      NothingToKeep(body, a + core + b);
      CutUnique(body, start, end, kept, 0, 0, []);
      NothingEncoded();
    } else {
      FirstBytesIs(EncodeAll(core));
      CoreIsCut(body, a, core, b);
      var from, to := |EncodeAll(a)|, |EncodeAll(a)| + |EncodeAll(core)|;
      CutUnique(body, start, end, kept, from, to, FirstBytes(EncodeAll(core)));
    }
  }

  lemma WhiteTogether(a: seq<nat>, core: seq<nat>, b: seq<nat>)
    requires AllWhite(a) && AllWhite(b) && core == []
    ensures AllWhite(a + core + b)
  {
  }

  lemma NothingEncoded()
    ensures AllScalars([]) && EncodeAll([]) == []
  {
  }

  ghost function FirstBytes(s: seq<byte>): seq<byte> {
    if |s| < LIMIT then s else s[..LIMIT]
  }

  lemma CoreIsCut(body: seq<byte>, a: seq<nat>, core: seq<nat>, b: seq<nat>)
    requires AllScalars(a) && AllScalars(core) && AllScalars(b) && AllScalars(a + core + b)
    requires AllWhite(a) && AllWhite(b) && core != []
    requires core[0] !in WHITE_SPACE && core[|core| - 1] !in WHITE_SPACE
    requires body == EncodeAll(a + core + b)
    ensures IsCut(body, |EncodeAll(a)|, |EncodeAll(a)| + |EncodeAll(core)|, FirstBytes(EncodeAll(core)))
  {
    hide Encode, EncodeAll, TextCells, Cells, Spans, AllScalars, AllWhite, IsCut, FirstBytes;
    EncodeAllConcat(a, core);
    EncodeAllConcat(a + core, b);
    WholeBody(body);
    CellsOfText(body, 0, a + core + b);
    CoreSpans(a, core, b, Cells(body, 0));
    assert |EncodeAll(a + core)| == |EncodeAll(a)| + |EncodeAll(core)|;
    SpanIsCut(body, EncodeAll(a), EncodeAll(core), EncodeAll(b), |a|, |a| + |core| - 1);
  }

  lemma WholeBody(body: seq<byte>)
    ensures body[0..] == body
  {
  }

  lemma SpanIsCut(body: seq<byte>, x: seq<byte>, y: seq<byte>, z: seq<byte>, first: nat, last: nat)
    requires body == x + y + z && Spans(Cells(body, 0), first, last, |x|, |x| + |y|)
    ensures IsCut(body, |x|, |x| + |y|, FirstBytes(y))
  {
    hide Cells, Spans, IsTrimmed, FirstBytes;
    NotAllWhite(Cells(body, 0), first, last, |x|, |x| + |y|);
    MiddleBytes(body, x, y, z);
  }

  lemma MiddleBytes(body: seq<byte>, x: seq<byte>, y: seq<byte>, z: seq<byte>)
    requires body == x + y + z
    ensures var start, end := |x|, |x| + |y|;
      start <= end <= |body| && FirstBytes(y) == body[start..if end - start < LIMIT then end else start + LIMIT]
  {
  }

  lemma FirstBytesIs(s: seq<byte>)
    ensures FirstBytes(s) == if |s| <= 512 then s else s[..512]
  {
  }

  lemma NotAllWhite(cells: seq<Cell>, first: nat, last: nat, start: nat, end: nat)
    requires Spans(cells, first, last, start, end)
    ensures IsTrimmed(cells, start, end)
  {
  }
}
