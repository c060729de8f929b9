/** Go's JSON decoding into reused slice slots, as `chat.rs` reproduces it for OpenAI responses.

    Decoding the same key twice does not start over: a slice keeps its slots, and an object is
    decoded on top of what its slot already holds. The reference is a fold over history. */
module GoSlices {
  import opened Common

  /** A JSON value as the decoder meets it; an object keeps its fields in order, repeats included. */
  datatype Json = Null | Text(text: string) | List(items: seq<Json>) | Object(fields: seq<Field>) | Scalar
  datatype Field = Field(key: string, value: Json)

  function FoldChar(c: char): char {
    if 'A' <= c <= 'Z' then (c as int + 32) as char
    else if c == '\U{017F}' then 's'
    else if c == '\U{212A}' then 'k'
    else c
  }

  function FoldKey(key: string): string {
    seq(|key|, i requires 0 <= i < |key| => FoldChar(key[i]))
  }

  /** `go_field_eq`. */
  predicate Names(key: string, field: string) { FoldKey(key) == field }

  /** `key` is one of Go's spellings of the lower-case letters and underscores of `field`. */
  ghost predicate Spells(key: string, field: string) {
    && |key| == |field|
    && forall i :: 0 <= i < |key| ==> SpellsChar(key[i], field[i])
  }

  /** A character that is no upper-case ASCII letter, no long s and no Kelvin sign stands for
      itself. */
  ghost predicate SpellsChar(k: char, f: char) {
    || ('A' <= k <= 'Z' && f as int - k as int == 'a' as int - 'A' as int)
    || (k == '\U{017F}' && f == 's')
    || (k == '\U{212A}' && f == 'k')
    || (k == f && !('A' <= k <= 'Z') && k != '\U{017F}' && k != '\U{212A}')
  }

  lemma NamesIff(key: string, field: string)
    ensures Names(key, field) <==> Spells(key, field)
  {
    var folded := FoldKey(key);
    if Spells(key, field) {
      assert forall i :: 0 <= i < |key| ==> folded[i] == FoldChar(key[i]) == field[i];
    }
  }

  /** A key spells at most one field, and a field without upper-case and special letters is spelled
      by itself. */
  lemma SpellsOne(key: string, a: string, b: string)
    ensures Spells(key, a) && Spells(key, b) ==> a == b
    ensures (forall i :: 0 <= i < |a| ==> a[i] == '_' || 'a' <= a[i] <= 'z') ==> Names(a, a)
    ensures Names(key, a) && Names(key, b) ==> a == b
  {
    NamesIff(a, a);
    if Spells(key, a) && Spells(key, b) {
      assert forall i :: 0 <= i < |key| ==> SpellsChar(key[i], a[i]) && SpellsChar(key[i], b[i]);
    }
  }

  // ---------- Objects ----------

  /** The fields in order, each read into the target; `None` for a type error. */
  function ReadFields<T>(target: T, fields: seq<Field>, read: (T, Field) -> Option<T>): Option<T>
    decreases |fields|
  {
    if fields == [] then Some(target)
    else match read(target, fields[0])
      case None => None
      case Some(next) => ReadFields(next, fields[1..], read)
  }

  /** `GoObjectSeed`: null leaves the target as it was. */
  function ReadObject<T>(target: T, json: Json, read: (T, Field) -> Option<T>): Option<T> {
    match json
    case Null => Some(target)
    case Object(fields) => ReadFields(target, fields, read)
    case _ => None
  }

  method VisitObject<T>(target: T, json: Json, read: (T, Field) -> Option<T>) returns (r: Option<T>)
    ensures r == ReadObject(target, json, read)
  {
    if json.Null? { return Some(target); }
    if !json.Object? { return None; }
    var value := target;
    var next := 0;
    while next < |json.fields|
      invariant 0 <= next <= |json.fields|
      invariant ReadFields(value, json.fields[next..], read) == ReadFields(target, json.fields, read)
    {
      var read1 := read(value, json.fields[next]);
      assert json.fields[next..][1..] == json.fields[next + 1..];
      if read1.None? { return None; }
      value := read1.value;
      next := next + 1;
    }
    return Some(value);
  }

  lemma {:induction false} ReadFieldsConcat<T>(target: T, a: seq<Field>, b: seq<Field>, read: (T, Field) -> Option<T>)
    ensures ReadFields(target, a + b, read) ==
            match ReadFields(target, a, read)
            case None => None
            case Some(mid) => ReadFields(mid, b, read)
    decreases |a|
  {
    if a == [] {
      assert a + b == b;
    } else {
      assert (a + b)[1..] == a[1..] + b;
      var next := read(target, a[0]);
      if next.Some? { ReadFieldsConcat(next.value, a[1..], b, read); }
    }
  }

  // ---------- Slices ----------

  /** Slots that were ever decoded into since the last reset, and how many are active. */
  datatype Slice<T> = Slice(slots: seq<T>, len: nat)

  function EmptySlice<T>(): Slice<T> { Slice([], 0) }

  function Active<T>(slice: Slice<T>): seq<T> {
    if slice.len <= |slice.slots| then slice.slots[..slice.len] else slice.slots
  }

  /** The elements decoded in order on top of the slots, new slots starting from `zero`. */
  function ReadElements<T>(slots: seq<T>, items: seq<Json>, zero: T,
                           element: (T, Json) -> Option<T>): (r: Option<seq<T>>)
    ensures r.Some? ==> |r.value| >= |items|
    decreases |items|
  {
    if items == [] then Some(slots)
    else match element(if slots == [] then zero else slots[0], items[0])
      case None => None
      case Some(first) =>
        match ReadElements(if slots == [] then [] else slots[1..], items[1..], zero, element)
        case None => None
        case Some(others) => Some([first] + others)
  }

  /** `GoSliceSeed`: null and the empty array both start over. */
  function ReadSlice<T>(slice: Slice<T>, json: Json, zero: T, element: (T, Json) -> Option<T>): (r: Option<Slice<T>>)
    ensures r.Some? ==> r.value.len <= |r.value.slots|
  {
    match json
    case Null => Some(EmptySlice())
    case List(items) =>
      if items == [] then Some(EmptySlice())
      else (match ReadElements(slice.slots, items, zero, element)
            case None => None
            case Some(slots) => Some(Slice(slots, |items|)))
    case _ => None
  }

  /** The result of an array pass of which `count` elements are done. */
  function PassFrom<T>(slots: seq<T>, items: seq<Json>, count: nat, zero: T,
                       element: (T, Json) -> Option<T>): Option<seq<T>>
    requires count <= |slots| && count <= |items|
  {
    match ReadElements(slots[count..], items[count..], zero, element)
    case None => None
    case Some(rest) => Some(slots[..count] + rest)
  }

  function SlotOr<T>(slots: seq<T>, i: nat, zero: T): T {
    if i < |slots| then slots[i] else zero
  }

  function SetSlot<T>(slots: seq<T>, i: nat, value: T): seq<T>
    requires i <= |slots|
  {
    if i < |slots| then slots[i := value] else slots + [value]
  }

  lemma PassStep<T>(slots: seq<T>, items: seq<Json>, count: nat, zero: T, element: (T, Json) -> Option<T>)
    requires count <= |slots| && count < |items|
    ensures PassFrom(slots, items, count, zero, element) ==
            match element(SlotOr(slots, count, zero), items[count])
            case None => None
            case Some(value) => PassFrom(SetSlot(slots, count, value), items, count + 1, zero, element)
  {
    assert items[count..][1..] == items[count + 1..];
    var decoded := element(SlotOr(slots, count, zero), items[count]);
    if decoded.Some? {
      var next := SetSlot(slots, count, decoded.value);
      assert next[count + 1..] == if count < |slots| then slots[count..][1..] else [];
      var others := ReadElements(next[count + 1..], items[count + 1..], zero, element);
      if others.Some? {
        assert slots[..count] + ([decoded.value] + others.value) == next[..count + 1] + others.value;
      }
    }
  }

  lemma PassEnds<T>(slots: seq<T>, items: seq<Json>, zero: T, element: (T, Json) -> Option<T>)
    ensures PassFrom(slots, items, 0, zero, element) == ReadElements(slots, items, zero, element)
    ensures |items| <= |slots| ==> PassFrom(slots, items, |items|, zero, element) == Some(slots)
  {
    assert slots[0..] == slots && items[0..] == items && slots[..0] == [];
    var all := ReadElements(slots, items, zero, element);
    assert all.Some? ==> [] + all.value == all.value;
    if |items| <= |slots| { assert slots[..|items|] + slots[|items|..] == slots; }
  }

  class GoSlice<T> {
    var slots: seq<T>
    var len: nat

    constructor ()
      ensures Slice(slots, len) == EmptySlice<T>()
    {
      slots, len := [], 0;
    }

    /** The array loop: reuse a slot while there is one, then push; an error abandons the decode. */
    method Visit(json: Json, zero: T, element: (T, Json) -> Option<T>) returns (ok: bool)
      modifies this
      ensures ok <==> ReadSlice(old(Slice(slots, len)), json, zero, element).Some?
      ensures ok ==> Slice(slots, len) == ReadSlice(old(Slice(slots, len)), json, zero, element).value
    {
      if json.Null? {
        slots, len := [], 0;
        return true;
      }
      if !json.List? { return false; }
      var items := json.items;
      var count := 0;
      PassEnds(slots, items, zero, element);
      while count < |items|
        invariant 0 <= count <= |items| && count <= |slots|
        invariant PassFrom(slots, items, count, zero, element) == ReadElements(old(slots), items, zero, element)
      {
        PassStep(slots, items, count, zero, element);
        if count < |slots| {
          var decoded := element(slots[count], items[count]);
          if decoded.None? { return false; }
          slots := slots[count := decoded.value];
        } else {
          var decoded := element(zero, items[count]);
          if decoded.None? { return false; }
          slots := slots + [decoded.value];
        }
        count := count + 1;
      }
      PassEnds(slots, items, zero, element);
      if count == 0 { slots := []; }
      len := count;
      return true;
    }

    function IntoActive(): seq<T>
      reads this
    {
      Active(Slice(slots, len))
    }
  }

  // ---------- History ----------

  /** All the values decoded into one slice, oldest first. */
  function Replay<T>(history: seq<Json>, zero: T, element: (T, Json) -> Option<T>): Option<Slice<T>>
    decreases |history|
  {
    if history == [] then Some(EmptySlice())
    else match Replay(history[..|history| - 1], zero, element)
      case None => None
      case Some(slice) => ReadSlice(slice, history[|history| - 1], zero, element)
  }

  predicate Resets(json: Json) { json.Null? || json == List([]) }

  /** The values after the last null or empty array. */
  function SinceReset(history: seq<Json>): seq<Json> {
    if history == [] || Resets(history[|history| - 1]) then []
    else SinceReset(history[..|history| - 1]) + [history[|history| - 1]]
  }

  function ItemCount(json: Json): nat {
    if json.List? then |json.items| else 0
  }

  function MaxCount(history: seq<Json>): nat {
    if history == [] then 0
    else
      var before := MaxCount(history[..|history| - 1]);
      var last := ItemCount(history[|history| - 1]);
      if last > before then last else before
  }

  /** Every element decoded at index `i`, oldest first. */
  function Column(history: seq<Json>, i: nat): seq<Json> {
    if history == [] then []
    else
      var last := history[|history| - 1];
      Column(history[..|history| - 1], i) + (if i < ItemCount(last) then [last.items[i]] else [])
  }

  /** The elements folded into one value. */
  function FoldElements<T>(column: seq<Json>, zero: T, element: (T, Json) -> Option<T>): Option<T> {
    if column == [] then Some(zero)
    else match FoldElements(column[..|column| - 1], zero, element)
      case None => None
      case Some(value) => element(value, column[|column| - 1])
  }

  /** What one pass over an array does to each slot. */
  lemma {:induction false} ReadElementsAt<T>(slots: seq<T>, items: seq<Json>, zero: T, element: (T, Json) -> Option<T>)
    ensures var r := ReadElements(slots, items, zero, element);
      && (r.Some? <==> forall i :: 0 <= i < |items| ==> element(SlotOr(slots, i, zero), items[i]).Some?)
      && (r.Some? ==>
            && |r.value| == (if |items| > |slots| then |items| else |slots|)
            && (forall i :: 0 <= i < |items| ==> element(SlotOr(slots, i, zero), items[i]) == Some(r.value[i]))
            && (forall i :: |items| <= i < |slots| ==> r.value[i] == slots[i]))
    decreases |items|
  {
    if items != [] {
      var rest := if slots == [] then [] else slots[1..];
      ReadElementsAt(rest, items[1..], zero, element);
      assert forall i :: 0 <= i < |items| - 1 ==>
        items[1..][i] == items[i + 1] && SlotOr(rest, i, zero) == SlotOr(slots, i + 1, zero);
      assert SlotOr(slots, 0, zero) == if slots == [] then zero else slots[0];
      var r := ReadElements(slots, items, zero, element);
      if forall i :: 0 <= i < |items| ==> element(SlotOr(slots, i, zero), items[i]).Some? {
        assert element(SlotOr(slots, 0, zero), items[0]).Some?;
        forall i | 0 <= i < |items| - 1
          ensures element(SlotOr(rest, i, zero), items[1..][i]).Some?
        {
          assert element(SlotOr(slots, i + 1, zero), items[i + 1]).Some?;
        }
      }
      if r.Some? {
        forall i | 0 <= i < |items|
          ensures element(SlotOr(slots, i, zero), items[i]) == Some(r.value[i])
        {
          if i > 0 { assert SlotOr(slots, i, zero) == SlotOr(rest, i - 1, zero) && items[i] == items[1..][i - 1]; }
        }
      }
    }
  }

  /** The slots hold the folds of their columns; how many there are and how many are active. */
  ghost predicate HoldsColumns<T>(slice: Slice<T>, history: seq<Json>, zero: T, element: (T, Json) -> Option<T>) {
    var live := SinceReset(history);
    && slice.len == (if history == [] then 0 else ItemCount(history[|history| - 1]))
    && slice.len <= |slice.slots| == MaxCount(live)
    && (forall i :: 0 <= i < |slice.slots| ==> FoldElements(Column(live, i), zero, element) == Some(slice.slots[i]))
  }

  lemma {:induction false} ColumnBeyond(history: seq<Json>, i: nat)
    requires i >= MaxCount(history)
    ensures Column(history, i) == []
  {
    if history != [] { ColumnBeyond(history[..|history| - 1], i); }
  }

  /** One more array on top of slots that hold their columns. */
  lemma ColumnsStep<T>(slice: Slice<T>, history: seq<Json>, json: Json, zero: T, element: (T, Json) -> Option<T>)
    requires HoldsColumns(slice, history, zero, element)
    requires json.List? && json.items != []
    ensures var next := ReadSlice(slice, json, zero, element);
      next.Some? ==> HoldsColumns(next.value, history + [json], zero, element)
  {
    var all := history + [json];
    assert all[..|all| - 1] == history;
    var live, longer := SinceReset(history), SinceReset(all);
    assert longer == live + [json] && longer[..|longer| - 1] == live;
    ReadElementsAt(slice.slots, json.items, zero, element);
    var next := ReadSlice(slice, json, zero, element);
    if next.Some? {
      var slots := next.value.slots;
      forall i | 0 <= i < |slots|
        ensures FoldElements(Column(longer, i), zero, element) == Some(slots[i])
      {
        var column := Column(live, i);
        if i >= |slice.slots| { ColumnBeyond(live, i); }
        assert FoldElements(column, zero, element) == Some(SlotOr(slice.slots, i, zero));
        if i < |json.items| {
          var taller := Column(longer, i);
          assert taller == column + [json.items[i]] && taller[..|taller| - 1] == column;
        } else {
          assert Column(longer, i) == column;
        }
      }
    }
  }

  /** After any values decoded into one slice: the active length is that of the last value, and
      slot `i` is the fold of every element decoded at `i` since the last null or empty array. */
  lemma {:induction false} SlotsHoldColumns<T>(history: seq<Json>, zero: T, element: (T, Json) -> Option<T>)
    ensures var r := Replay(history, zero, element); r.Some? ==> HoldsColumns(r.value, history, zero, element)
    decreases |history|
  {
    if history != [] {
      var before, last := history[..|history| - 1], history[|history| - 1];
      SlotsHoldColumns(before, zero, element);
      assert before + [last] == history;
      var slice := Replay(before, zero, element);
      if slice.Some? && last.List? && last.items != [] {
        ColumnsStep(slice.value, before, last, zero, element);
      }
    }
  }

  ghost predicate ColumnFails<T>(history: seq<Json>, i: nat, zero: T, element: (T, Json) -> Option<T>) {
    FoldElements(Column(SinceReset(history), i), zero, element).None?
  }

  /** The last value cannot be decoded: it is not an array or null, or it holds an element that
      does not fold onto its column. */
  ghost predicate Undecodable<T>(history: seq<Json>, zero: T, element: (T, Json) -> Option<T>) {
    history != [] &&
    var last := history[|history| - 1];
    !(last.Null? || last.List?) || exists i :: 0 <= i < ItemCount(last) && ColumnFails(history, i, zero, element)
  }

  /** Decoding fails exactly when some value of the history cannot be decoded. */
  lemma {:induction false} ReplayFailsIff<T>(history: seq<Json>, zero: T, element: (T, Json) -> Option<T>)
    ensures Replay(history, zero, element).None? <==>
            exists k :: 0 < k <= |history| && Undecodable(history[..k], zero, element)
    decreases |history|
  {
    if history != [] {
      var n := |history| - 1;
      var before, last := history[..n], history[n];
      ReplayFailsIff(before, zero, element);
      PrefixFails(history, zero, element);
      if Replay(before, zero, element).Some? {
        LastFailsIff(before, last, zero, element);
        assert before + [last] == history;
      }
    }
  }

  lemma PrefixFails<T>(history: seq<Json>, zero: T, element: (T, Json) -> Option<T>)
    requires history != []
    ensures var before := history[..|history| - 1];
      (exists k :: 0 < k <= |history| && Undecodable(history[..k], zero, element)) <==>
      Undecodable(history, zero, element) || exists k :: 0 < k <= |before| && Undecodable(before[..k], zero, element)
  {
    hide Undecodable;
    var before := history[..|history| - 1];
    assert forall k :: 0 < k <= |before| ==> before[..k] == history[..k];
    assert history[..|history|] == history;
  }

  lemma LastFailsIff<T>(before: seq<Json>, last: Json, zero: T, element: (T, Json) -> Option<T>)
    requires Replay(before, zero, element).Some?
    ensures ReadSlice(Replay(before, zero, element).value, last, zero, element).None? <==>
            || !(last.Null? || last.List?)
            || exists i :: 0 <= i < ItemCount(last) && ColumnFails(before + [last], i, zero, element)
  {
    hide Replay, HoldsColumns, ColumnFails, ReadElements;
    SlotsHoldColumns(before, zero, element);
    var slice := Replay(before, zero, element).value;
    if last.List? && last.items != [] {
      ReadElementsAt(slice.slots, last.items, zero, element);
      forall i: nat | i < |last.items|
        ensures ColumnFails(before + [last], i, zero, element) <==>
                element(SlotOr(slice.slots, i, zero), last.items[i]).None?
      {
        ColumnFailsAt(slice, before, last, i, zero, element);
      }
    }
  }

  lemma ColumnFailsAt<T>(slice: Slice<T>, before: seq<Json>, last: Json, i: nat, zero: T,
                         element: (T, Json) -> Option<T>)
    requires HoldsColumns(slice, before, zero, element) && last.List? && i < |last.items|
    ensures ColumnFails(before + [last], i, zero, element) <==>
            element(SlotOr(slice.slots, i, zero), last.items[i]).None?
  {
    var all := before + [last];
    assert all[..|all| - 1] == before;
    var live, longer := SinceReset(before), SinceReset(all);
    assert longer == live + [last] && longer[..|longer| - 1] == live;
    if i >= |slice.slots| { ColumnBeyond(live, i); }
    var column, taller := Column(live, i), Column(longer, i);
    assert FoldElements(column, zero, element) == Some(SlotOr(slice.slots, i, zero));
    assert taller == column + [last.items[i]] && taller[..|taller| - 1] == column;
  }

  /** Null elements leave their slot as it was. */
  lemma {:induction false} NullElementsIgnored<T>(column: seq<Json>, zero: T, read: (T, Field) -> Option<T>,
                                                  element: (T, Json) -> Option<T>)
    requires forall t, j :: element(t, j) == ReadObject(t, j, read)
    ensures FoldElements(column, zero, element) == FoldElements(WithoutNulls(column), zero, element)
  {
    if column != [] {
      var front, last := column[..|column| - 1], column[|column| - 1];
      NullElementsIgnored(front, zero, read, element);
      if last.Null? {
        assert WithoutNulls(column) == WithoutNulls(front);
      } else {
        var kept := WithoutNulls(column);
        assert kept[..|kept| - 1] == WithoutNulls(front);
      }
    }
  }

  function WithoutNulls(column: seq<Json>): seq<Json> {
    if column == [] then []
    else
      WithoutNulls(column[..|column| - 1])
      + (if column[|column| - 1].Null? then [] else [column[|column| - 1]])
  }
}
