/** Layered configuration (`symaira-core-config`): defaults, a global file, a project file and the
    environment, merged over JSON trees. */
module ConfigLayers {
  import opened Common

  datatype Value =
    | Null
    | Bool(b: bool)
    | Number(integer: bool, text: string)
    | Str(s: string)
    | Arr(items: seq<Value>)
    | Obj(fields: map<string, Value>)

  /** A text read as a 64-bit float. */
  datatype FloatText = NotAFloat | NonFinite | Finite(number: Value)

  /** What the schema declares, and the scalar parsers, which are not modelled. */
  datatype Schema = Schema(
    mapFields: set<string>, stringFields: set<string>, unsignedFields: set<string>,
    parseU64: string -> Option<Value>, parseI64: string -> Option<Value>, parseF64: string -> FloatText,
    isSpace: char -> bool)

  function JoinPath(parent: string, child: string): string {
    if parent == "" then child else parent + "." + child
  }

  // ---------- Merging ----------

  /** Objects merge key by key, keeping the keys of the current one; anything else is replaced. */
  function Merged(current: Value, overlay: Value): Value
    decreases current
  {
    if current.Obj? && overlay.Obj? then
      Obj(map k | k in current.fields ::
        if k in overlay.fields && !overlay.fields[k].Null? then Merged(current.fields[k], overlay.fields[k])
        else current.fields[k])
    else overlay
  }

  /** `merge_present`: a loop over the overlay's entries that updates the current ones. */
  method MergePresent(current: Value, overlay: Value) returns (r: Value)
    ensures r == Merged(current, overlay)
    decreases overlay
  {
    if !(current.Obj? && overlay.Obj?) { return overlay; }
    var fields := current.fields;
    var left := overlay.fields.Keys;
    while left != {}
      invariant left <= overlay.fields.Keys && fields.Keys == current.fields.Keys
      invariant forall k :: k in fields ==>
        if k in overlay.fields && k !in left && !overlay.fields[k].Null? then
          fields[k] == Merged(current.fields[k], overlay.fields[k])
        else fields[k] == current.fields[k]
      decreases left
    {
      var key :| key in left;
      left := left - {key};
      var value := overlay.fields[key];
      if value.Null? { continue; }
      if key in fields {
        var merged := MergePresent(fields[key], value);
        fields := fields[key := merged];
      }
    }
    r := Obj(fields);
    assert fields == Merged(current, overlay).fields;
  }

  lemma {:induction false} MergedSelf(v: Value)
    ensures Merged(v, v) == v
    decreases v
  {
    if v.Obj? {
      forall k | k in v.fields ensures Merged(v.fields[k], v.fields[k]) == v.fields[k] { MergedSelf(v.fields[k]); }
      assert Merged(v, v).fields == v.fields;
    }
  }

  /** Merging an overlay twice is merging it once. */
  lemma {:induction false} MergedTwice(current: Value, overlay: Value)
    ensures Merged(Merged(current, overlay), overlay) == Merged(current, overlay)
    decreases current
  {
    if current.Obj? && overlay.Obj? {
      var once := Merged(current, overlay);
      forall k | k in current.fields && k in overlay.fields
        ensures Merged(Merged(current.fields[k], overlay.fields[k]), overlay.fields[k]) ==
          Merged(current.fields[k], overlay.fields[k])
      {
        MergedTwice(current.fields[k], overlay.fields[k]);
      }
      assert Merged(once, overlay).fields == once.fields;
    } else {
      MergedSelf(overlay);
    }
  }

  // ---------- Checks before merging ----------

  predicate SameKind(a: Value, b: Value) {
    (a.Bool? && b.Bool?) || (a.Number? && b.Number?) || (a.Str? && b.Str?)
  }

  /** Some part of the overlay has a type other than what it would replace; of an array only the
      first elements are compared. */
  predicate Incompatible(current: Value, overlay: Value)
    decreases current
  {
    if overlay.Null? || current.Null? then false
    else if current.Obj? && overlay.Obj? then
      exists k :: k in overlay.fields && k in current.fields && Incompatible(current.fields[k], overlay.fields[k])
    else if current.Arr? && overlay.Arr? then
      current.items != [] && overlay.items != [] && Incompatible(current.items[0], overlay.items[0])
    else !SameKind(current, overlay)
  }

  predicate IncompatibleAt(current: map<string, Value>, overlay: map<string, Value>, k: string) {
    k in overlay && k in current && Incompatible(current[k], overlay[k])
  }

  /** `field` names the first place, in key order at each level, where the types differ. */
  ghost predicate FirstConflict(current: Value, overlay: Value, path: string, field: string)
    decreases current
  {
    if overlay.Null? || current.Null? then false
    else if current.Obj? && overlay.Obj? then
      exists k :: k in overlay.fields && k in current.fields
        && FirstConflict(current.fields[k], overlay.fields[k], JoinPath(path, k), field)
        && forall j :: Before(j, k) ==> !IncompatibleAt(current.fields, overlay.fields, j)
    else if current.Arr? && overlay.Arr? then
      current.items != [] && overlay.items != [] && FirstConflict(current.items[0], overlay.items[0], path, field)
    else !SameKind(current, overlay) && field == path
  }

  /** There is at most one first place, and there is one only if types differ. */
  lemma {:induction false} FirstConflictUnique(current: Value, overlay: Value, path: string, f: string, g: string)
    requires FirstConflict(current, overlay, path, f) && FirstConflict(current, overlay, path, g)
    ensures f == g && Incompatible(current, overlay)
    decreases current
  {
    if current.Obj? && overlay.Obj? {
      var k :| k in overlay.fields && k in current.fields
        && FirstConflict(current.fields[k], overlay.fields[k], JoinPath(path, k), f)
        && forall j :: Before(j, k) ==> !IncompatibleAt(current.fields, overlay.fields, j);
      var l :| l in overlay.fields && l in current.fields
        && FirstConflict(current.fields[l], overlay.fields[l], JoinPath(path, l), g)
        && forall j :: Before(j, l) ==> !IncompatibleAt(current.fields, overlay.fields, j);
      FirstConflictUnique(current.fields[k], overlay.fields[k], JoinPath(path, k), f, f);
      FirstConflictUnique(current.fields[l], overlay.fields[l], JoinPath(path, l), g, g);
      assert IncompatibleAt(current.fields, overlay.fields, k) && IncompatibleAt(current.fields, overlay.fields, l);
      BeforeTotal(k, l);
      FirstConflictUnique(current.fields[k], overlay.fields[k], JoinPath(path, k), f, g);
    } else if current.Arr? && overlay.Arr? {
      FirstConflictUnique(current.items[0], overlay.items[0], path, f, g);
    }
  }

  /** The next key of an ordered map. */
  method LeastKey(keys: set<string>) returns (k: string)
    requires keys != {}
    ensures k in keys && forall j :: j in keys ==> !Before(j, k)
  {
    k :| k in keys;
    var left := keys;
    while left != {}
      invariant left <= keys && k in keys
      invariant forall j :: j in keys && j !in left ==> !Before(j, k)
      decreases left
    {
      var next :| next in left;
      left := left - {next};
      if Before(next, k) {
        forall j | j in keys && !Before(j, k)
          ensures !Before(j, next)
        {
          TextOrderTransitive(next, k, j); BeforeTotal(next, k);
        }
        BeforeTotal(next, next);
        k := next;
      }
    }
  }

  method IncompatibleField(current: Value, overlay: Value, path: string) returns (field: Option<string>)
    ensures field.Some? <==> Incompatible(current, overlay)
    ensures field.Some? ==> FirstConflict(current, overlay, path, field.value)
    decreases overlay
  {
    if overlay.Null? || current.Null? { return None; }
    if current.Obj? && overlay.Obj? {
      var left := overlay.fields.Keys;
      while left != {}
        invariant left <= overlay.fields.Keys
        invariant forall k :: k in overlay.fields && k !in left ==> !IncompatibleAt(current.fields, overlay.fields, k)
        decreases left
      {
        var key := LeastKey(left);
        if key in current.fields {
          field := IncompatibleField(current.fields[key], overlay.fields[key], JoinPath(path, key));
          if field.Some? {
            assert IncompatibleAt(current.fields, overlay.fields, key);
            return;
          }
        }
        left := left - {key};
      }
      assert forall k :: k in overlay.fields ==> !IncompatibleAt(current.fields, overlay.fields, k);
      return None;
    }
    if current.Arr? && overlay.Arr? {
      if current.items == [] || overlay.items == [] { return None; }
      field := IncompatibleField(current.items[0], overlay.items[0], path);
      return;
    }
    return if SameKind(current, overlay) then None else Some(path);
  }

  /** The overlay mentions a declared map field that it can reach. */
  predicate MentionsMap(current: Value, overlay: Value, path: string, mapFields: set<string>)
    decreases current, 1
  {
    current.Obj? && overlay.Obj? && exists k :: k in overlay.fields && MentionsAt(current, overlay, path, mapFields, k)
  }

  predicate MentionsAt(current: Value, overlay: Value, path: string, mapFields: set<string>, k: string)
    decreases current, 0
  {
    && current.Obj? && overlay.Obj? && k in overlay.fields
    && (JoinPath(path, k) in mapFields
        || (k in current.fields && MentionsMap(current.fields[k], overlay.fields[k], JoinPath(path, k), mapFields)))
  }

  /** `field` is the first such field, in key order at each level, a field before its own fields. */
  ghost predicate FirstMapField(current: Value, overlay: Value, path: string, mapFields: set<string>, field: string)
    decreases current
  {
    current.Obj? && overlay.Obj? &&
    exists k :: k in overlay.fields
      && (if JoinPath(path, k) in mapFields then field == JoinPath(path, k)
          else
            k in current.fields
            && FirstMapField(current.fields[k], overlay.fields[k], JoinPath(path, k), mapFields, field))
      && forall j :: Before(j, k) ==> !MentionsAt(current, overlay, path, mapFields, j)
  }

  lemma {:induction false} FirstMapFieldUnique(current: Value, overlay: Value, path: string, mapFields: set<string>,
                                               f: string, g: string)
    requires FirstMapField(current, overlay, path, mapFields, f) && FirstMapField(current, overlay, path, mapFields, g)
    ensures f == g && f in mapFields && MentionsMap(current, overlay, path, mapFields)
    decreases current
  {
    var k := FirstMention(current, overlay, path, mapFields, f);
    var l := FirstMention(current, overlay, path, mapFields, g);
    if JoinPath(path, k) !in mapFields {
      FirstMapFieldUnique(current.fields[k], overlay.fields[k], JoinPath(path, k), mapFields, f, f);
    }
    if JoinPath(path, l) !in mapFields {
      FirstMapFieldUnique(current.fields[l], overlay.fields[l], JoinPath(path, l), mapFields, g, g);
    }
    assert MentionsAt(current, overlay, path, mapFields, k) && MentionsAt(current, overlay, path, mapFields, l);
    BeforeTotal(k, l);
    if JoinPath(path, k) !in mapFields {
      FirstMapFieldUnique(current.fields[k], overlay.fields[k], JoinPath(path, k), mapFields, f, g);
    }
  }

  lemma FirstMention(current: Value, overlay: Value, path: string, mapFields: set<string>,
                     field: string) returns (k: string)
    requires FirstMapField(current, overlay, path, mapFields, field)
    ensures current.Obj? && overlay.Obj? && k in overlay.fields
    ensures if JoinPath(path, k) in mapFields then field == JoinPath(path, k)
            else
              k in current.fields
              && FirstMapField(current.fields[k], overlay.fields[k], JoinPath(path, k), mapFields, field)
    ensures forall j :: Before(j, k) ==> !MentionsAt(current, overlay, path, mapFields, j)
  {
    k :| k in overlay.fields
      && (if JoinPath(path, k) in mapFields then field == JoinPath(path, k)
          else
            k in current.fields
            && FirstMapField(current.fields[k], overlay.fields[k], JoinPath(path, k), mapFields, field))
      && forall j :: Before(j, k) ==> !MentionsAt(current, overlay, path, mapFields, j);
  }

  method UnsupportedMapField(current: Value, overlay: Value, path: string,
                             mapFields: set<string>) returns (field: Option<string>)
    ensures field.Some? <==> MentionsMap(current, overlay, path, mapFields)
    ensures field.Some? ==> FirstMapField(current, overlay, path, mapFields, field.value)
    decreases overlay
  {
    if !(current.Obj? && overlay.Obj?) { return None; }
    var left := overlay.fields.Keys;
    while left != {}
      invariant left <= overlay.fields.Keys
      invariant forall k :: k in overlay.fields && k !in left ==> !MentionsAt(current, overlay, path, mapFields, k)
      decreases left
    {
      var key := LeastKey(left);
      var child := JoinPath(path, key);
      if child in mapFields {
        assert MentionsAt(current, overlay, path, mapFields, key);
        return Some(child);
      }
      if key in current.fields && current.fields[key].Obj? && overlay.fields[key].Obj? {
        field := UnsupportedMapField(current.fields[key], overlay.fields[key], child, mapFields);
        if field.Some? {
          assert MentionsAt(current, overlay, path, mapFields, key);
          return;
        }
      }
      left := left - {key};
    }
    return None;
  }

  // ---------- Environment ----------

  function UpperChar(c: char): char {
    if 'a' <= c <= 'z' then (c as int - 32) as char else c
  }

  function Upper(s: string): string {
    seq(|s|, i requires 0 <= i < |s| => UpperChar(s[i]))
  }

  function EnvKey(prefix: string, key: string): string { prefix + "_" + Upper(key) }

  function BeforeComma(s: string): (n: nat)
    ensures n <= |s|
  {
    if s == "" || s[0] == ',' then 0 else 1 + BeforeComma(s[1..])
  }

  function SplitCommas(s: string): seq<string>
    decreases |s|
  {
    var n := BeforeComma(s);
    if n == |s| then [s] else [s[..n]] + SplitCommas(s[n + 1..])
  }

  /** The parts with the separator between them. */
  ghost function Join(parts: seq<string>, separator: string): string
    requires parts != []
  {
    if |parts| == 1 then parts[0] else parts[0] + separator + Join(parts[1..], separator)
  }

  /** The pieces hold no comma and are the text again when joined. */
  lemma {:induction false} SplitCommasIs(s: string)
    ensures SplitCommas(s) != [] && Join(SplitCommas(s), ",") == s
    ensures forall i :: 0 <= i < |SplitCommas(s)| ==> ',' !in SplitCommas(s)[i]
    decreases |s|
  {
    var n := BeforeComma(s);
    BeforeCommaIs(s);
    if n < |s| {
      SplitCommasIs(s[n + 1..]);
      var rest := SplitCommas(s[n + 1..]);
      assert SplitCommas(s)[1..] == rest;
      assert s == s[..n] + "," + s[n + 1..];
    } else {
      assert s[..n] == s;
    }
  }

  lemma {:induction false} BeforeCommaIs(s: string)
    ensures var n := BeforeComma(s); ',' !in s[..n] && (n < |s| ==> s[n] == ',')
  {
    if s != "" && s[0] != ',' {
      BeforeCommaIs(s[1..]);
      var n := BeforeComma(s);
      assert s[..n] == [s[0]] + s[1..][..n - 1];
    }
  }

  /** There is no other way to cut the text at its commas. */
  lemma {:induction false} SplitCommasUnique(parts: seq<string>)
    requires parts != [] && forall i :: 0 <= i < |parts| ==> ',' !in parts[i]
    ensures SplitCommas(Join(parts, ",")) == parts
    decreases |parts|
  {
    var s, first := Join(parts, ","), parts[0];
    assert s[..|first|] == first;
    BeforeCommaAt(s, |first|);
    if |parts| == 1 {
      assert parts == [s];
    } else {
      assert s[|first| + 1..] == Join(parts[1..], ",");
      SplitCommasUnique(parts[1..]);
      assert parts == [first] + parts[1..];
    }
  }

  lemma {:induction false} BeforeCommaAt(s: string, n: nat)
    requires n <= |s| && ',' !in s[..n] && (n < |s| ==> s[n] == ',')
    ensures BeforeComma(s) == n
  {
    if n > 0 {
      assert s[..n] == [s[0]] + s[1..][..n - 1];
      BeforeCommaAt(s[1..], n - 1);
    }
  }

  const TRUE_TEXTS: set<string> := {"1", "t", "T", "true", "TRUE", "True"}
  const FALSE_TEXTS: set<string> := {"0", "f", "F", "false", "FALSE", "False"}

  function FiniteOnly(text: FloatText): Option<Value> {
    if text.Finite? then Some(text.number) else None
  }

  /** `parse_env_value`: the template decides the type. */
  function ParseEnv(raw: string, template: Value, path: string, schema: Schema): Option<Value>
    decreases template, 1, 0
  {
    if path in schema.stringFields then Some(Str(raw))
    else if path in schema.unsignedFields then schema.parseU64(raw)
    else match template
      case Bool(_) =>
        if raw in TRUE_TEXTS then Some(Bool(true)) else if raw in FALSE_TEXTS then Some(Bool(false)) else None
      case Number(integer, _) => if integer then schema.parseI64(raw) else FiniteOnly(schema.parseF64(raw))
      case Arr(items) =>
        var texts := SplitCommas(raw);
        (match (if items == [] then ParseStrings(texts, path, schema) else ParseItems(texts, items[0], path, schema))
         case None => None
         case Some(values) => Some(Arr(values)))
      case Null =>
        if raw in TRUE_TEXTS then Some(Bool(true)) else if raw in FALSE_TEXTS then Some(Bool(false))
        else if schema.parseI64(raw).Some? then schema.parseI64(raw)
        else if !schema.parseF64(raw).NotAFloat? then FiniteOnly(schema.parseF64(raw))
        else Some(Str(raw))
      case Str(_) => Some(Str(raw))
      case Obj(_) => None
  }

  /** The items of an array whose template item is `item`. */
  function ParseItems(texts: seq<string>, item: Value, path: string, schema: Schema): Option<seq<Value>>
    decreases item, 2, |texts|
  {
    if texts == [] then Some([])
    else
      match ParseEnv(Trim(texts[0], schema.isSpace), item, path, schema)
      case None => None
      case Some(first) =>
        match ParseItems(texts[1..], item, path, schema)
        case None => None
        case Some(rest) => Some([first] + rest)
  }

  /** An empty array takes its items as strings. */
  function ParseStrings(texts: seq<string>, path: string, schema: Schema): Option<seq<Value>> {
    Some(seq(|texts|, i requires 0 <= i < |texts| => Str(Trim(texts[i], schema.isSpace))))
  }

  /** The number parsers yield numbers. */
  ghost predicate YieldsNumbers(schema: Schema) {
    && (forall s: string :: schema.parseU64(s).Some? ==> schema.parseU64(s).value.Number?)
    && (forall s: string :: schema.parseI64(s).Some? ==> schema.parseI64(s).value.Number?)
    && (forall s: string :: schema.parseF64(s).Finite? ==> schema.parseF64(s).number.Number?)
  }

  lemma {:induction false} ItemsParsed(texts: seq<string>, item: Value, path: string, schema: Schema)
    ensures var r := ParseItems(texts, item, path, schema); r.Some? ==> |r.value| == |texts|
    decreases |texts|
  {
    if texts != [] { ItemsParsed(texts[1..], item, path, schema); }
  }

  /** An environment value keeps the type of what it replaces: text fields become texts, unsigned
      fields numbers, and an array has one item for each comma-separated piece. */
  lemma EnvKeepsKind(raw: string, template: Value, path: string, schema: Schema)
    requires YieldsNumbers(schema) && !template.Null? && ParseEnv(raw, template, path, schema).Some?
    ensures var v := ParseEnv(raw, template, path, schema).value;
      if path in schema.stringFields then v == Str(raw)
      else if path in schema.unsignedFields then v.Number? && schema.parseU64(raw) == Some(v)
      else
        && (SameKind(template, v) || (template.Arr? && v.Arr? && |v.items| == |SplitCommas(raw)|))
        && (template.Str? ==> v == Str(raw))
        && (template.Number? && template.integer ==> schema.parseI64(raw) == Some(v))
        && (template.Number? && !template.integer ==> schema.parseF64(raw) == Finite(v))
  {
    if template.Arr? && template.items != [] {
      ItemsParsed(SplitCommas(raw), template.items[0], path, schema);
    }
  }

  /** The six texts for true and the six for false; a template that is neither true nor false takes
      nothing else, and null takes what is neither as an integer, else as a float, else as text. */
  lemma EnvTruth(raw: string, template: Value, path: string, schema: Schema)
    requires template.Bool? || template.Null?
    requires YieldsNumbers(schema) && path !in schema.stringFields && path !in schema.unsignedFields
    ensures var r := ParseEnv(raw, template, path, schema);
      && (r == Some(Bool(true)) <==> raw in {"1", "t", "T", "true", "TRUE", "True"})
      && (r == Some(Bool(false)) <==> raw in {"0", "f", "F", "false", "FALSE", "False"})
      && (r.Some? && !r.value.Bool? ==> template.Null?)
      && (template.Null? && !(r.Some? && r.value.Bool?) ==>
            if schema.parseI64(raw).Some? then r == schema.parseI64(raw)
            else
              && (r == Some(Str(raw)) <==> schema.parseF64(raw).NotAFloat?)
              && (r.None? <==> schema.parseF64(raw).NonFinite?))
  {
  }

  /** What an array takes its items from: each piece between commas, without the white space around
      it, read as the first item of the template is, or as text if the template has none. */
  lemma EnvItems(pieces: seq<string>, cores: seq<string>, values: seq<Value>, items: seq<Value>, path: string,
                 schema: Schema)
    requires pieces != [] && |cores| == |pieces| == |values|
    requires path !in schema.stringFields && path !in schema.unsignedFields
    requires forall i :: 0 <= i < |pieces| ==> ',' !in pieces[i]
    requires forall i :: 0 <= i < |pieces| ==>
      SolidEnds(cores[i], schema.isSpace) && Padded(pieces[i], cores[i], schema.isSpace)
    ensures var item := if items == [] then Str("") else items[0];
      var r := ParseEnv(Join(pieces, ","), Arr(items), path, schema);
      && (r == Some(Arr(values)) <==>
            forall i :: 0 <= i < |pieces| ==> ParseEnv(cores[i], item, path, schema) == Some(values[i]))
      && (r.None? <==> exists i :: 0 <= i < |pieces| && ParseEnv(cores[i], item, path, schema).None?)
  {
    hide ParseEnv, Trim, ParseItems, ParseStrings, SplitCommas;
    SplitCommasUnique(pieces);
    var item := if items == [] then Str("") else items[0];
    forall i | 0 <= i < |pieces|
      ensures ItemAt(pieces, i, item, path, schema) == ParseEnv(cores[i], item, path, schema)
    {
      TrimIff(pieces[i], cores[i], schema.isSpace);
    }
    ItemsAccepted(pieces, item, path, schema);
    if items == [] { StringsAreItems(pieces, path, schema); }
    ArrayOfItems(pieces, items, path, schema);
    var r := ParseItems(pieces, item, path, schema);
    if r.Some? && forall i :: 0 <= i < |pieces| ==> ParseEnv(cores[i], item, path, schema) == Some(values[i]) {
      forall i | 0 <= i < |pieces| ensures r.value[i] == values[i] {
        assert ItemAt(pieces, i, item, path, schema) == Some(r.value[i]);
      }
      assert r.value == values;
    }
  }

  lemma ArrayOfItems(texts: seq<string>, items: seq<Value>, path: string, schema: Schema)
    requires texts != [] && SplitCommas(Join(texts, ",")) == texts
    requires path !in schema.stringFields && path !in schema.unsignedFields
    requires items == [] ==> ParseStrings(texts, path, schema) == ParseItems(texts, Str(""), path, schema)
    ensures var values := ParseItems(texts, if items == [] then Str("") else items[0], path, schema);
      ParseEnv(Join(texts, ","), Arr(items), path, schema) ==
      if values.None? then None else Some(Arr(values.value))
  {
    hide SplitCommas, ParseItems, ParseStrings;
  }

  ghost function ItemAt(texts: seq<string>, i: nat, item: Value, path: string, schema: Schema): Option<Value>
    requires i < |texts|
  {
    ParseEnv(Trim(texts[i], schema.isSpace), item, path, schema)
  }

  lemma ItemAtRest(texts: seq<string>, i: nat, item: Value, path: string, schema: Schema)
    requires i + 1 < |texts|
    ensures ItemAt(texts[1..], i, item, path, schema) == ItemAt(texts, i + 1, item, path, schema)
  {
  }

  lemma {:induction false} ItemsAccepted(texts: seq<string>, item: Value, path: string, schema: Schema)
    ensures var r := ParseItems(texts, item, path, schema);
      && (r.Some? ==> |r.value| == |texts|)
      && (r.Some? ==> forall i :: 0 <= i < |texts| ==> ItemAt(texts, i, item, path, schema) == Some(r.value[i]))
      && (r.None? ==> exists i :: 0 <= i < |texts| && ItemAt(texts, i, item, path, schema).None?)
    decreases |texts|
  {
    hide ParseEnv, Trim;
    if texts != [] {
      var first, r := ItemAt(texts, 0, item, path, schema), ParseItems(texts, item, path, schema);
      ItemsAccepted(texts[1..], item, path, schema);
      if r.Some? {
        forall i | 0 <= i < |texts| ensures ItemAt(texts, i, item, path, schema) == Some(r.value[i]) {
          if i > 0 { ItemAtRest(texts, i - 1, item, path, schema); }
        }
      } else if first.Some? {
        var i :| 0 <= i < |texts| - 1 && ItemAt(texts[1..], i, item, path, schema).None?;
        ItemAtRest(texts, i, item, path, schema);
      }
    }
  }

  lemma {:induction false} StringsAreItems(texts: seq<string>, path: string, schema: Schema)
    requires path !in schema.stringFields && path !in schema.unsignedFields
    ensures ParseStrings(texts, path, schema) == ParseItems(texts, Str(""), path, schema)
  {
    var all := ParseStrings(texts, path, schema).value;
    if texts == [] {
      assert all == [];
    } else {
      StringsAreItems(texts[1..], path, schema);
      assert all == [all[0]] + ParseStrings(texts[1..], path, schema).value;
    }
  }

  type Environment = map<string, string>

  /** One field under its environment key: map fields are skipped, objects are entered, and an
      empty text leaves an array as it was. */
  function EnvField(field: Value, key: string, env: Environment, path: string, schema: Schema): Option<Value>
    decreases field, 1
  {
    if path in schema.mapFields then Some(field)
    else if field.Obj? then EnvApplied(field, key, env, path, schema)
    else if key in env && !(env[key] == "" && field.Arr?) then ParseEnv(env[key], field, path, schema)
    else Some(field)
  }

  /** `apply_env_value`: every field, or nothing if one cannot be parsed. */
  function EnvApplied(value: Value, prefix: string, env: Environment, path: string, schema: Schema): Option<Value>
    decreases value, 0
  {
    if !value.Obj? then Some(value)
    else if exists k ::
      k in value.fields && EnvField(value.fields[k], EnvKey(prefix, k), env, JoinPath(path, k), schema).None?
    then None
    else Some(Obj(map k | k in value.fields ::
      EnvField(value.fields[k], EnvKey(prefix, k), env, JoinPath(path, k), schema).value))
  }

  method ApplyEnv(value: Value, prefix: string, env: Environment, path: string,
                  schema: Schema) returns (r: Option<Value>)
    ensures r == EnvApplied(value, prefix, env, path, schema)
    decreases value
  {
    if !value.Obj? { return Some(value); }
    var fields := value.fields;
    var left := fields.Keys;
    while left != {}
      invariant left <= value.fields.Keys && fields.Keys == value.fields.Keys
      invariant forall k :: k in value.fields ==>
        if k in left then fields[k] == value.fields[k]
        else EnvField(value.fields[k], EnvKey(prefix, k), env, JoinPath(path, k), schema) == Some(fields[k])
      decreases left
    {
      var key :| key in left;
      left := left - {key};
      var child, envKey := JoinPath(path, key), EnvKey(prefix, key);
      if child in schema.mapFields { continue; }
      var field := fields[key];
      if field.Obj? {
        var applied := ApplyEnv(field, envKey, env, child, schema);
        if applied.None? { return None; }
        fields := fields[key := applied.value];
      } else if envKey in env {
        var raw := env[envKey];
        if raw == "" && field.Arr? { continue; }
        var parsed := ParseEnv(raw, field, child, schema);
        if parsed.None? { return None; }
        fields := fields[key := parsed.value];
      }
    }
    r := Some(Obj(fields));
    assert fields == EnvApplied(value, prefix, env, path, schema).value.fields;
  }

  // ---------- Loading ----------

  datatype LoadError = MapField | IncompatibleType | BadEnvironment
  datatype Loaded = Ok(config: Value) | Err(error: LoadError)

  /** `merge_file`; a missing file changes nothing. */
  function WithFile(config: Value, file: Option<Value>, schema: Schema): Loaded {
    if file.None? then Ok(config)
    else if MentionsMap(config, file.value, "", schema.mapFields) then Err(MapField)
    else if Incompatible(config, file.value) then Err(IncompatibleType)
    else Ok(Merged(config, file.value))
  }

  /** `load_once`: defaults, global file, project file, environment. */
  function Load(defaults: Value, globalFile: Option<Value>, project: Option<Value>, prefix: string, env: Environment,
                schema: Schema): Loaded
  {
    match WithFile(defaults, globalFile, schema)
    case Err(e) => Err(e)
    case Ok(first) =>
      match WithFile(first, project, schema)
      case Err(e) => Err(e)
      case Ok(second) =>
        match EnvApplied(second, prefix, env, "", schema)
        case None => Err(BadEnvironment)
        case Some(config) => Ok(config)
  }

  /** `field` is the field that the error names. */
  method MergeFile(config: Value, file: Option<Value>, schema: Schema) returns (r: Loaded, field: Option<string>)
    ensures r == WithFile(config, file, schema)
    ensures r == Err(MapField) <==> file.Some? && MentionsMap(config, file.value, "", schema.mapFields)
    ensures r == Err(MapField) ==>
      field.Some? && FirstMapField(config, file.value, "", schema.mapFields, field.value)
    ensures r == Err(IncompatibleType) <==>
      file.Some? && !MentionsMap(config, file.value, "", schema.mapFields) && Incompatible(config, file.value)
    ensures r == Err(IncompatibleType) ==> field.Some? && FirstConflict(config, file.value, "", field.value)
    ensures r.Ok? ==> r.config == (if file.None? then config else Merged(config, file.value)) && field == None
  {
    if file.None? { return Ok(config), None; }
    field := UnsupportedMapField(config, file.value, "", schema.mapFields);
    if field.Some? { return Err(MapField), field; }
    field := IncompatibleField(config, file.value, "");
    if field.Some? { return Err(IncompatibleType), field; }
    var merged := MergePresent(config, file.value);
    return Ok(merged), None;
  }

  method LoadOnce(defaults: Value, globalFile: Option<Value>, project: Option<Value>, prefix: string,
                  env: Environment, schema: Schema)
    returns (r: Loaded)
    ensures r == Load(defaults, globalFile, project, prefix, env, schema)
  {
    var field;
    r, field := MergeFile(defaults, globalFile, schema);
    if r.Err? { return; }
    r, field := MergeFile(r.config, project, schema);
    if r.Err? { return; }
    var applied := ApplyEnv(r.config, prefix, env, "", schema);
    return if applied.None? then Err(BadEnvironment) else Ok(applied.value);
  }

  // ---------- Paths ----------

  /** The value at the end of a path of keys through objects. */
  function At(v: Value, p: seq<string>): Option<Value>
    decreases |p|
  {
    if p == [] then Some(v)
    else if v.Obj? && p[0] in v.fields then At(v.fields[p[0]], p[1..])
    else None
  }

  /** What a file says about a path: nothing if the path ends early or in null. */
  function Given(file: Value, p: seq<string>): Option<Value> {
    match At(file, p)
    case None => None
    case Some(v) => if v.Null? then None else Some(v)
  }

  function GivenBy(file: Option<Value>, p: seq<string>): Option<Value> {
    if file.None? then None else Given(file.value, p)
  }

  function Or(first: Option<Value>, second: Value): Value {
    if first.Some? then first.value else second
  }

  /** The dotted name of a path below `start`, as the schema writes it. */
  function Dotted(start: string, p: seq<string>): string
    decreases |p|
  {
    if p == [] then start else Dotted(JoinPath(start, p[0]), p[1..])
  }

  /** The environment variable of a path below `prefix`. */
  function EnvName(prefix: string, p: seq<string>): string
    decreases |p|
  {
    if p == [] then prefix else EnvName(EnvKey(prefix, p[0]), p[1..])
  }

  /** `u` is `s` with its lower-case ASCII letters in upper case. */
  ghost predicate IsUpperOf(u: string, s: string) {
    && |u| == |s|
    && forall i :: 0 <= i < |s| ==>
         if 'a' <= s[i] <= 'z' then s[i] as int - u[i] as int == 'a' as int - 'A' as int else u[i] == s[i]
  }

  /** `name` is the prefix and the keys in upper case, joined by underscores. */
  ghost predicate IsVariable(name: string, prefix: string, p: seq<string>) {
    exists shown: seq<string> :: Shows(shown, p) && name == Join([prefix] + shown, "_")
  }

  ghost predicate Shows(shown: seq<string>, p: seq<string>) {
    |shown| == |p| && forall i :: 0 <= i < |p| ==> IsUpperOf(shown[i], p[i])
  }

  /** The keys joined by dots, from the first that is not empty. */
  ghost function PathText(p: seq<string>): string {
    if p == [] then "" else if p[0] == "" then PathText(p[1..]) else Join(p, ".")
  }

  lemma JoinFirst(a: string, b: string, rest: seq<string>, separator: string)
    ensures Join([a + separator + b] + rest, separator) == Join([a, b] + rest, separator)
  {
    assert ([a + separator + b] + rest)[1..] == rest;
    assert ([a, b] + rest)[1..] == [b] + rest;
    assert ([b] + rest)[1..] == rest;
    if rest != [] { ConcatAssociates(a + separator, b + separator, Join(rest, separator)); }
  }

  lemma UpperIff(u: string, s: string)
    ensures IsUpperOf(u, s) <==> u == Upper(s)
  {
  }

  lemma {:induction false} EnvNameShows(prefix: string, p: seq<string>, shown: seq<string>)
    requires Shows(shown, p)
    ensures EnvName(prefix, p) == Join([prefix] + shown, "_")
    decreases |p|
  {
    if p == [] {
      assert [prefix] + shown == [prefix];
    } else {
      UpperIff(shown[0], p[0]);
      EnvNameShows(EnvKey(prefix, p[0]), p[1..], shown[1..]);
      JoinFirst(prefix, shown[0], shown[1..], "_");
      assert [prefix, shown[0]] + shown[1..] == [prefix] + shown;
    }
  }

  /** The variable of a path: the prefix, then an underscore and the key for each key. */
  lemma EnvNameIff(prefix: string, p: seq<string>, name: string)
    ensures EnvName(prefix, p) == name <==> IsVariable(name, prefix, p)
  {
    var shown := seq(|p|, i requires 0 <= i < |p| => Upper(p[i]));
    forall i | 0 <= i < |p| ensures IsUpperOf(shown[i], p[i]) { UpperIff(shown[i], p[i]); }
    EnvNameShows(prefix, p, shown);
    assert IsVariable(EnvName(prefix, p), prefix, p);
    if IsVariable(name, prefix, p) {
      var other: seq<string> :| Shows(other, p) && name == Join([prefix] + other, "_");
      EnvNameShows(prefix, p, other);
    }
  }

  /** The name of a path in the schema: an empty parent leaves no dot. */
  lemma {:induction false} DottedIs(start: string, p: seq<string>)
    ensures Dotted(start, p) == PathText([start] + p)
    ensures start == "" ==> Dotted(start, p) == PathText(p)
    decreases |p|
  {
    assert ([start] + p)[1..] == p;
    if p == [] {
      assert [start] + p == [start];
    } else {
      DottedIs(JoinPath(start, p[0]), p[1..]);
      assert [p[0]] + p[1..] == p;
      if start != "" {
        JoinFirst(start, p[0], p[1..], ".");
        assert [start, p[0]] + p[1..] == [start] + p;
      }
    }
  }

  /** No object on the way to the end of `p`, the end included, is a declared map field. */
  predicate OutsideMaps(start: string, p: seq<string>, mapFields: set<string>)
    decreases |p|
  {
    p == [] || (JoinPath(start, p[0]) !in mapFields && OutsideMaps(JoinPath(start, p[0]), p[1..], mapFields))
  }

  predicate Scalar(v: Value) { !v.Null? && !v.Obj? }

  /** A file that passed the checks replaces a non-null leaf exactly when it gives one. */
  lemma {:induction false} MergedAt(current: Value, overlay: Value, p: seq<string>)
    requires At(current, p).Some? && Scalar(At(current, p).value)
    requires !Incompatible(current, overlay) && !overlay.Null?
    ensures At(Merged(current, overlay), p) == Some(Or(Given(overlay, p), At(current, p).value))
    ensures Scalar(Or(Given(overlay, p), At(current, p).value))
    decreases |p|
  {
    if p != [] {
      var k := p[0];
      if k in overlay.fields {
        assert Given(overlay, p) == Given(overlay.fields[k], p[1..]);
      }
      if k in overlay.fields && !overlay.fields[k].Null? {
        MergedAt(current.fields[k], overlay.fields[k], p[1..]);
      }
    }
  }

  /** The environment replaces a leaf outside declared map fields exactly when it names it, an
      empty text for an array aside. */
  lemma {:induction false} EnvAt(value: Value, prefix: string, env: Environment, start: string, schema: Schema,
                                 p: seq<string>)
    requires p != [] && At(value, p).Some? && !At(value, p).value.Obj?
    requires OutsideMaps(start, p, schema.mapFields)
    requires EnvApplied(value, prefix, env, start, schema).Some?
    ensures var leaf := At(value, p).value;
      var key := EnvName(prefix, p);
      At(EnvApplied(value, prefix, env, start, schema).value, p) ==
      if key in env && !(env[key] == "" && leaf.Arr?) then ParseEnv(env[key], leaf, Dotted(start, p), schema)
      else Some(leaf)
    decreases |p|
  {
    var k := p[0];
    var field, child, key := value.fields[k], JoinPath(start, k), EnvKey(prefix, k);
    assert EnvField(field, key, env, child, schema).Some?;
    if |p| == 1 {
      assert p[1..] == [];
    } else {
      EnvAt(field, key, env, child, schema, p[1..]);
    }
  }

  /** The environment gives this leaf a text that cannot be read as it. */
  ghost predicate Unreadable(value: Value, prefix: string, env: Environment, start: string, schema: Schema,
                             p: seq<string>) {
    && p != [] && At(value, p).Some? && !At(value, p).value.Obj? && OutsideMaps(start, p, schema.mapFields)
    && var leaf, key := At(value, p).value, EnvName(prefix, p);
    && key in env && !(env[key] == "" && leaf.Arr?)
    && ParseEnv(env[key], leaf, Dotted(start, p), schema).None?
  }

  lemma UnreadableBelow(value: Value, prefix: string, env: Environment, start: string, schema: Schema, p: seq<string>)
    requires value.Obj? && p != [] && p[0] in value.fields
    ensures var k := p[0];
      var field, child, key := value.fields[k], JoinPath(start, k), EnvKey(prefix, k);
      Unreadable(value, prefix, env, start, schema, p) <==>
      child !in schema.mapFields &&
      if field.Obj? then Unreadable(field, key, env, child, schema, p[1..])
      else p[1..] == [] && EnvField(field, key, env, child, schema).None?
  {
    hide ParseEnv, EnvKey, JoinPath;
    var k, rest := p[0], p[1..];
    var field, child, key := value.fields[k], JoinPath(start, k), EnvKey(prefix, k);
    assert At(value, p) == At(field, rest);
    assert EnvName(prefix, p) == EnvName(key, rest) && Dotted(start, p) == Dotted(child, rest);
    assert OutsideMaps(start, p, schema.mapFields) <==>
      child !in schema.mapFields && OutsideMaps(child, rest, schema.mapFields);
    if rest == [] {
      assert At(field, rest) == Some(field) && EnvName(key, rest) == key && Dotted(child, rest) == child;
    }
  }

  /** The environment is refused exactly for a leaf outside declared map fields whose text cannot be
      read as it. */
  lemma {:induction false} EnvFailsIff(value: Value, prefix: string, env: Environment, start: string, schema: Schema)
    ensures EnvApplied(value, prefix, env, start, schema).None? <==>
            exists p :: Unreadable(value, prefix, env, start, schema, p)
    decreases value
  {
    hide Unreadable, ParseEnv;
    if value.Obj? {
      if EnvApplied(value, prefix, env, start, schema).None? {
        var k :| k in value.fields
          && EnvField(value.fields[k], EnvKey(prefix, k), env, JoinPath(start, k), schema).None?;
        var field, child, key := value.fields[k], JoinPath(start, k), EnvKey(prefix, k);
        var rest: seq<string> := [];
        if field.Obj? {
          EnvFailsIff(field, key, env, child, schema);
          rest :| Unreadable(field, key, env, child, schema, rest);
        }
        assert ([k] + rest)[1..] == rest;
        UnreadableBelow(value, prefix, env, start, schema, [k] + rest);
      }
      if p :| Unreadable(value, prefix, env, start, schema, p) {
        AtFirstKey(value, prefix, env, start, schema, p);
        var k := p[0];
        var field, child, key := value.fields[k], JoinPath(start, k), EnvKey(prefix, k);
        UnreadableBelow(value, prefix, env, start, schema, p);
        if field.Obj? { EnvFailsIff(field, key, env, child, schema); }
        assert EnvField(field, key, env, child, schema).None?;
      }
    } else {
      forall p ensures !Unreadable(value, prefix, env, start, schema, p) {
        if Unreadable(value, prefix, env, start, schema, p) { AtFirstKey(value, prefix, env, start, schema, p); }
      }
    }
  }

  lemma AtFirstKey(value: Value, prefix: string, env: Environment, start: string, schema: Schema, p: seq<string>)
    requires Unreadable(value, prefix, env, start, schema, p)
    ensures value.Obj? && p != [] && p[0] in value.fields
  {
  }

  /** Precedence: after a successful load, every non-null leaf of the defaults holds its environment
      value, else the project file's, else the global file's, else its default. */
  lemma Precedence(defaults: Value, globalFile: Option<Value>, project: Option<Value>, prefix: string,
                   env: Environment, schema: Schema, p: seq<string>, key: string)
    requires p != [] && IsVariable(key, prefix, p)
    requires At(defaults, p).Some? && Scalar(At(defaults, p).value)
    requires OutsideMaps("", p, schema.mapFields)
    requires globalFile.Some? ==> globalFile.value.Obj?
    requires project.Some? ==> project.value.Obj?
    requires Load(defaults, globalFile, project, prefix, env, schema).Ok?
    ensures var config := Load(defaults, globalFile, project, prefix, env, schema).config;
      var layered := Or(GivenBy(project, p), Or(GivenBy(globalFile, p), At(defaults, p).value));
      At(config, p) ==
      if key in env && !(env[key] == "" && layered.Arr?) then ParseEnv(env[key], layered, PathText(p), schema)
      else Some(layered)
  {
    hide EnvApplied, Merged, Incompatible, MentionsMap, ParseEnv, Given;
    var first := WithFile(defaults, globalFile, schema).config;
    if globalFile.Some? { MergedAt(defaults, globalFile.value, p); }
    var second := WithFile(first, project, schema).config;
    if project.Some? { MergedAt(first, project.value, p); }
    EnvAt(second, prefix, env, "", schema, p);
    EnvNameIff(prefix, p, key);
    DottedIs("", p);
  }

  // ---------- Shape ----------

  /** Wherever `v` has an object reached through objects, so does `w`, with the same keys. */
  predicate SameShape(v: Value, w: Value) {
    v.Obj? ==>
      w.Obj? && w.fields.Keys == v.fields.Keys && forall k :: k in v.fields ==> SameShape(v.fields[k], w.fields[k])
  }

  lemma {:induction false} SameShapeTransitive(u: Value, v: Value, w: Value)
    requires SameShape(u, v) && SameShape(v, w)
    ensures SameShape(u, w)
    decreases u
  {
    if u.Obj? {
      forall k | k in u.fields ensures SameShape(u.fields[k], w.fields[k]) {
        SameShapeTransitive(u.fields[k], v.fields[k], w.fields[k]);
      }
    }
  }

  lemma {:induction false} SameShapeSelf(v: Value)
    ensures SameShape(v, v)
  {
    if v.Obj? {
      forall k | k in v.fields ensures SameShape(v.fields[k], v.fields[k]) { SameShapeSelf(v.fields[k]); }
    }
  }

  lemma {:induction false} MergedShape(current: Value, overlay: Value)
    requires !Incompatible(current, overlay) && !overlay.Null?
    ensures SameShape(current, Merged(current, overlay))
    decreases current
  {
    if current.Obj? {
      forall k | k in current.fields ensures SameShape(current.fields[k], Merged(current, overlay).fields[k]) {
        if k in overlay.fields && !overlay.fields[k].Null? {
          MergedShape(current.fields[k], overlay.fields[k]);
        } else {
          SameShapeSelf(current.fields[k]);
        }
      }
    }
  }

  lemma {:induction false} EnvShape(value: Value, prefix: string, env: Environment, start: string, schema: Schema)
    requires EnvApplied(value, prefix, env, start, schema).Some?
    ensures SameShape(value, EnvApplied(value, prefix, env, start, schema).value)
    decreases value
  {
    if value.Obj? {
      var after := EnvApplied(value, prefix, env, start, schema).value;
      forall k | k in value.fields ensures SameShape(value.fields[k], after.fields[k]) {
        var field, child, key := value.fields[k], JoinPath(start, k), EnvKey(prefix, k);
        assert EnvField(field, key, env, child, schema).Some?;
        if child in schema.mapFields {
          SameShapeSelf(field);
        } else if field.Obj? {
          EnvShape(field, key, env, child, schema);
        }
      }
    }
  }

  /** No layer adds or removes a key of an object that the defaults have. */
  lemma ShapeKept(defaults: Value, globalFile: Option<Value>, project: Option<Value>, prefix: string,
                  env: Environment, schema: Schema)
    requires globalFile.Some? ==> globalFile.value.Obj?
    requires project.Some? ==> project.value.Obj?
    requires Load(defaults, globalFile, project, prefix, env, schema).Ok?
    ensures SameShape(defaults, Load(defaults, globalFile, project, prefix, env, schema).config)
  {
    hide EnvApplied, Merged, Incompatible, MentionsMap, SameShape;
    var first := WithFile(defaults, globalFile, schema).config;
    SameShapeSelf(defaults);
    if globalFile.Some? { MergedShape(defaults, globalFile.value); }
    var second := WithFile(first, project, schema).config;
    SameShapeSelf(first);
    if project.Some? { MergedShape(first, project.value); }
    EnvShape(second, prefix, env, "", schema);
    SameShapeTransitive(defaults, first, second);
    SameShapeTransitive(defaults, second, Load(defaults, globalFile, project, prefix, env, schema).config);
  }

  // ---------- Declared map fields ----------

  /** `p` leads to a declared map field through objects that are not. */
  predicate LeadsToMap(start: string, p: seq<string>, mapFields: set<string>)
    decreases |p|
  {
    p != [] &&
    if |p| == 1 then JoinPath(start, p[0]) in mapFields
    else JoinPath(start, p[0]) !in mapFields && LeadsToMap(JoinPath(start, p[0]), p[1..], mapFields)
  }

  lemma {:induction false} MergedKeepsMap(current: Value, overlay: Value, start: string, schema: Schema, p: seq<string>)
    requires LeadsToMap(start, p, schema.mapFields) && At(current, p).Some? && !overlay.Null?
    requires !MentionsMap(current, overlay, start, schema.mapFields) && !Incompatible(current, overlay)
    ensures At(Merged(current, overlay), p) == At(current, p)
    decreases |p|
  {
    var k := p[0];
    if |p| > 1 && k in overlay.fields && !overlay.fields[k].Null? {
      MergedKeepsMap(current.fields[k], overlay.fields[k], JoinPath(start, k), schema, p[1..]);
    }
  }

  lemma {:induction false} EnvKeepsMap(value: Value, prefix: string, env: Environment, start: string, schema: Schema,
                                       p: seq<string>)
    requires LeadsToMap(start, p, schema.mapFields) && At(value, p).Some?
    requires EnvApplied(value, prefix, env, start, schema).Some?
    ensures At(EnvApplied(value, prefix, env, start, schema).value, p) == At(value, p)
    decreases |p|
  {
    var k := p[0];
    var field, child, key := value.fields[k], JoinPath(start, k), EnvKey(prefix, k);
    assert EnvField(field, key, env, child, schema).Some?;
    if |p| > 1 { EnvKeepsMap(field, key, env, child, schema, p[1..]); }
  }

  /** A declared map field keeps its default through every layer. */
  lemma MapFieldsKept(defaults: Value, globalFile: Option<Value>, project: Option<Value>, prefix: string,
                      env: Environment, schema: Schema, p: seq<string>)
    requires LeadsToMap("", p, schema.mapFields) && At(defaults, p).Some?
    requires globalFile.Some? ==> globalFile.value.Obj?
    requires project.Some? ==> project.value.Obj?
    requires Load(defaults, globalFile, project, prefix, env, schema).Ok?
    ensures At(Load(defaults, globalFile, project, prefix, env, schema).config, p) == At(defaults, p)
  {
    hide EnvApplied, Merged, Incompatible, MentionsMap, LeadsToMap, At;
    var first := WithFile(defaults, globalFile, schema).config;
    if globalFile.Some? { MergedKeepsMap(defaults, globalFile.value, "", schema, p); }
    var second := WithFile(first, project, schema).config;
    if project.Some? { MergedKeepsMap(first, project.value, "", schema, p); }
    EnvKeepsMap(second, prefix, env, "", schema, p);
  }
}
