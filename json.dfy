/** JSON values as the modelled Python code handles them (`dict`, `list`,
    `str`, `int`, `bool`, `None`), the text `json.dumps(v, ensure_ascii=False)`
    writes for them, and the contract every use of `json.loads` relies on. */
module Json {
  import opened Wrappers
  import opened Text

  /** A Python object as `json.loads` returns it. An object keeps its keys
      in insertion order, as a Python `dict` does. */
  datatype Json =
    | JNull
    | JBool(b: bool)
    | JInt(i: int)
    | JStr(s: string)
    | JArr(items: seq<Json>)
    | JObj(fields: seq<Field>)

  datatype Field = Field(key: string, value: Json)

  /** `{"raw": line}`, the record for a line that is kept verbatim. */
  function Raw(line: string): Json {
    JObj([Field("raw", JStr(line))])
  }

  /** The keys of an object, in order. */
  function Keys(fields: seq<Field>): (r: seq<string>)
    ensures |r| == |fields|
    ensures forall i :: 0 <= i < |fields| ==> r[i] == fields[i].key
  {
    if fields == [] then [] else [fields[0].key] + Keys(fields[1..])
  }

  /** The keys of an object are pairwise distinct, as in a Python `dict`. */
  predicate DistinctKeys(fields: seq<Field>) {
    forall i, j :: 0 <= i < j < |fields| ==> fields[i].key != fields[j].key
  }

  /** A value a Python program can hold: every object, at every depth, has
      distinct keys. `json.loads` only ever returns such values. */
  predicate WellFormed(v: Json) decreases v {
    match v
    case JArr(items) => WellFormedItems(items)
    case JObj(fields) => DistinctKeys(fields) && WellFormedFields(fields)
    case _ => true
  }

  predicate WellFormedItems(items: seq<Json>) decreases items {
    items == [] || (WellFormed(items[0]) && WellFormedItems(items[1..]))
  }

  predicate WellFormedFields(fields: seq<Field>) decreases fields {
    fields == [] || (WellFormed(fields[0].value) && WellFormedFields(fields[1..]))
  }

  /** `obj.get(key)` on an object: the value under `key`, if present. */
  function Get(fields: seq<Field>, key: string): (r: Option<Json>)
    ensures r.Some? <==> exists i :: 0 <= i < |fields| && fields[i].key == key
    ensures r.Some? ==> exists i :: 0 <= i < |fields| && fields[i].key == key && fields[i].value == r.value
  {
    if fields == [] then None
    else if fields[0].key == key then Some(fields[0].value)
    else
      var r := Get(fields[1..], key);
      assert forall i :: 1 <= i < |fields| ==> fields[i] == fields[1..][i - 1];
      r
  }

  // ---------------------------------------------------------------------------
  // json.dumps(v, ensure_ascii=False)
  // ---------------------------------------------------------------------------

  /** The hexadecimal digit Python's encoder uses in `\u00XX` escapes. */
  function LowerHexDigit(d: nat): char
    requires d < 16
  {
    "0123456789abcdef"[d]
  }

  /** The escape `json.dumps` writes for one character of a string
      (`ESCAPE_DCT` of the standard `json.encoder`; other characters,
      including every non-ASCII one, are written as they are). */
  function EscapeChar(c: char): (r: string)
    ensures |r| >= 1
    ensures '\n' !in r && '\r' !in r
  {
    if c == '"' then "\\\""
    else if c == '\\' then "\\\\"
    else if c == '\n' then "\\n"
    else if c == '\r' then "\\r"
    else if c == '\t' then "\\t"
    else if c == '\U{08}' then "\\b"
    else if c == '\U{0C}' then "\\f"
    else if c < ' ' then "\\u00" + [LowerHexDigit(c as int / 16), LowerHexDigit(c as int % 16)]
    else [c]
  }

  function Escape(s: string): (r: string)
    ensures '\n' !in r && '\r' !in r
  {
    if s == [] then [] else EscapeChar(s[0]) + Escape(s[1..])
  }

  /** A string literal as `json.dumps` writes it. */
  function Quote(s: string): string {
    "\"" + Escape(s) + "\""
  }

  /** `json.dumps(v, ensure_ascii=False)`, with the default separators
      `", "` and `": "`. */
  function Dumps(v: Json): string
    decreases v
  {
    match v
    case JNull => "null"
    case JBool(b) => if b then "true" else "false"
    case JInt(i) => IntToString(i)
    case JStr(s) => Quote(s)
    case JArr(items) => "[" + DumpItems(items) + "]"
    case JObj(fields) => "{" + DumpFields(fields) + "}"
  }

  function DumpItems(items: seq<Json>): string
    decreases items
  {
    if items == [] then ""
    else if |items| == 1 then Dumps(items[0])
    else Dumps(items[0]) + ", " + DumpItems(items[1..])
  }

  function DumpFields(fields: seq<Field>): string
    decreases fields
  {
    if fields == [] then ""
    else if |fields| == 1 then Quote(fields[0].key) + ": " + Dumps(fields[0].value)
    else Quote(fields[0].key) + ": " + Dumps(fields[0].value) + ", " + DumpFields(fields[1..])
  }

  /** `json.dumps` never writes a raw line break: breaks inside strings
      are escaped, and the separators hold none. So one value is one line. */
  lemma {:induction false} DumpsNoBreaks(v: Json)
    decreases v
    ensures '\n' !in Dumps(v) && '\r' !in Dumps(v)
  {
    match v
    case JNull =>
    case JBool(_) =>
    case JInt(i) => IntNoBreaks(i);
    case JStr(_) =>
    case JArr(items) => DumpItemsNoBreaks(items);
    case JObj(fields) => DumpFieldsNoBreaks(fields);
  }

  lemma {:induction false} DumpItemsNoBreaks(items: seq<Json>)
    decreases items
    ensures '\n' !in DumpItems(items) && '\r' !in DumpItems(items)
  {
    if items != [] {
      DumpsNoBreaks(items[0]);
      if |items| > 1 {
        DumpItemsNoBreaks(items[1..]);
      }
    }
  }

  lemma {:induction false} DumpFieldsNoBreaks(fields: seq<Field>)
    decreases fields
    ensures '\n' !in DumpFields(fields) && '\r' !in DumpFields(fields)
  {
    if fields != [] {
      DumpsNoBreaks(fields[0].value);
      if |fields| > 1 {
        DumpFieldsNoBreaks(fields[1..]);
      }
    }
  }

  lemma IntNoBreaks(i: int)
    ensures '\n' !in IntToString(i) && '\r' !in IntToString(i)
  {
    if i >= 0 {
      assert forall k :: 0 <= k < |NatToString(i)| ==> '0' <= NatToString(i)[k] <= '9';
    } else {
      var t := NatToString(-i);
      assert IntToString(i) == "-" + t;
      assert forall k :: 0 <= k < |t| ==> '0' <= t[k] <= '9';
    }
  }

  /** The first and last characters `json.dumps` writes are never
      whitespace, so `line.strip()` leaves a dumped line as it is and a
      dumped line is never blank. */
  lemma DumpsEdges(v: Json)
    ensures Dumps(v) != []
    ensures !IsSpace(Dumps(v)[0]) && !IsSpace(Dumps(v)[|Dumps(v)| - 1])
  {
    var d := Dumps(v);
    match v
    case JNull =>
    case JBool(_) =>
    case JInt(i) =>
    case JStr(s) =>
      assert d == "\"" + Escape(s) + "\"";
    case JArr(items) =>
      assert d == "[" + DumpItems(items) + "]";
    case JObj(fields) =>
      assert d == "{" + DumpFields(fields) + "}";
  }

  /** `line.strip()` of a dumped value is the dumped value. */
  lemma StripDumps(v: Json)
    ensures Strip(Dumps(v)) == Dumps(v)
  {
    DumpsEdges(v);
    StripNoEdges(Dumps(v));
  }

  // ---------------------------------------------------------------------------
  // json.loads
  // ---------------------------------------------------------------------------

  /** What the modelled code relies on from `json.loads`, given as a
      parameter `parse` (`None` where `loads` raises): it reads back every
      value `json.dumps` wrote, and it only returns values a Python program
      can hold. */
  ghost predicate IsParser(parse: string -> Option<Json>) {
    && (forall v :: WellFormed(v) ==> parse(Dumps(v)) == Some(v))
    && (forall s :: parse(s).Some? ==> WellFormed(parse(s).value))
  }

  /** A JSON-lines file: `json.dumps(ev, ensure_ascii=False)` of each
      event, one per line. */
  function DumpLines(events: seq<Json>): seq<string> {
    seq(|events|, k requires 0 <= k < |events| => Dumps(events[k]))
  }

  // ---------------------------------------------------------------------------
  // Rebuilding objects field by field
  // ---------------------------------------------------------------------------

  /** Replacing field values one for one keeps the keys, hence their
      distinctness. */
  lemma SameKeysDistinct(a: seq<Field>, b: seq<Field>)
    requires |a| == |b| && forall i :: 0 <= i < |a| ==> a[i].key == b[i].key
    requires DistinctKeys(a)
    ensures DistinctKeys(b)
  {
  }

  /** Field-by-field characterisation of `WellFormedFields`. */
  lemma {:induction false} WellFormedFieldsAt(fields: seq<Field>)
    decreases fields
    ensures WellFormedFields(fields) <==> forall i :: 0 <= i < |fields| ==> WellFormed(fields[i].value)
  {
    if fields != [] {
      WellFormedFieldsAt(fields[1..]);
      assert forall i :: 1 <= i < |fields| ==> fields[i] == fields[1..][i - 1];
    }
  }

  /** Item-by-item characterisation of `WellFormedItems`. */
  lemma {:induction false} WellFormedItemsAt(items: seq<Json>)
    decreases items
    ensures WellFormedItems(items) <==> forall i :: 0 <= i < |items| ==> WellFormed(items[i])
  {
    if items != [] {
      WellFormedItemsAt(items[1..]);
      assert forall i :: 1 <= i < |items| ==> items[i] == items[1..][i - 1];
    }
  }
}
