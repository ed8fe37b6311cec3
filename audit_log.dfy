/** `log_event` of `print.py`: the `_sanitize` recursion, the one-object
    JSON line it builds, and the append to the JSON-lines log file. */
module AuditLog {
  import opened Wrappers
  import opened Text
  import opened Json

  /** `_sanitize`: line breaks in every string value, at any depth, become
      spaces; dictionary keys and non-string scalars are left alone. */
  function Sanitize(v: Json): (r: Json)
    decreases v
    ensures r.JObj? <==> v.JObj?
    ensures r.JObj? ==> Keys(r.fields) == Keys(v.fields)
    ensures r.JArr? <==> v.JArr?
    ensures r.JArr? ==> |r.items| == |v.items|
  {
    match v
    case JStr(s) => JStr(CollapseBreaks(s))
    case JArr(items) => JArr(SanitizeItems(items))
    case JObj(fields) => JObj(SanitizeFields(fields))
    case _ => v
  }

  function SanitizeItems(items: seq<Json>): (r: seq<Json>)
    decreases items
    ensures |r| == |items|
  {
    if items == [] then [] else [Sanitize(items[0])] + SanitizeItems(items[1..])
  }

  function SanitizeFields(fields: seq<Field>): (r: seq<Field>)
    decreases fields
    ensures Keys(r) == Keys(fields)
  {
    if fields == [] then []
    else [Field(fields[0].key, Sanitize(fields[0].value))] + SanitizeFields(fields[1..])
  }

  /** No string value anywhere inside `v` holds a line break (keys are not
      looked at, as `_sanitize` does not touch them). */
  predicate Clean(v: Json) decreases v {
    match v
    case JStr(s) => NoBreaks(s)
    case JArr(items) => CleanItems(items)
    case JObj(fields) => CleanFields(fields)
    case _ => true
  }

  predicate CleanItems(items: seq<Json>) decreases items {
    items == [] || (Clean(items[0]) && CleanItems(items[1..]))
  }

  predicate CleanFields(fields: seq<Field>) decreases fields {
    fields == [] || (Clean(fields[0].value) && CleanFields(fields[1..]))
  }

  /** After `_sanitize` no string inside the value holds `\n` or `\r`. */
  lemma {:induction false} SanitizeClean(v: Json)
    decreases v
    ensures Clean(Sanitize(v))
  {
    match v
    case JStr(s) =>
    case JArr(items) => SanitizeItemsClean(items);
    case JObj(fields) => SanitizeFieldsClean(fields);
    case _ =>
  }

  lemma {:induction false} SanitizeItemsClean(items: seq<Json>)
    decreases items
    ensures CleanItems(SanitizeItems(items))
  {
    if items != [] {
      SanitizeClean(items[0]);
      SanitizeItemsClean(items[1..]);
    }
  }

  lemma {:induction false} SanitizeFieldsClean(fields: seq<Field>)
    decreases fields
    ensures CleanFields(SanitizeFields(fields))
  {
    if fields != [] {
      SanitizeClean(fields[0].value);
      SanitizeFieldsClean(fields[1..]);
    }
  }

  /** A value that is already clean is left exactly as it is, so
      `_sanitize` is idempotent. */
  lemma {:induction false} SanitizeKeepsClean(v: Json)
    decreases v
    requires Clean(v)
    ensures Sanitize(v) == v
  {
    match v
    case JStr(s) =>
      assert CollapseBreaks(s) == s;
    case JArr(items) => SanitizeItemsKeepsClean(items);
    case JObj(fields) => SanitizeFieldsKeepsClean(fields);
    case _ =>
  }

  lemma {:induction false} SanitizeItemsKeepsClean(items: seq<Json>)
    decreases items
    requires CleanItems(items)
    ensures SanitizeItems(items) == items
  {
    if items != [] {
      SanitizeKeepsClean(items[0]);
      SanitizeItemsKeepsClean(items[1..]);
    }
  }

  lemma {:induction false} SanitizeFieldsKeepsClean(fields: seq<Field>)
    decreases fields
    requires CleanFields(fields)
    ensures SanitizeFields(fields) == fields
  {
    if fields != [] {
      SanitizeKeepsClean(fields[0].value);
      SanitizeFieldsKeepsClean(fields[1..]);
    }
  }

  lemma SanitizeIdempotent(v: Json)
    ensures Sanitize(Sanitize(v)) == Sanitize(v)
  {
    SanitizeClean(v);
    SanitizeKeepsClean(Sanitize(v));
  }

  /** `_sanitize` keeps a value a Python program can hold. */
  lemma {:induction false} SanitizeWellFormed(v: Json)
    decreases v
    requires WellFormed(v)
    ensures WellFormed(Sanitize(v))
  {
    match v
    case JStr(s) =>
    case JArr(items) => SanitizeItemsWellFormed(items);
    case JObj(fields) =>
      SanitizeFieldsWellFormed(fields);
      var r := SanitizeFields(fields);
      assert forall i :: 0 <= i < |r| ==> r[i].key == Keys(r)[i];
      assert forall i :: 0 <= i < |fields| ==> fields[i].key == Keys(fields)[i];
      SameKeysDistinct(fields, r);
    case _ =>
  }

  lemma {:induction false} SanitizeItemsWellFormed(items: seq<Json>)
    decreases items
    requires WellFormedItems(items)
    ensures WellFormedItems(SanitizeItems(items))
  {
    if items != [] {
      SanitizeWellFormed(items[0]);
      SanitizeItemsWellFormed(items[1..]);
    }
  }

  lemma {:induction false} SanitizeFieldsWellFormed(fields: seq<Field>)
    decreases fields
    requires WellFormedFields(fields)
    ensures WellFormedFields(SanitizeFields(fields))
  {
    if fields != [] {
      SanitizeWellFormed(fields[0].value);
      SanitizeFieldsWellFormed(fields[1..]);
    }
  }

  /** `_sanitize(x) if x is not None else None` */
  function SanitizeOptional(x: Option<Json>): Json {
    match x
    case None => JNull
    case Some(v) => Sanitize(v)
  }

  /** The object `log_event` writes. `event`, `username` and `full_name`
      are written as given, without sanitizing. */
  function EventObject(ts: string, event: string, username: string, fullName: string,
                       system: Option<Json>, codeDirs: Option<Json>): Json
  {
    JObj([
      Field("timestamp", JStr(ts)),
      Field("event", JStr(event)),
      Field("username", JStr(username)),
      Field("full_name", JStr(fullName)),
      Field("system", SanitizeOptional(system)),
      Field("code_dirs", SanitizeOptional(codeDirs))])
  }

  /** The object written instead when the first append fails. */
  function FallbackObject(ts: string): Json {
    JObj([Field("timestamp", JStr(ts)), Field("event", JStr("error_writing_log"))])
  }

  /** `json.dumps(obj, ensure_ascii=False) + "\n"`. */
  function Line(obj: Json): string {
    Dumps(obj) + "\n"
  }

  /** The text appended for an object is one line: it ends with the one
      newline, holds no other line break, and `strip()` of it gives back
      exactly the dumped object. */
  lemma LineIsOneLine(obj: Json)
    ensures |Line(obj)| >= 2 && Line(obj)[|Line(obj)| - 1] == '\n'
    ensures Line(obj)[..|Line(obj)| - 1] == Dumps(obj)
    ensures NoBreaks(Dumps(obj))
    ensures Strip(Line(obj)) == Dumps(obj)
  {
    var d := Dumps(obj);
    DumpsNoBreaks(obj);
    DumpsEdges(obj);
    var l := Line(obj);
    assert l[..|l| - 1] == d;
    assert LStrip(l) == l;
    assert RStrip(l) == RStrip(l[..|l| - 1]);
    StripNoEdges(d);
  }

  /** The event object is a value a Python program can hold when its two
      payloads are. */
  lemma EventObjectWellFormed(ts: string, event: string, username: string, fullName: string,
                              system: Option<Json>, codeDirs: Option<Json>)
    requires system.Some? ==> WellFormed(system.value)
    requires codeDirs.Some? ==> WellFormed(codeDirs.value)
    ensures WellFormed(EventObject(ts, event, username, fullName, system, codeDirs))
  {
    if system.Some? { SanitizeWellFormed(system.value); }
    if codeDirs.Some? { SanitizeWellFormed(codeDirs.value); }
    var obj := EventObject(ts, event, username, fullName, system, codeDirs);
    var fs := obj.fields;
    assert DistinctKeys(fs);
    assert forall i :: 0 <= i < |fs| ==> WellFormed(fs[i].value) by {
      assert WellFormed(SanitizeOptional(system)) && WellFormed(SanitizeOptional(codeDirs));
    }
    WellFormedFieldsAt(fs);
    assert obj == JObj(fs);
  }

  /** Reading a written event line back with `json.loads` after `strip()`
      gives the event object, when `system` and `code_dirs` are values a
      Python program can hold; and the payloads in it are clean. */
  lemma EventLineReadsBack(parse: string -> Option<Json>, ts: string, event: string, username: string,
                           fullName: string, system: Option<Json>, codeDirs: Option<Json>)
    requires IsParser(parse)
    requires system.Some? ==> WellFormed(system.value)
    requires codeDirs.Some? ==> WellFormed(codeDirs.value)
    ensures parse(Strip(Line(EventObject(ts, event, username, fullName, system, codeDirs))))
            == Some(EventObject(ts, event, username, fullName, system, codeDirs))
    ensures Clean(SanitizeOptional(system)) && Clean(SanitizeOptional(codeDirs))
  {
    var obj := EventObject(ts, event, username, fullName, system, codeDirs);
    if system.Some? { SanitizeClean(system.value); }
    if codeDirs.Some? { SanitizeClean(codeDirs.value); }
    EventObjectWellFormed(ts, event, username, fullName, system, codeDirs);
    LineIsOneLine(obj);
  }

  /** How the two attempts to append went. */
  datatype WriteOutcome =
    | Written          // the event line was appended
    | PrimaryFailed    // that raised; the fallback line was appended
    | BothFailed       // both raised; nothing was appended

  /** The JSON-lines log file, as its sequence of lines: the file's text is
      each line followed by `"\n"`. */
  class LogFile {
    var lines: seq<string>

    /** Every element is a single line of text. */
    predicate Valid()
      reads this
    {
      forall i :: 0 <= i < |lines| ==> NoBreaks(lines[i])
    }

    constructor(lines: seq<string>)
      requires forall i :: 0 <= i < |lines| ==> NoBreaks(lines[i])
      ensures this.lines == lines && Valid()
    {
      this.lines := lines;
    }

    /** `log_event`: exactly one line is appended, the event line, or the
        fallback line when the first write fails, or none when both fail;
        earlier lines are untouched and the file stays a list of lines. */
    method LogEvent(event: string, username: string, fullName: string, system: Option<Json>,
                    codeDirs: Option<Json>, now: string, outcome: WriteOutcome)
      requires Valid()
      modifies this
      ensures Valid()
      ensures outcome.Written? ==> lines == old(lines) + [Dumps(EventObject(now, event, username, fullName, system, codeDirs))]
      ensures outcome.PrimaryFailed? ==> lines == old(lines) + [Dumps(FallbackObject(now))]
      ensures outcome.BothFailed? ==> lines == old(lines)
    {
      var obj := EventObject(now, event, username, fullName, system, codeDirs);
      var line := Dumps(obj);
      match outcome {
        case Written =>
          DumpsNoBreaks(obj);
          lines := lines + [line];
        case PrimaryFailed =>
          DumpsNoBreaks(FallbackObject(now));
          lines := lines + [Dumps(FallbackObject(now))];
        case BothFailed =>
      }
    }
  }
}
