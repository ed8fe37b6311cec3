/** `normalize_jsonlines` of `print.py`: one pass over a JSON-lines log that
    removes line breaks from the name fields and from the top-level strings
    of `system`, and the hyphen the old header format left on `event`. */
module LogNormalizer {
  import opened Wrappers
  import opened Text
  import opened Json

  /** The top-level fields whose string values are cleaned, in the order
      they are visited. */
  const NameKeys: seq<string> := ["event", "username", "full_name"]

  /** `v.replace("\n", " ").replace("\r", " ").strip()` */
  function CleanText(s: string): string {
    Strip(CollapseBreaks(s))
  }

  /** A name field after cleaning: the cleaned text, and when that starts
      with `-`, without any of its leading hyphens and spaces
      (`lstrip("- ")`). */
  function CleanName(s: string): string {
    var t := CleanText(s);
    if StartsWith(t, "-") then LStripChars(t, {'-', ' '}) else t
  }

  /** Text with no line break and no whitespace at either end. */
  predicate TextClean(s: string) {
    NoBreaks(s) && (s == [] || (!IsSpace(s[0]) && !IsSpace(s[|s| - 1])))
  }

  /** A cleaned name: no line break, no leading hyphen or space, no
      trailing whitespace. */
  predicate NameClean(s: string) {
    NoBreaks(s) && (s == [] || (s[0] != '-' && s[0] != ' ' && !IsSpace(s[|s| - 1])))
  }

  /** The cleaned text has no line break and no whitespace at its ends. */
  lemma CleanTextClean(s: string)
    ensures TextClean(CleanText(s))
  {
    var c := CollapseBreaks(s);
    StripShape(c);
    NoBreaksSlice(c, |c| - |LStrip(c)|, |c| - |LStrip(c)| + |Strip(c)|);
  }

  /** Clean text is left as it is. */
  lemma CleanTextFixed(s: string)
    requires TextClean(s)
    ensures CleanText(s) == s
  {
    assert CollapseBreaks(s) == s;
    StripNoEdges(s);
  }

  /** Cleaning text is idempotent. */
  lemma CleanTextIdempotent(s: string)
    ensures CleanText(CleanText(s)) == CleanText(s)
  {
    CleanTextClean(s);
    CleanTextFixed(CleanText(s));
  }

  /** A cleaned name field is clean: no line break, no leading `-` or
      space, no trailing whitespace. */
  lemma CleanNameClean(s: string)
    ensures NameClean(CleanName(s))
  {
    var t := CleanText(s);
    CleanTextClean(s);
    if StartsWith(t, "-") {
      var r := LStripChars(t, {'-', ' '});
      LStripCharsShape(t, {'-', ' '});
      NoBreaksSlice(t, |t| - |r|, |t|);
      if r != [] {
        assert r[|r| - 1] == t[|t| - 1];
      }
    } else if t != [] {
      assert t[0] != '-';
    }
  }

  /** A clean name that does not start with whitespace is left as it is. */
  lemma CleanNameFixed(s: string)
    requires NameClean(s)
    requires s == [] || !IsSpace(s[0])
    ensures CleanName(s) == s
  {
    CleanTextFixed(s);
  }

  /** The second pass changes a name field only when the first left it
      starting with whitespace, which happens when whitespace other than a
      space followed the hyphen. */
  lemma CleanNameIdempotent(s: string)
    requires CleanName(s) == [] || !IsSpace(CleanName(s)[0])
    ensures CleanName(CleanName(s)) == CleanName(s)
  {
    CleanNameClean(s);
    CleanNameFixed(CleanName(s));
  }

  /** `"-\tx"` is cleaned to `"\tx"`, and only a second pass gives `"x"`. */
  lemma CleanNameNeedsSecondPass()
    ensures CleanName("-\tx") == "\tx"
    ensures CleanName("\tx") == "x"
  {
    assert CollapseBreaks("-\tx") == "-\tx";
    assert LStrip("-\tx") == "-\tx";
    assert RStrip("-\tx") == "-\tx";
    assert LStripChars("\tx", {'-', ' '}) == "\tx";
    assert LStripChars("-\tx", {'-', ' '}) == "\tx";
    assert CollapseBreaks("\tx") == "\tx";
    assert LStrip("\tx") == LStrip("x") == "x";
    assert RStrip("x") == "x";
  }

  // ---------------------------------------------------------------------------
  // One object
  // ---------------------------------------------------------------------------

  /** `system` after cleaning: every string value cleaned, the keys and the
      other values as they were. */
  function CleanSystem(fields: seq<Field>): (r: seq<Field>)
    ensures |r| == |fields|
    ensures forall i :: 0 <= i < |fields| ==> r[i].key == fields[i].key
    ensures forall i :: 0 <= i < |fields| && !fields[i].value.JStr? ==> r[i] == fields[i]
    ensures forall i :: 0 <= i < |fields| && fields[i].value.JStr? ==> r[i].value == JStr(CleanText(fields[i].value.s))
  {
    seq(|fields|, i requires 0 <= i < |fields| =>
      if fields[i].value.JStr? then Field(fields[i].key, JStr(CleanText(fields[i].value.s))) else fields[i])
  }

  /** `if key in obj and isinstance(obj[key], str): obj[key] = ...` for one
      name key. */
  function CleanKey(fields: seq<Field>, key: string): seq<Field> {
    seq(|fields|, i requires 0 <= i < |fields| =>
      if fields[i].key == key && fields[i].value.JStr? then Field(key, JStr(CleanName(fields[i].value.s))) else fields[i])
  }

  /** The name keys `keys` cleaned one after another. */
  function CleanKeys(fields: seq<Field>, keys: seq<string>): seq<Field>
    decreases |keys|
  {
    if keys == [] then fields else CleanKey(CleanKeys(fields, keys[..|keys| - 1]), keys[|keys| - 1])
  }

  /** `if isinstance(obj.get("system"), dict): ...` */
  function CleanSystemField(fields: seq<Field>): seq<Field> {
    seq(|fields|, i requires 0 <= i < |fields| =>
      if fields[i].key == "system" && fields[i].value.JObj? then Field("system", JObj(CleanSystem(fields[i].value.fields))) else fields[i])
  }

  /** The object written for a line that parses to an object. */
  function NormalizeObject(fields: seq<Field>): seq<Field> {
    CleanSystemField(CleanKeys(fields, NameKeys))
  }

  /** What happens to one field of the object, independently of the others:
      a name field holding a string gets `CleanName`, a `system` object gets
      its strings cleaned, anything else is kept. */
  function NormalizeField(f: Field): Field {
    if f.key in NameKeys && f.value.JStr? then Field(f.key, JStr(CleanName(f.value.s)))
    else if f.key == "system" && f.value.JObj? then Field("system", JObj(CleanSystem(f.value.fields)))
    else f
  }

  lemma {:induction false} CleanKeysAt(fields: seq<Field>, keys: seq<string>)
    requires forall a, b :: 0 <= a < b < |keys| ==> keys[a] != keys[b]
    decreases |keys|
    ensures |CleanKeys(fields, keys)| == |fields|
    ensures forall i :: 0 <= i < |fields| ==>
      CleanKeys(fields, keys)[i] == (if fields[i].key in keys && fields[i].value.JStr? then Field(fields[i].key, JStr(CleanName(fields[i].value.s))) else fields[i])
  {
    if keys != [] {
      var init := keys[..|keys| - 1];
      CleanKeysAt(fields, init);
      forall i | 0 <= i < |fields|
        ensures fields[i].key in keys <==> fields[i].key in init || fields[i].key == keys[|keys| - 1]
      {
        assert keys == init + [keys[|keys| - 1]];
      }
    }
  }

  /** The object is normalized field by field: the pass visits the keys in
      turn, but each field's new value depends on that field alone. */
  lemma NormalizeObjectFieldwise(fields: seq<Field>)
    ensures |NormalizeObject(fields)| == |fields|
    ensures forall i :: 0 <= i < |fields| ==> NormalizeObject(fields)[i] == NormalizeField(fields[i])
  {
    CleanKeysAt(fields, NameKeys);
  }

  /** Normalizing keeps the keys, so an object keeps its distinct keys. */
  lemma NormalizeObjectKeys(fields: seq<Field>)
    ensures Keys(NormalizeObject(fields)) == Keys(fields)
  {
    NormalizeObjectFieldwise(fields);
  }

  /** A field of the normalized object is clean: a name string satisfies
      `NameClean`, and every top-level string of a `system` object
      satisfies `TextClean`. */
  predicate FieldClean(f: Field) {
    && (f.key in NameKeys && f.value.JStr? ==> NameClean(f.value.s))
    && (f.key == "system" && f.value.JObj? ==>
          forall j :: 0 <= j < |f.value.fields| && f.value.fields[j].value.JStr? ==> TextClean(f.value.fields[j].value.s))
  }

  lemma NormalizeFieldClean(f: Field)
    ensures FieldClean(NormalizeField(f))
  {
    if f.key in NameKeys && f.value.JStr? {
      CleanNameClean(f.value.s);
    } else if f.key == "system" && f.value.JObj? {
      forall j | 0 <= j < |f.value.fields| && f.value.fields[j].value.JStr?
        ensures TextClean(CleanText(f.value.fields[j].value.s))
      {
        CleanTextClean(f.value.fields[j].value.s);
      }
    }
  }

  // ---------------------------------------------------------------------------
  // Lines and the file
  // ---------------------------------------------------------------------------

  /** What a stripped, non-blank line becomes: the normalized object when
      it parses to an object, and `{"raw": line}` when it does not parse or
      parses to anything else (`key in obj` or `obj.get` then raises). */
  function NormalizeLine(line: string, parse: string -> Option<Json>): Json {
    match parse(line)
    case Some(JObj(fields)) => JObj(NormalizeObject(fields))
    case _ => Raw(line)
  }

  /** The events written for the lines from `i` on: one per non-blank
      line, in order. */
  function NormalizeFrom(lines: seq<string>, parse: string -> Option<Json>, i: nat): (r: seq<Json>)
    requires i <= |lines|
    decreases |lines| - i
    ensures |r| == NonBlankFrom(lines, i)
  {
    if i == |lines| then []
    else if Strip(lines[i]) == [] then NormalizeFrom(lines, parse, i + 1)
    else [NormalizeLine(Strip(lines[i]), parse)] + NormalizeFrom(lines, parse, i + 1)
  }

  function Normalize(lines: seq<string>, parse: string -> Option<Json>): (r: seq<Json>)
    ensures |r| == NonBlankFrom(lines, 0)
  {
    NormalizeFrom(lines, parse, 0)
  }

  /** The `for k, v in list(obj["system"].items())` loop. */
  method CleanSystemFields(sys: seq<Field>) returns (out: seq<Field>)
    ensures out == CleanSystem(sys)
  {
    out := sys;
    var i := 0;
    while i < |sys|
      invariant 0 <= i <= |sys| && |out| == |sys|
      invariant forall k :: 0 <= k < i ==> out[k] == CleanSystem(sys)[k]
      invariant forall k :: i <= k < |sys| ==> out[k] == sys[k]
    {
      if out[i].value.JStr? {
        out := out[i := Field(out[i].key, JStr(CleanText(out[i].value.s)))];
      }
      i := i + 1;
    }
  }

  /** The `for key in ("event", "username", "full_name")` loop. */
  method CleanNameFields(fields: seq<Field>) returns (out: seq<Field>)
    ensures out == CleanKeys(fields, NameKeys)
  {
    out := fields;
    for n := 0 to |NameKeys|
      invariant out == CleanKeys(fields, NameKeys[..n])
    {
      assert NameKeys[..n + 1][..n] == NameKeys[..n];
      out := CleanKey(out, NameKeys[n]);
    }
    assert NameKeys[..|NameKeys|] == NameKeys;
  }

  /** The update of `obj["system"]` when it is an object. */
  method CleanSystemEntry(fields: seq<Field>) returns (out: seq<Field>)
    ensures out == CleanSystemField(fields)
  {
    out := fields;
    var i := 0;
    while i < |fields|
      invariant 0 <= i <= |fields| && |out| == |fields|
      invariant forall k :: 0 <= k < i ==> out[k] == CleanSystemField(fields)[k]
      invariant forall k :: i <= k < |fields| ==> out[k] == fields[k]
    {
      if fields[i].key == "system" && fields[i].value.JObj? {
        var sys := CleanSystemFields(fields[i].value.fields);
        out := out[i := Field("system", JObj(sys))];
      }
      i := i + 1;
    }
  }

  /** The updates `normalize_jsonlines` makes to one parsed object. */
  method NormalizeRecord(fields: seq<Field>) returns (out: seq<Field>)
    ensures out == NormalizeObject(fields)
  {
    out := CleanNameFields(fields);
    out := CleanSystemEntry(out);
  }

  /** The body of the loop over the lines, for line `i`: the events it
      appends. */
  method NormalizeLineAt(lines: seq<string>, parse: string -> Option<Json>, i: nat) returns (produced: seq<Json>)
    requires i < |lines|
    ensures NormalizeFrom(lines, parse, i) == produced + NormalizeFrom(lines, parse, i + 1)
  {
    var line := Strip(lines[i]);
    if line == [] {
      return [];
    }
    var obj := parse(line);
    if obj.Some? && obj.value.JObj? {
      var fields := NormalizeRecord(obj.value.fields);
      produced := [JObj(fields)];
    } else {
      produced := [Raw(line)];
    }
  }

  /** `normalize_jsonlines`. With no file nothing is written and the result
      is 0. Otherwise the file is rewritten with one event per non-blank
      line, in order, and the result is their number. */
  method NormalizeJsonlines(src: Option<seq<string>>, parse: string -> Option<Json>) returns (count: nat, rewritten: Option<seq<string>>)
    ensures src.None? ==> count == 0 && rewritten.None?
    ensures src.Some? ==> rewritten == Some(DumpLines(Normalize(src.value, parse)))
    ensures src.Some? ==> count == |Normalize(src.value, parse)| == NonBlankFrom(src.value, 0)
  {
    if src.None? {
      return 0, None;
    }
    var lines := src.value;
    var outEvents: seq<Json> := [];
    for i := 0 to |lines|
      invariant outEvents + NormalizeFrom(lines, parse, i) == Normalize(lines, parse)
    {
      var produced := NormalizeLineAt(lines, parse, i);
      assert outEvents + (produced + NormalizeFrom(lines, parse, i + 1))
        == (outEvents + produced) + NormalizeFrom(lines, parse, i + 1);
      outEvents := outEvents + produced;
    }
    assert outEvents == Normalize(lines, parse) by {
      assert outEvents + [] == outEvents;
    }
    return |outEvents|, Some(DumpLines(outEvents));
  }

  // ---------------------------------------------------------------------------
  // Properties of the pass
  // ---------------------------------------------------------------------------

  /** Every event the pass writes is an object whose fields are clean: no
      name string and no top-level `system` string holds a line break or
      has whitespace left at its end, and no name starts with `-` or a
      space. */
  predicate EventClean(e: Json) {
    e.JObj? && forall i :: 0 <= i < |e.fields| ==> FieldClean(e.fields[i])
  }

  lemma NormalizeLineClean(line: string, parse: string -> Option<Json>)
    ensures EventClean(NormalizeLine(line, parse))
  {
    match parse(line)
    case Some(JObj(fields)) =>
      NormalizeObjectFieldwise(fields);
      forall i | 0 <= i < |fields|
        ensures FieldClean(NormalizeObject(fields)[i])
      {
        NormalizeFieldClean(fields[i]);
      }
    case _ =>
  }

  lemma {:induction false} NormalizeClean(lines: seq<string>, parse: string -> Option<Json>, i: nat)
    requires i <= |lines|
    decreases |lines| - i
    ensures forall k :: 0 <= k < |NormalizeFrom(lines, parse, i)| ==> EventClean(NormalizeFrom(lines, parse, i)[k])
  {
    if i < |lines| {
      NormalizeClean(lines, parse, i + 1);
      if Strip(lines[i]) != [] {
        NormalizeLineClean(Strip(lines[i]), parse);
        var rest := NormalizeFrom(lines, parse, i + 1);
        assert forall k :: 1 <= k < 1 + |rest| ==> NormalizeFrom(lines, parse, i)[k] == rest[k - 1];
      }
    }
  }

  /** A line that parses to an object keeps its keys in order; any other
      line becomes `{"raw": line}`. */
  lemma NormalizeLineShape(line: string, parse: string -> Option<Json>)
    ensures parse(line).Some? && parse(line).value.JObj? ==>
      NormalizeLine(line, parse).JObj? && Keys(NormalizeLine(line, parse).fields) == Keys(parse(line).value.fields)
    ensures !(parse(line).Some? && parse(line).value.JObj?) ==> NormalizeLine(line, parse) == Raw(line)
  {
    if parse(line).Some? && parse(line).value.JObj? {
      NormalizeObjectKeys(parse(line).value.fields);
    }
  }

  // ---------------------------------------------------------------------------
  // A second pass
  // ---------------------------------------------------------------------------

  /** An event whose names do not start with whitespace; a first pass leaves
      every event so except where a name had whitespace other than a space
      after its hyphen (`CleanNameNeedsSecondPass`). */
  predicate Settled(e: Json) {
    e.JObj? && forall i :: 0 <= i < |e.fields| ==>
      (e.fields[i].key in NameKeys && e.fields[i].value.JStr? && e.fields[i].value.s != [] ==> !IsSpace(e.fields[i].value.s[0]))
  }

  lemma CleanSystemFixed(fields: seq<Field>)
    requires forall j :: 0 <= j < |fields| && fields[j].value.JStr? ==> TextClean(fields[j].value.s)
    ensures CleanSystem(fields) == fields
  {
    forall j | 0 <= j < |fields| && fields[j].value.JStr?
      ensures CleanText(fields[j].value.s) == fields[j].value.s
    {
      CleanTextFixed(fields[j].value.s);
    }
  }

  /** A clean, settled object is left exactly as it is. */
  lemma NormalizeObjectFixed(fields: seq<Field>)
    requires EventClean(JObj(fields)) && Settled(JObj(fields))
    ensures NormalizeObject(fields) == fields
  {
    NormalizeObjectFieldwise(fields);
    forall i | 0 <= i < |fields|
      ensures NormalizeField(fields[i]) == fields[i]
    {
      var f := fields[i];
      assert FieldClean(f);
      if f.key in NameKeys && f.value.JStr? {
        CleanNameFixed(f.value.s);
      } else if f.key == "system" && f.value.JObj? {
        CleanSystemFixed(f.value.fields);
      }
    }
  }

  /** Normalizing a field keeps a value a Python program can hold. */
  lemma NormalizeFieldWellFormed(f: Field)
    requires WellFormed(f.value)
    ensures WellFormed(NormalizeField(f).value)
  {
    if f.key == "system" && f.value.JObj? && !(f.key in NameKeys && f.value.JStr?) {
      var sys := f.value.fields;
      var c := CleanSystem(sys);
      WellFormedFieldsAt(sys);
      assert forall j :: 0 <= j < |c| ==> c[j].key == Keys(c)[j];
      assert forall j :: 0 <= j < |sys| ==> sys[j].key == Keys(sys)[j];
      SameKeysDistinct(sys, c);
      WellFormedFieldsAt(c);
    }
  }

  /** Normalizing keeps a value a Python program can hold. */
  lemma NormalizeLineWellFormed(line: string, parse: string -> Option<Json>)
    requires IsParser(parse)
    ensures WellFormed(NormalizeLine(line, parse))
  {
    match parse(line)
    case Some(JObj(fields)) =>
      var r := NormalizeObject(fields);
      NormalizeObjectFieldwise(fields);
      NormalizeObjectKeys(fields);
      assert forall i :: 0 <= i < |r| ==> r[i].key == Keys(r)[i];
      assert forall i :: 0 <= i < |fields| ==> fields[i].key == Keys(fields)[i];
      SameKeysDistinct(fields, r);
      WellFormedFieldsAt(fields);
      forall i | 0 <= i < |r|
        ensures WellFormed(r[i].value)
      {
        NormalizeFieldWellFormed(fields[i]);
      }
      WellFormedFieldsAt(r);
    case _ =>
      assert WellFormedFields([Field("raw", JStr(line))][1..]);
  }

  lemma {:induction false} NormalizeWellFormed(lines: seq<string>, parse: string -> Option<Json>, i: nat)
    requires IsParser(parse)
    requires i <= |lines|
    decreases |lines| - i
    ensures forall k :: 0 <= k < |NormalizeFrom(lines, parse, i)| ==> WellFormed(NormalizeFrom(lines, parse, i)[k])
  {
    if i < |lines| {
      NormalizeWellFormed(lines, parse, i + 1);
      if Strip(lines[i]) != [] {
        NormalizeLineWellFormed(Strip(lines[i]), parse);
        var rest := NormalizeFrom(lines, parse, i + 1);
        assert forall k :: 1 <= k < 1 + |rest| ==> NormalizeFrom(lines, parse, i)[k] == rest[k - 1];
      }
    }
  }

  /** A second pass over the written file reads every line back and leaves
      every clean, settled event as it is. */
  lemma {:induction false} NormalizeDumped(events: seq<Json>, parse: string -> Option<Json>, i: nat)
    requires IsParser(parse)
    requires forall k :: 0 <= k < |events| ==> WellFormed(events[k]) && EventClean(events[k]) && Settled(events[k])
    requires i <= |events|
    decreases |events| - i
    ensures NormalizeFrom(DumpLines(events), parse, i) == events[i..]
  {
    var lines := DumpLines(events);
    if i < |events| {
      var e := events[i];
      StripDumps(e);
      DumpsEdges(e);
      assert Strip(lines[i]) == Dumps(e);
      NormalizeObjectFixed(e.fields);
      assert NormalizeLine(Strip(lines[i]), parse) == e;
      NormalizeDumped(events, parse, i + 1);
      assert events[i..] == [e] + events[i + 1..];
    }
  }

  /** Running `normalize_jsonlines` again changes nothing, provided the
      first pass left no name starting with whitespace. */
  lemma NormalizeIdempotent(lines: seq<string>, parse: string -> Option<Json>)
    requires IsParser(parse)
    requires forall k :: 0 <= k < |Normalize(lines, parse)| ==> Settled(Normalize(lines, parse)[k])
    ensures Normalize(DumpLines(Normalize(lines, parse)), parse) == Normalize(lines, parse)
  {
    var events := Normalize(lines, parse);
    NormalizeWellFormed(lines, parse, 0);
    NormalizeClean(lines, parse, 0);
    assert events[0..] == events;
    NormalizeDumped(events, parse, 0);
  }

  /** The exception: an event `{"event": "-\tx"}` is written as
      `{"event": "\tx"}` and a second pass turns that into `{"event": "x"}`. */
  lemma NormalizeNotIdempotent()
    ensures NormalizeObject([Field("event", JStr("-\tx"))]) == [Field("event", JStr("\tx"))]
    ensures NormalizeObject([Field("event", JStr("\tx"))]) == [Field("event", JStr("x"))]
  {
    CleanNameNeedsSecondPass();
    NormalizeObjectFieldwise([Field("event", JStr("-\tx"))]);
    NormalizeObjectFieldwise([Field("event", JStr("\tx"))]);
  }
}
