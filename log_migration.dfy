/** `migrate_logs` of `print.py`: a forward scan over the lines of the old
    mixed-format log that turns each JSON line, each human-readable header
    block and each other line into one JSON-lines event. */
module LogMigration {
  import opened Wrappers
  import opened Text
  import opened Json

  const SystemMarker := "Sistem:"
  const CodeDirsMarker := "KodDizinleri:"
  const UserMarker := "Kullanıcı:"
  const NameMarker := "Ad-Soyad:"

  // ---------------------------------------------------------------------------
  // Header lines: `[ts] - EVENT - Kullanıcı: X, Ad-Soyad: Y`
  // ---------------------------------------------------------------------------

  /** A header line: after `strip()`, it starts with `[` and holds a `]`. */
  predicate IsHeader(line: string) {
    StartsWith(line, "[") && Contains(line, "]")
  }

  /** `[p.strip() for p in parts if p.strip()]` */
  function StrippedNonEmpty(parts: seq<string>): (r: seq<string>)
    ensures |r| <= |parts|
    ensures forall k :: 0 <= k < |r| ==> r[k] != []
  {
    if parts == [] then []
    else
      var p := Strip(parts[0]);
      if p == [] then StrippedNonEmpty(parts[1..]) else [p] + StrippedNonEmpty(parts[1..])
  }

  /** The fields read from the header, as the values written to the event:
      `None` becomes `JNull`. */
  datatype Header = Header(timestamp: string, event: Json, username: Json, fullName: Json)

  /** The user part `rest` of a header: `username` is the stripped text
      after `Kullanıcı:` up to the first comma (or all of it when there is
      no comma), and `full_name` is the stripped text after `Ad-Soyad:`
      when that part has a comma. */
  function UserFields(rest: string): (r: (Json, Json))
    ensures r.0.JStr? || r.0.JNull?
    ensures r.1.JStr? || r.1.JNull?
  {
    if !Contains(rest, UserMarker) then (JNull, JNull)
    else
      var userPart := Strip(After(rest, UserMarker));
      if Contains(userPart, ",") then
        (JStr(Strip(Before(userPart, ","))),
         if Contains(userPart, NameMarker) then JStr(Strip(After(userPart, NameMarker))) else JNull)
      else (JStr(Strip(userPart)), JNull)
  }

  /** The header fields: the timestamp is the text before the first `]`
      without its leading `[`s; the rest is stripped and cut at `" - "`,
      and its first non-empty part is the event. Because the rest is
      stripped before the cut, a header written as `[ts] - LOGIN - ...`
      gives the event `"- LOGIN"`. */
  function ParseHeader(line: string): (h: Header)
    requires IsHeader(line)
    ensures h.event.JStr? || h.event.JNull?
    ensures h.username.JStr? || h.username.JNull?
    ensures h.fullName.JStr? || h.fullName.JNull?
  {
    var timestamp := LStripChars(Before(line, "]"), {'['});
    var after := Strip(After(line, "]"));
    var parts := StrippedNonEmpty(SplitAll(after, " - "));
    var event := if parts == [] then JNull else JStr(parts[0]);
    var (username, fullName) := if |parts| > 1 then UserFields(parts[1]) else (JNull, JNull);
    Header(timestamp, event, username, fullName)
  }

  /** The first part of `s.split(sep)`. */
  lemma SplitFirst(s: string, sep: string)
    requires sep != []
    ensures SplitAll(s, sep)[0] == match Find(s, sep) case None => s case Some(i) => s[..i]
  {
  }

  /** Headers as the old log wrote them, `[ts] - EVENT - ...`, have the
      `" - "` right after the `]`; since the rest is stripped before it is
      cut at `" - "`, the leading hyphen stays on the event. */
  lemma HeaderEventHyphen(line: string)
    requires IsHeader(line)
    requires StartsWith(After(line, "]"), " - ")
    ensures ParseHeader(line).event.JStr?
    ensures StartsWith(ParseHeader(line).event.s, "-")
  {
    var rest := After(line, "]");
    StripFirst(rest, 1);
    var after := Strip(rest);
    var i := Find(after, " - ");
    SplitFirst(after, " - ");
    var part := SplitAll(after, " - ")[0];
    assert !OccursAt(after, " - ", 0);
    assert part != [] && part[0] == '-';
    StripFirst(part, 0);
  }

  // ---------------------------------------------------------------------------
  // The documented header format reads back field by field
  // ---------------------------------------------------------------------------

  /** `" - "` does not occur in `s`. */
  predicate SepFree(s: string) {
    forall i :: 0 <= i < |s| ==> !OccursAt(s, " - ", i)
  }

  /** `" - "` occurs at `i` exactly when a hyphen stands there between two spaces. */
  lemma SepAtIff(s: string, i: nat)
    ensures OccursAt(s, " - ", i) <==> i + 3 <= |s| && s[i] == ' ' && s[i + 1] == '-' && s[i + 2] == ' '
  {
    if i + 3 <= |s| {
      assert s[i..i + 3] == [s[i], s[i + 1], s[i + 2]];
    }
  }

  /** Two texts without `" - "` joined where one side has neither a space
      nor a hyphen at the joint. */
  lemma SepFreeConcat(a: string, b: string)
    requires SepFree(a) && SepFree(b)
    requires (a != [] && a[|a| - 1] != ' ' && a[|a| - 1] != '-') || (b != [] && b[0] != ' ' && b[0] != '-')
    ensures SepFree(a + b)
  {
    forall i | 0 <= i
      ensures !OccursAt(a + b, " - ", i)
    {
      SepAtIff(a + b, i);
      if i + 3 <= |a| {
        SepAtIff(a, i);
      } else if |a| <= i {
        SepAtIff(b, i - |a|);
      }
    }
  }

  /** The first `" - "` in `a + " - " + b` is the one after `a`, when `a`
      holds none and ends in neither a space nor a hyphen. */
  lemma SplitAtSep(a: string, b: string)
    requires SepFree(a) && SepFree(b)
    requires a != [] && a[|a| - 1] != ' ' && a[|a| - 1] != '-'
    ensures SplitAll(a + " - " + b, " - ") == [a, b]
  {
    var s := a + " - " + b;
    SepAtIff(s, |a|);
    forall i | 0 <= i < |a|
      ensures !OccursAt(s, " - ", i)
    {
      SepAtIff(s, i);
      if i + 3 <= |a| {
        SepAtIff(a, i);
      }
    }
    FindFirstAt(s, " - ", |a|);
    assert s[..|a|] == a && s[|a| + 3..] == b;
    assert Find(b, " - ").None?;
  }

  /** A header field as the log writes it: non-empty, with no whitespace
      and no hyphen at either end, and no `" - "` inside. */
  predicate PlainField(w: string) {
    w != [] && !IsSpace(w[0]) && !IsSpace(w[|w| - 1]) && w[0] != '-' && w[|w| - 1] != '-' && SepFree(w)
  }

  /** `", Ad-Soyad: "`, the text between the user name and the full name. */
  const NameGap := ", " + NameMarker + " "

  lemma NameGapSepFree()
    ensures SepFree(NameGap)
  {
    forall i | 0 <= i
      ensures !OccursAt(NameGap, " - ", i)
    {
      SepAtIff(NameGap, i);
    }
  }

  lemma UserLeadSepFree()
    ensures SepFree(UserMarker + " ")
  {
    forall i | 0 <= i
      ensures !OccursAt(UserMarker + " ", " - ", i)
    {
      SepAtIff(UserMarker + " ", i);
    }
  }

  /** The user part `Kullanıcı: X, Ad-Soyad: Y` holds no `" - "`. */
  lemma UserPartSepFree(x: string, y: string)
    requires PlainField(x) && PlainField(y)
    ensures SepFree(UserMarker + " " + x + NameGap + y)
  {
    UserLeadSepFree();
    NameGapSepFree();
    SepFreeConcat(UserMarker + " ", x);
    SepFreeConcat(UserMarker + " " + x, NameGap);
    SepFreeConcat(UserMarker + " " + x + NameGap, y);
  }

  /** The user name: what comes before the first comma. */
  lemma CommaCut(x: string, y: string)
    requires ',' !in x
    ensures Contains(x + NameGap + y, ",") && Before(x + NameGap + y, ",") == x
  {
    var u := x + NameGap + y;
    forall i | 0 <= i < |x|
      ensures !OccursAt(u, ",", i)
    {
      assert u[i] == x[i];
      MismatchNotOccurs(u, ",", i, 0);
    }
    assert u[|x|..|x| + 1] == ",";
    FindFirstAt(u, ",", |x|);
    assert u[..|x|] == x;
  }

  /** The full name: what comes after the first `Ad-Soyad:`, which is the
      one after the comma when the user name holds no comma and no
      `Ad-Soyad:`. */
  lemma NameMarkerCut(x: string, y: string)
    requires ',' !in x && forall i :: 0 <= i ==> !OccursAt(x, NameMarker, i)
    ensures Contains(x + NameGap + y, NameMarker) && After(x + NameGap + y, NameMarker) == " " + y
  {
    var u := x + NameGap + y;
    forall i | 0 <= i < |x| + 2
      ensures !OccursAt(u, NameMarker, i)
    {
      if i + |NameMarker| <= |x| {
        assert u[i..i + |NameMarker|] == x[i..i + |NameMarker|];
        assert !OccursAt(x, NameMarker, i);
      } else if i <= |x| {
        assert u[|x|] == ',';
        MismatchNotOccurs(u, NameMarker, i, |x| - i);
      } else {
        assert u[i] == ' ';
        MismatchNotOccurs(u, NameMarker, i, 0);
      }
    }
    assert u[|x| + 2..|x| + 2 + |NameMarker|] == NameMarker;
    FindFirstAt(u, NameMarker, |x| + 2);
    assert u[|x| + 2 + |NameMarker|..] == " " + y;
  }

  /** The text after `Kullanıcı:` at the start of the user part. */
  lemma UserMarkerCut(t: string)
    ensures Contains(UserMarker + t, UserMarker) && After(UserMarker + t, UserMarker) == t
  {
    var rest := UserMarker + t;
    assert rest[..|UserMarker|] == UserMarker;
    FindFirstAt(rest, UserMarker, 0);
    assert rest[|UserMarker|..] == t;
  }

  /** The user part starts with `K` and ends with the full name, so
      `strip()` leaves it alone. */
  lemma UserPartStripped(x: string, y: string)
    requires PlainField(y)
    ensures Strip(UserMarker + " " + x + NameGap + y) == UserMarker + " " + x + NameGap + y
  {
    var rest := UserMarker + " " + x + NameGap + y;
    assert rest[0] == UserMarker[0] == 'K';
    assert rest[|rest| - 1] == y[|y| - 1];
    StripNoEdges(rest);
  }

  /** After `Kullanıcı:`, the user name runs to the first comma and the
      full name follows `Ad-Soyad:`. */
  lemma UserFieldsRead(x: string, y: string)
    requires PlainField(x) && PlainField(y)
    requires ',' !in x && forall i :: 0 <= i ==> !OccursAt(x, NameMarker, i)
    ensures UserFields(UserMarker + " " + x + NameGap + y) == (JStr(x), JStr(y))
  {
    var u := x + NameGap + y;
    assert UserMarker + " " + x + NameGap + y == UserMarker + (" " + u);
    UserMarkerCut(" " + u);
    StripSpaceBefore(u);
    CommaCut(x, y);
    StripNoEdges(x);
    NameMarkerCut(x, y);
    StripSpaceBefore(y);
  }

  /** The bracketed timestamp: the text before the first `]`, without its
      `[`, when the timestamp holds no `]` and does not start with `[`. */
  lemma TimestampRead(ts: string, tail: string)
    requires ']' !in ts && (ts == [] || ts[0] != '[')
    ensures IsHeader("[" + ts + "]" + tail)
    ensures LStripChars(Before("[" + ts + "]" + tail, "]"), {'['}) == ts
    ensures After("[" + ts + "]" + tail, "]") == tail
  {
    var line := "[" + ts + "]" + tail;
    forall i | 0 <= i < |ts| + 1
      ensures !OccursAt(line, "]", i)
    {
      assert i > 0 ==> line[i] == ts[i - 1];
      MismatchNotOccurs(line, "]", i, 0);
    }
    assert line[|ts| + 1..|ts| + 2] == "]";
    FindFirstAt(line, "]", |ts| + 1);
    assert line[..1] == "[";
    assert Before(line, "]") == "[" + ts;
    assert ("[" + ts)[1..] == ts;
    assert After(line, "]") == tail;
  }

  /** The text after the first `]` of a header line. */
  lemma HeaderLineCut(ts: string, ev: string, x: string, y: string)
    requires ']' !in ts && (ts == [] || ts[0] != '[')
    ensures var line := "[" + ts + "] - " + ev + " - Kullanıcı: " + x + ", Ad-Soyad: " + y;
      IsHeader(line) && LStripChars(Before(line, "]"), {'['}) == ts
      && After(line, "]") == " " + ("- " + ev + " - " + (UserMarker + " " + x + NameGap + y))
  {
    var after := "- " + ev + " - " + (UserMarker + " " + x + NameGap + y);
    assert "[" + ts + "] - " + ev + " - Kullanıcı: " + x + ", Ad-Soyad: " + y == "[" + ts + "]" + (" " + after);
    TimestampRead(ts, " " + after);
  }

  /** That text, stripped, loses only its leading space. */
  lemma HeaderRestStripped(ev: string, x: string, y: string)
    requires PlainField(y)
    ensures Strip(" " + ("- " + ev + " - " + (UserMarker + " " + x + NameGap + y)))
         == "- " + ev + " - " + (UserMarker + " " + x + NameGap + y)
  {
    var after := "- " + ev + " - " + (UserMarker + " " + x + NameGap + y);
    assert after[0] == '-';
    assert after[|after| - 1] == y[|y| - 1];
    StripSpaceBefore(after);
  }

  /** Neither the event part nor the user part holds `" - "`. */
  lemma HeaderPartsSepFree(ev: string, x: string, y: string)
    requires PlainField(ev) && PlainField(x) && PlainField(y)
    ensures SepFree("- " + ev) && SepFree(UserMarker + " " + x + NameGap + y)
  {
    SepFreeConcat("- ", ev);
    UserPartSepFree(x, y);
  }

  /** The stripped rest of a header cut at `" - "`: the event with its
      hyphen, then the user part. */
  lemma HeaderPartsCut(ev: string, x: string, y: string)
    requires PlainField(ev) && PlainField(x) && PlainField(y)
    ensures StrippedNonEmpty(SplitAll("- " + ev + " - " + (UserMarker + " " + x + NameGap + y), " - "))
         == ["- " + ev, UserMarker + " " + x + NameGap + y]
  {
    var first := "- " + ev;
    var rest := UserMarker + " " + x + NameGap + y;
    HeaderPartsSepFree(ev, x, y);
    assert first[|first| - 1] == ev[|ev| - 1];
    SplitAtSep(first, rest);
    StripNoEdges(first);
    UserPartStripped(x, y);
    assert [first, rest][1..] == [rest];
  }

  /** A header written in the documented form `[ts] - EVENT - Kullanıcı: X,
      Ad-Soyad: Y` gives back its timestamp, user name and full name, and
      the event with the hyphen that stays on it. */
  lemma HeaderFieldsRead(ts: string, ev: string, x: string, y: string)
    requires ']' !in ts && (ts == [] || ts[0] != '[')
    requires PlainField(ev) && PlainField(x) && PlainField(y)
    requires ',' !in x && forall i :: 0 <= i ==> !OccursAt(x, NameMarker, i)
    ensures IsHeader("[" + ts + "] - " + ev + " - Kullanıcı: " + x + ", Ad-Soyad: " + y)
    ensures ParseHeader("[" + ts + "] - " + ev + " - Kullanıcı: " + x + ", Ad-Soyad: " + y)
         == Header(ts, JStr("- " + ev), JStr(x), JStr(y))
  {
    var rest := UserMarker + " " + x + NameGap + y;
    HeaderLineCut(ts, ev, x, y);
    HeaderRestStripped(ev, x, y);
    HeaderPartsCut(ev, x, y);
    UserFieldsRead(x, y);
    ParseHeaderSteps("[" + ts + "] - " + ev + " - Kullanıcı: " + x + ", Ad-Soyad: " + y,
      ts, "- " + ev + " - " + rest, "- " + ev, rest, JStr(x), JStr(y));
  }

  /** `ParseHeader` from its intermediate results: the timestamp, the
      stripped rest, its two parts and the fields of the user part. */
  lemma ParseHeaderSteps(line: string, ts: string, after: string, first: string, rest: string, user: Json, name: Json)
    requires IsHeader(line)
    requires LStripChars(Before(line, "]"), {'['}) == ts
    requires Strip(After(line, "]")) == after
    requires StrippedNonEmpty(SplitAll(after, " - ")) == [first, rest]
    requires UserFields(rest) == (user, name)
    ensures ParseHeader(line) == Header(ts, JStr(first), user, name)
  {
  }

  /** The event written for a header block. */
  function HeaderEvent(h: Header, system: Json, codeDirs: Json): Json {
    JObj([
      Field("timestamp", JStr(h.timestamp)),
      Field("event", h.event),
      Field("username", h.username),
      Field("full_name", h.fullName),
      Field("system", system),
      Field("code_dirs", codeDirs)])
  }

  // ---------------------------------------------------------------------------
  // Continuation lines and multi-line payloads
  // ---------------------------------------------------------------------------

  /** `lines[a] + lines[a+1] + ... + lines[b-1]`, built as `buff += lines[k]`
      builds it. */
  function Concat(lines: seq<string>, a: nat, b: nat): string
    requires a <= b <= |lines|
    decreases b - a
  {
    if a == b then "" else Concat(lines, a, b - 1) + lines[b - 1]
  }

  /** Where gathering a broken payload stops: at a line starting with `[`,
      and, for a `Sistem:` payload, also at a line whose left-stripped text
      starts with `KodDizinleri:`. */
  predicate StopsGather(line: string, forSystem: bool) {
    StartsWith(line, "[") || (forSystem && StartsAfterSpaces(line, CodeDirsMarker))
  }

  /** `s.lstrip().startswith(p)`, one leading space at a time. */
  predicate StartsAfterSpaces(s: string, p: string) {
    if s != [] && IsSpace(s[0]) then StartsAfterSpaces(s[1..], p) else StartsWith(s, p)
  }

  /** The first index at or after `k` where gathering stops (or the end). */
  function GatherEnd(lines: seq<string>, k: nat, forSystem: bool): (r: nat)
    requires k <= |lines|
    decreases |lines| - k
    ensures k <= r <= |lines|
    ensures r < |lines| ==> StopsGather(lines[r], forSystem)
    ensures forall m :: k <= m < r ==> !StopsGather(lines[m], forSystem)
  {
    if k == |lines| || StopsGather(lines[k], forSystem) then k else GatherEnd(lines, k + 1, forSystem)
  }

  /** The payload on continuation line `j`, whose text after the marker is
      `rest`: the stripped rest if it parses; otherwise the rest followed by
      every line up to where gathering stops, if that parses (the block
      then resumes at the stop line); otherwise `None`, and the block
      resumes after line `j`. Returns the last line used and the value. */
  function Payload(lines: seq<string>, parse: string -> Option<Json>, j: nat, rest: string, forSystem: bool): (r: (nat, Json))
    requires j < |lines|
    ensures j <= r.0 < |lines|
  {
    match parse(Strip(rest))
    case Some(v) => (j, v)
    case None =>
      var k := GatherEnd(lines, j + 1, forSystem);
      match parse(rest + Concat(lines, j + 1, k))
      case Some(v) => (k - 1, v)
      case None => (j, JNull)
  }

  /** The effect of continuation line `j` of a header block: a `Sistem:`
      or `KodDizinleri:` line sets that payload; any other indented line is
      passed over. Returns where the block continues and the two payloads. */
  function BlockLine(lines: seq<string>, parse: string -> Option<Json>, j: nat, system: Json, codeDirs: Json): (r: (nat, Json, Json))
    requires j < |lines|
    ensures j < r.0 <= |lines|
  {
    var l := LStrip(lines[j]);
    if StartsWith(l, SystemMarker) then
      var p := Payload(lines, parse, j, l[|SystemMarker|..], true);
      (p.0 + 1, p.1, codeDirs)
    else if StartsWith(l, CodeDirsMarker) then
      var p := Payload(lines, parse, j, l[|CodeDirsMarker|..], false);
      (p.0 + 1, system, p.1)
    else (j + 1, system, codeDirs)
  }

  /** The lines of a header block from `j` on: every following line that
      starts with two spaces. Returns the index after the block and the two
      payloads. */
  function ScanBlock(lines: seq<string>, parse: string -> Option<Json>, j: nat, system: Json, codeDirs: Json): (r: (nat, Json, Json))
    requires j <= |lines|
    decreases |lines| - j
    ensures j <= r.0 <= |lines|
  {
    if j == |lines| || !StartsWith(lines[j], "  ") then (j, system, codeDirs)
    else
      var b := BlockLine(lines, parse, j, system, codeDirs);
      ScanBlock(lines, parse, b.0, b.1, b.2)
  }

  // ---------------------------------------------------------------------------
  // The scan
  // ---------------------------------------------------------------------------

  /** A stripped line that opens a header block. */
  type HeaderLine = s: string | IsHeader(s) witness "[]"

  /** What the scan makes of one non-blank line (with its block, for a
      header). */
  datatype Entry =
    | Parsed(value: Json)                                        // the line is JSON
    | Block(header: HeaderLine, system: Json, codeDirs: Json)    // a header block
    | RawLine(line: string)                                      // anything else

  /** The event written for an entry. */
  function EntryEvent(e: Entry): Json {
    match e
    case Parsed(v) => v
    case Block(h, system, codeDirs) => HeaderEvent(ParseHeader(h), system, codeDirs)
    case RawLine(line) => Raw(line)
  }

  /** What the scan does with line `i`: a blank line gives nothing; a line
      that parses gives its value; a header gives one entry for its whole
      block; any other line is kept as the stripped raw line. Returns the
      entries and the index the scan resumes at, always past `i`. */
  function LineStep(lines: seq<string>, parse: string -> Option<Json>, i: nat): (r: (seq<Entry>, nat))
    requires i < |lines|
    ensures i < r.1 <= |lines|
    ensures |r.0| == if Strip(lines[i]) == [] then 0 else 1
  {
    var line := Strip(lines[i]);
    if line == [] then ([], i + 1)
    else match parse(line)
      case Some(v) => ([Parsed(v)], i + 1)
      case None =>
        if IsHeader(line) then
          var b := ScanBlock(lines, parse, i + 1, JNull, JNull);
          ([Block(line, b.1, b.2)], b.0)
        else ([RawLine(line)], i + 1)
  }

  /** The entries for the lines from `i` on. */
  function EntriesFrom(lines: seq<string>, parse: string -> Option<Json>, i: nat): seq<Entry>
    requires i <= |lines|
    decreases |lines| - i
  {
    if i == |lines| then []
    else
      var step := LineStep(lines, parse, i);
      step.0 + EntriesFrom(lines, parse, step.1)
  }

  /** One event per entry, in order. */
  function Events(entries: seq<Entry>): (r: seq<Json>)
    ensures |r| == |entries|
  {
    if entries == [] then [] else [EntryEvent(entries[0])] + Events(entries[1..])
  }

  lemma {:induction false} EventsAppend(a: seq<Entry>, b: seq<Entry>)
    decreases |a|
    ensures Events(a + b) == Events(a) + Events(b)
  {
    if a != [] {
      assert (a + b)[0] == a[0];
      assert (a + b)[1..] == a[1..] + b;
      EventsAppend(a[1..], b);
      var x := [EntryEvent(a[0])];
      assert x + (Events(a[1..]) + Events(b)) == (x + Events(a[1..])) + Events(b);
    } else {
      assert a + b == b;
    }
  }

  /** The events `migrate_logs` writes for a file's lines. */
  function Migrate(lines: seq<string>, parse: string -> Option<Json>): (r: seq<Json>)
    ensures |r| <= NonBlankFrom(lines, 0)
  {
    MigrateCountBound(lines, parse, 0);
    Events(EntriesFrom(lines, parse, 0))
  }


  /** A payload whose text after the marker is `rest`: the stripped rest
      is parsed; when that fails, `buff` collects the rest and the
      following lines up to where gathering stops, and is parsed once. */
  method ReadPayload(lines: seq<string>, parse: string -> Option<Json>, j: nat, rest: string, forSystem: bool)
    returns (last: nat, value: Json)
    requires j < |lines|
    ensures (last, value) == Payload(lines, parse, j, rest, forSystem)
  {
    var v := parse(Strip(rest));
    if v.Some? {
      return j, v.value;
    }
    var n := |lines|;
    var buff := rest;
    var k := j + 1;
    while k < n && !StopsGather(lines[k], forSystem)
      invariant j + 1 <= k <= n
      invariant buff == rest + Concat(lines, j + 1, k)
      invariant GatherEnd(lines, k, forSystem) == GatherEnd(lines, j + 1, forSystem)
      decreases n - k
    {
      assert Concat(lines, j + 1, k + 1) == Concat(lines, j + 1, k) + lines[k];
      buff := buff + lines[k];
      k := k + 1;
    }
    assert GatherEnd(lines, k, forSystem) == k;
    var w := parse(buff);
    if w.Some? {
      return k - 1, w.value;
    }
    return j, JNull;
  }

  /** One pass of the inner loop, on the indented line `j`. */
  method ScanLine(lines: seq<string>, parse: string -> Option<Json>, j: nat, system: Json, codeDirs: Json)
    returns (next: nat, system': Json, codeDirs': Json)
    requires j < |lines|
    ensures (next, system', codeDirs') == BlockLine(lines, parse, j, system, codeDirs)
  {
    var l := LStrip(lines[j]);
    if StartsWith(l, SystemMarker) {
      var last, value := ReadPayload(lines, parse, j, l[|SystemMarker|..], true);
      return last + 1, value, codeDirs;
    } else if StartsWith(l, CodeDirsMarker) {
      var last, value := ReadPayload(lines, parse, j, l[|CodeDirsMarker|..], false);
      return last + 1, system, value;
    }
    return j + 1, system, codeDirs;
  }

  /** The inner loop over the indented lines of a header block starting at
      `start`; `j` ends at the first line after the block. */
  method ScanHeaderBlock(lines: seq<string>, parse: string -> Option<Json>, start: nat)
    returns (j: nat, system: Json, codeDirs: Json)
    requires start <= |lines|
    ensures (j, system, codeDirs) == ScanBlock(lines, parse, start, JNull, JNull)
  {
    var n := |lines|;
    system, codeDirs := JNull, JNull;
    j := start;
    while j < n && StartsWith(lines[j], "  ")
      invariant start <= j <= n
      invariant ScanBlock(lines, parse, j, system, codeDirs) == ScanBlock(lines, parse, start, JNull, JNull)
      decreases n - j
    {
      j, system, codeDirs := ScanLine(lines, parse, j, system, codeDirs);
    }
  }

  /** One pass of the outer loop, on line `i`: the events it appends and
      the index it continues at. */
  method MigrateLine(lines: seq<string>, parse: string -> Option<Json>, i: nat)
    returns (produced: seq<Json>, next: nat)
    requires i < |lines|
    ensures produced == Events(LineStep(lines, parse, i).0)
    ensures next == LineStep(lines, parse, i).1
  {
    var line := Strip(lines[i]);
    if line == [] {
      return [], i + 1;
    }
    var obj := parse(line);
    if obj.Some? {
      return [obj.value], i + 1;
    }
    if IsHeader(line) {
      var header := ParseHeader(line);
      var j, system, codeDirs := ScanHeaderBlock(lines, parse, i + 1);
      assert LineStep(lines, parse, i).0 == [Block(line, system, codeDirs)];
      return [HeaderEvent(header, system, codeDirs)], j;
    }
    return [Raw(line)], i + 1;
  }

  /** `migrate_logs`. With no source file nothing is written and the
      result is 0. Otherwise the file is rewritten as the JSON lines of the
      events the scan produces, in order, and the result is their number. */
  method MigrateLogs(src: Option<seq<string>>, parse: string -> Option<Json>) returns (count: nat, rewritten: Option<seq<string>>)
    ensures src.None? ==> count == 0 && rewritten.None?
    ensures src.Some? ==> rewritten == Some(DumpLines(Migrate(src.value, parse)))
    ensures src.Some? ==> count == |Migrate(src.value, parse)|
  {
    if src.None? {
      return 0, None;
    }
    var lines := src.value;
    var n := |lines|;
    var events: seq<Json> := [];
    var i := 0;
    while i < n
      invariant 0 <= i <= n
      invariant events + Events(EntriesFrom(lines, parse, i)) == Migrate(lines, parse)
      decreases n - i
    {
      var produced, next := MigrateLine(lines, parse, i);
      EventsAppend(LineStep(lines, parse, i).0, EntriesFrom(lines, parse, next));
      events := events + produced;
      i := next;
    }
    assert events == Migrate(lines, parse) by {
      assert EntriesFrom(lines, parse, n) == [];
      assert events + [] == events;
    }
    return |events|, Some(DumpLines(events));
  }

  // ---------------------------------------------------------------------------
  // Properties of the scan
  // ---------------------------------------------------------------------------

  /** Every event comes from a different non-blank line, so `migrate_logs`
      never reports more events than the file has non-blank lines. */
  lemma {:induction false} MigrateCountBound(lines: seq<string>, parse: string -> Option<Json>, i: nat)
    requires i <= |lines|
    decreases |lines| - i
    ensures |EntriesFrom(lines, parse, i)| <= NonBlankFrom(lines, i)
  {
    if i < |lines| {
      var step := LineStep(lines, parse, i);
      MigrateCountBound(lines, parse, step.1);
      NonBlankMonotone(lines, i + 1, step.1);
      var n := if Strip(lines[i]) == [] then 0 else 1;
      assert |EntriesFrom(lines, parse, i)| == |step.0| + |EntriesFrom(lines, parse, step.1)|;
      assert NonBlankFrom(lines, i) == n + NonBlankFrom(lines, i + 1);
    }
  }

  /** Line `k` is a header line once stripped. */
  predicate HeaderAt(lines: seq<string>, k: nat)
    requires k < |lines|
  {
    IsHeader(Strip(lines[k]))
  }

  /** The entry a line that is not a header gives, when it is not blank. */
  function PlainEntry(line: string, parse: string -> Option<Json>): Entry {
    match parse(line) case Some(v) => Parsed(v) case None => RawLine(line)
  }

  /** The entries of a log without header lines: one per non-blank line,
      in file order, the parsed value or the raw line. */
  function PlainFrom(lines: seq<string>, parse: string -> Option<Json>, i: nat): (r: seq<Entry>)
    requires i <= |lines|
    decreases |lines| - i
    ensures |r| == NonBlankFrom(lines, i)
  {
    if i == |lines| then []
    else
      var line := Strip(lines[i]);
      if line == [] then PlainFrom(lines, parse, i + 1)
      else [PlainEntry(line, parse)] + PlainFrom(lines, parse, i + 1)
  }

  /** Line `k` opens a header block: it is a header line once stripped and
      `json.loads` refuses it. */
  predicate OpensBlock(lines: seq<string>, parse: string -> Option<Json>, k: nat)
    requires k < |lines|
  {
    HeaderAt(lines, k) && parse(Strip(lines[k])).None?
  }

  lemma PlainLineStep(lines: seq<string>, parse: string -> Option<Json>, i: nat)
    requires i < |lines| && !OpensBlock(lines, parse, i)
    ensures LineStep(lines, parse, i) ==
      (if Strip(lines[i]) == [] then [] else [PlainEntry(Strip(lines[i]), parse)], i + 1)
  {
  }

  /** When no line from `i` on opens a header block (header-shaped lines
      that parse as JSON, such as `["a]"]`, are allowed), the scan is the
      plain per-line conversion: blank lines dropped, JSON lines kept as
      parsed, the rest kept as raw records, in order, one event per
      non-blank line. */
  lemma {:induction false} NoHeaderIsPlain(lines: seq<string>, parse: string -> Option<Json>, i: nat)
    requires i <= |lines|
    requires forall k :: i <= k < |lines| ==> !OpensBlock(lines, parse, k)
    decreases |lines| - i
    ensures EntriesFrom(lines, parse, i) == PlainFrom(lines, parse, i)
    ensures |EntriesFrom(lines, parse, i)| == NonBlankFrom(lines, i)
  {
    if i < |lines| {
      assert !OpensBlock(lines, parse, i);
      PlainLineStep(lines, parse, i);
      NoHeaderIsPlain(lines, parse, i + 1);
      var rest := EntriesFrom(lines, parse, i + 1);
      if Strip(lines[i]) == [] {
        assert EntriesFrom(lines, parse, i) == [] + rest;
      } else {
        assert EntriesFrom(lines, parse, i) == [PlainEntry(Strip(lines[i]), parse)] + rest;
      }
    }
  }

  // ---------------------------------------------------------------------------
  // What a header block reads
  // ---------------------------------------------------------------------------

  /** An indented line's `lstrip()` drops exactly the indentation. */
  lemma IndentStripped(line: string)
    requires |line| > 2 && line[0] == ' ' && line[1] == ' ' && !IsSpace(line[2])
    ensures LStrip(line) == line[2..]
  {
    assert line[1..][1..] == line[2..];
    assert LStrip(line) == LStrip(line[1..]);
    assert LStrip(line[1..]) == LStrip(line[2..]);
    assert line[2..][0] == line[2];
  }

  /** The continuation line `  <marker> <text>`. */
  function Continuation(marker: string, text: string): string {
    "  " + (marker + (" " + text))
  }

  /** `lstrip()` of a continuation line leaves the marker and the text
      after one space. */
  lemma ContinuationStripped(marker: string, text: string)
    requires marker != [] && !IsSpace(marker[0])
    ensures LStrip(Continuation(marker, text)) == marker + (" " + text)
    ensures (marker + (" " + text))[|marker|..] == " " + text
  {
    var x := marker + (" " + text);
    assert ("  " + x)[2..] == x && ("  " + x)[2] == marker[0] by {
      assert x[0] == marker[0];
    }
    IndentStripped("  " + x);
    assert x[|marker|..] == " " + text;
  }

  /** A continuation line `  <marker> <dumped value>`: the stripped text
      after the marker parses back to the value. */
  lemma ContinuationRead(marker: string, v: Json, parse: string -> Option<Json>)
    requires IsParser(parse) && WellFormed(v)
    requires marker != [] && !IsSpace(marker[0])
    ensures LStrip(Continuation(marker, Dumps(v))) == marker + (" " + Dumps(v))
    ensures parse(Strip((marker + (" " + Dumps(v)))[|marker|..])) == Some(v)
  {
    ContinuationStripped(marker, Dumps(v));
    DumpsEdges(v);
    StripSpaceBefore(Dumps(v));
  }

  /** A `  Sistem: <json>` line sets the system payload to that value, and
      the block goes on with the next line. */
  lemma SystemLineRead(lines: seq<string>, parse: string -> Option<Json>, j: nat, v: Json, system: Json, codeDirs: Json)
    requires IsParser(parse) && WellFormed(v)
    requires j < |lines| && lines[j] == Continuation(SystemMarker, Dumps(v))
    ensures BlockLine(lines, parse, j, system, codeDirs) == (j + 1, v, codeDirs)
  {
    ContinuationRead(SystemMarker, v, parse);
    var l := LStrip(lines[j]);
    assert l[..|SystemMarker|] == SystemMarker;
  }

  /** A `  KodDizinleri: <json>` line sets the code-directory payload to
      that value, and the block goes on with the next line. */
  lemma CodeDirsLineRead(lines: seq<string>, parse: string -> Option<Json>, j: nat, v: Json, system: Json, codeDirs: Json)
    requires IsParser(parse) && WellFormed(v)
    requires j < |lines| && lines[j] == Continuation(CodeDirsMarker, Dumps(v))
    ensures BlockLine(lines, parse, j, system, codeDirs) == (j + 1, system, v)
  {
    ContinuationRead(CodeDirsMarker, v, parse);
    var l := LStrip(lines[j]);
    assert l[0] == 'K';
    assert l[..|CodeDirsMarker|] == CodeDirsMarker;
  }

  /** A continuation line starts with two spaces. */
  lemma ContinuationIndented(marker: string, text: string)
    ensures StartsWith(Continuation(marker, text), "  ")
  {
    assert Continuation(marker, text)[..2] == "  ";
  }

  /** A header followed by one `Sistem:` line with its JSON on the line,
      and then by a line that is not indented or by the end of the file,
      is one block entry holding that system value and no code
      directories; the scan resumes after the `Sistem:` line. */
  lemma HeaderSystemRead(lines: seq<string>, parse: string -> Option<Json>, i: nat, s: Json)
    requires IsParser(parse) && WellFormed(s)
    requires i + 1 < |lines| && OpensBlock(lines, parse, i)
    requires lines[i + 1] == Continuation(SystemMarker, Dumps(s))
    requires i + 2 == |lines| || !StartsWith(lines[i + 2], "  ")
    ensures LineStep(lines, parse, i) == ([Block(Strip(lines[i]), s, JNull)], i + 2)
  {
    ContinuationIndented(SystemMarker, Dumps(s));
    SystemLineRead(lines, parse, i + 1, s, JNull, JNull);
    assert ScanBlock(lines, parse, i + 1, JNull, JNull) == ScanBlock(lines, parse, i + 2, s, JNull);
  }

  /** A header followed by a `Sistem:` line and a `KodDizinleri:` line,
      each with its JSON on the line, and then by a line that is not
      indented or by the end of the file, is one block entry holding both
      payloads; the scan resumes after the two lines. */
  lemma HeaderBlockRead(lines: seq<string>, parse: string -> Option<Json>, i: nat, s: Json, c: Json)
    requires IsParser(parse) && WellFormed(s) && WellFormed(c)
    requires i + 2 < |lines| && OpensBlock(lines, parse, i)
    requires lines[i + 1] == Continuation(SystemMarker, Dumps(s))
    requires lines[i + 2] == Continuation(CodeDirsMarker, Dumps(c))
    requires i + 3 == |lines| || !StartsWith(lines[i + 3], "  ")
    ensures LineStep(lines, parse, i) == ([Block(Strip(lines[i]), s, c)], i + 3)
  {
    ContinuationIndented(SystemMarker, Dumps(s));
    ContinuationIndented(CodeDirsMarker, Dumps(c));
    SystemLineRead(lines, parse, i + 1, s, JNull, JNull);
    CodeDirsLineRead(lines, parse, i + 2, c, s, JNull);
    assert ScanBlock(lines, parse, i + 1, JNull, JNull) == ScanBlock(lines, parse, i + 2, s, JNull);
    assert ScanBlock(lines, parse, i + 2, s, JNull) == ScanBlock(lines, parse, i + 3, s, c);
  }

  /** The marker a payload follows. */
  function PayloadMarker(forSystem: bool): string {
    if forSystem then SystemMarker else CodeDirsMarker
  }

  /** The marker of an indented line is recognised, and what follows it is
      the payload text. */
  lemma MarkerRead(lines: seq<string>, j: nat, rest: string, forSystem: bool)
    requires j < |lines| && LStrip(lines[j]) == PayloadMarker(forSystem) + rest
    ensures StartsWith(LStrip(lines[j]), SystemMarker) == forSystem
    ensures StartsWith(LStrip(lines[j]), CodeDirsMarker) == !forSystem
    ensures LStrip(lines[j])[|PayloadMarker(forSystem)|..] == rest
  {
    var l := LStrip(lines[j]);
    assert l[..|PayloadMarker(forSystem)|] == PayloadMarker(forSystem);
    assert l[0] == if forSystem then 'S' else 'K';
  }

  /** A payload whose text after the marker does not parse on its own is
      joined, as `buff += lines[k]` joins it, with the following lines up
      to where gathering stops. When the joined text parses, its value is
      the payload and the block resumes at the stop line. */
  lemma BrokenPayloadJoined(lines: seq<string>, parse: string -> Option<Json>, j: nat, rest: string, forSystem: bool, v: Json, system: Json, codeDirs: Json)
    requires j < |lines| && StartsWith(lines[j], "  ")
    requires LStrip(lines[j]) == PayloadMarker(forSystem) + rest
    requires parse(Strip(rest)).None?
    requires parse(rest + Concat(lines, j + 1, GatherEnd(lines, j + 1, forSystem))) == Some(v)
    ensures var k := GatherEnd(lines, j + 1, forSystem);
      ScanBlock(lines, parse, j, system, codeDirs) ==
        if forSystem then ScanBlock(lines, parse, k, v, codeDirs) else ScanBlock(lines, parse, k, system, v)
  {
    MarkerRead(lines, j, rest, forSystem);
  }

  /** When neither the text after the marker nor the joined text parses,
      the payload becomes `None` and the block resumes at the next line. */
  lemma BrokenPayloadLost(lines: seq<string>, parse: string -> Option<Json>, j: nat, rest: string, forSystem: bool, system: Json, codeDirs: Json)
    requires j < |lines| && StartsWith(lines[j], "  ")
    requires LStrip(lines[j]) == PayloadMarker(forSystem) + rest
    requires parse(Strip(rest)).None?
    requires parse(rest + Concat(lines, j + 1, GatherEnd(lines, j + 1, forSystem))).None?
    ensures ScanBlock(lines, parse, j, system, codeDirs) ==
      if forSystem then ScanBlock(lines, parse, j + 1, JNull, codeDirs) else ScanBlock(lines, parse, j + 1, system, JNull)
  {
    MarkerRead(lines, j, rest, forSystem);
  }

  /** The file of `MigrateJsonAndBlock`: a JSON line, a header, and one
      `Sistem:` line. */
  function JsonAndBlock(e: Json, h: string, s: Json): seq<string> {
    [Dumps(e), h, Continuation(SystemMarker, Dumps(s))]
  }

  /** The header and its `Sistem:` line of that file are one entry. */
  lemma BlockOfJsonAndBlock(e: Json, h: string, s: Json, parse: string -> Option<Json>)
    requires IsParser(parse) && WellFormed(s)
    requires IsHeader(h) && Strip(h) == h && parse(h).None?
    ensures EntriesFrom(JsonAndBlock(e, h, s), parse, 1) == [Block(h, s, JNull)]
  {
    var lines := JsonAndBlock(e, h, s);
    HeaderSystemRead(lines, parse, 1, s);
    assert EntriesFrom(lines, parse, 3) == [];
  }

  /** The JSON line of that file is kept as its value, before the block. */
  lemma EntriesOfJsonAndBlock(e: Json, h: string, s: Json, parse: string -> Option<Json>)
    requires IsParser(parse) && WellFormed(e) && WellFormed(s)
    requires IsHeader(h) && Strip(h) == h && parse(h).None?
    ensures EntriesFrom(JsonAndBlock(e, h, s), parse, 0) == [Parsed(e), Block(h, s, JNull)]
  {
    var lines := JsonAndBlock(e, h, s);
    DumpedLineStep(lines, parse, 0, e);
    BlockOfJsonAndBlock(e, h, s, parse);
    assert EntriesFrom(lines, parse, 0) == [Parsed(e)] + EntriesFrom(lines, parse, 1);
  }

  /** A JSON line followed by a header block with a `Sistem:` line migrates
      to two events: the JSON value as it is, and the header's object with
      that system value and no code directories. */
  lemma MigrateJsonAndBlock(e: Json, h: string, s: Json, parse: string -> Option<Json>)
    requires IsParser(parse) && WellFormed(e) && WellFormed(s)
    requires IsHeader(h) && Strip(h) == h && parse(h).None?
    ensures Migrate(JsonAndBlock(e, h, s), parse) == [e, HeaderEvent(ParseHeader(h), s, JNull)]
  {
    EntriesOfJsonAndBlock(e, h, s, parse);
    var entries := [Parsed(e), Block(h, s, JNull)];
    assert entries[1..] == [Block(h, s, JNull)];
    assert Events(entries) == [e] + Events([Block(h, s, JNull)]);
  }

  /** The payloads a block collects are values a Python program can hold. */
  lemma {:induction false} ScanBlockWellFormed(lines: seq<string>, parse: string -> Option<Json>, j: nat, system: Json, codeDirs: Json)
    requires IsParser(parse)
    requires j <= |lines|
    requires WellFormed(system) && WellFormed(codeDirs)
    decreases |lines| - j
    ensures WellFormed(ScanBlock(lines, parse, j, system, codeDirs).1)
    ensures WellFormed(ScanBlock(lines, parse, j, system, codeDirs).2)
  {
    if j < |lines| && StartsWith(lines[j], "  ") {
      var b := BlockLine(lines, parse, j, system, codeDirs);
      assert WellFormed(b.1) && WellFormed(b.2);
      ScanBlockWellFormed(lines, parse, b.0, b.1, b.2);
    }
  }

  /** Entries whose values a Python program can hold. */
  predicate EntryWellFormed(e: Entry) {
    match e
    case Parsed(v) => WellFormed(v)
    case Block(_, system, codeDirs) => WellFormed(system) && WellFormed(codeDirs)
    case RawLine(_) => true
  }

  lemma {:induction false} EntriesWellFormed(lines: seq<string>, parse: string -> Option<Json>, i: nat)
    requires IsParser(parse)
    requires i <= |lines|
    decreases |lines| - i
    ensures forall k :: 0 <= k < |EntriesFrom(lines, parse, i)| ==> EntryWellFormed(EntriesFrom(lines, parse, i)[k])
  {
    if i < |lines| {
      var step := LineStep(lines, parse, i);
      if Strip(lines[i]) != [] && parse(Strip(lines[i])).None? && IsHeader(Strip(lines[i])) {
        ScanBlockWellFormed(lines, parse, i + 1, JNull, JNull);
      }
      assert forall k :: 0 <= k < |step.0| ==> EntryWellFormed(step.0[k]);
      EntriesWellFormed(lines, parse, step.1);
      var rest := EntriesFrom(lines, parse, step.1);
      assert EntriesFrom(lines, parse, i) == step.0 + rest;
      assert forall k :: |step.0| <= k < |step.0| + |rest| ==> (step.0 + rest)[k] == rest[k - |step.0|];
    }
  }

  /** A header event is a well-formed object when its payloads are. */
  lemma HeaderEventWellFormed(h: Header, system: Json, codeDirs: Json)
    requires h.event.JStr? || h.event.JNull?
    requires h.username.JStr? || h.username.JNull?
    requires h.fullName.JStr? || h.fullName.JNull?
    requires WellFormed(system) && WellFormed(codeDirs)
    ensures WellFormed(HeaderEvent(h, system, codeDirs))
  {
    var fs := HeaderEvent(h, system, codeDirs).fields;
    assert WellFormedFields(fs[5..]);
    assert WellFormedFields(fs[4..]);
    assert WellFormedFields(fs[3..]);
    assert WellFormedFields(fs[2..]);
    assert WellFormedFields(fs[1..]);
  }

  lemma EntryEventWellFormed(e: Entry)
    requires EntryWellFormed(e)
    ensures WellFormed(EntryEvent(e))
  {
    if e.Block? {
      HeaderEventWellFormed(ParseHeader(e.header), e.system, e.codeDirs);
    }
  }

  lemma {:induction false} EventsWellFormed(entries: seq<Entry>)
    requires forall k :: 0 <= k < |entries| ==> EntryWellFormed(entries[k])
    decreases |entries|
    ensures forall k :: 0 <= k < |Events(entries)| ==> WellFormed(Events(entries)[k])
  {
    if entries != [] {
      EntryEventWellFormed(entries[0]);
      EventsWellFormed(entries[1..]);
      assert forall k :: 1 <= k < |entries| ==> Events(entries)[k] == Events(entries[1..])[k - 1];
    }
  }

  /** Every event `migrate_logs` writes is a value a Python program can
      hold. */
  lemma MigrateWellFormed(lines: seq<string>, parse: string -> Option<Json>)
    requires IsParser(parse)
    ensures forall k :: 0 <= k < |Migrate(lines, parse)| ==> WellFormed(Migrate(lines, parse)[k])
  {
    EntriesWellFormed(lines, parse, 0);
    EventsWellFormed(EntriesFrom(lines, parse, 0));
  }

  /** A line `migrate_logs` wrote is read back as the value it holds. */
  lemma DumpedLineStep(lines: seq<string>, parse: string -> Option<Json>, i: nat, v: Json)
    requires IsParser(parse)
    requires WellFormed(v)
    requires i < |lines| && lines[i] == Dumps(v)
    ensures LineStep(lines, parse, i) == ([Parsed(v)], i + 1)
  {
    StripDumps(v);
    DumpsEdges(v);
  }

  /** In a file that is already JSON lines, as `migrate_logs` writes it,
      every line from `i` on is kept as the value it holds. */
  lemma {:induction false} EventsOfDumped(events: seq<Json>, parse: string -> Option<Json>, i: nat)
    requires IsParser(parse)
    requires forall k :: 0 <= k < |events| ==> WellFormed(events[k])
    requires i <= |events|
    decreases |events| - i
    ensures Events(EntriesFrom(DumpLines(events), parse, i)) == events[i..]
  {
    var lines := DumpLines(events);
    if i < |events| {
      DumpedLineStep(lines, parse, i, events[i]);
      EventsOfDumped(events, parse, i + 1);
      var rest := EntriesFrom(lines, parse, i + 1);
      EventsAppend([Parsed(events[i])], rest);
      calc {
        Events(EntriesFrom(lines, parse, i));
        Events([Parsed(events[i])] + rest);
        Events([Parsed(events[i])]) + Events(rest);
        [events[i]] + events[i + 1..];
        events[i..];
      }
    }
  }

  /** Migrating the JSON lines of well-formed events gives back exactly
      those events. */
  lemma MigrateDumped(events: seq<Json>, parse: string -> Option<Json>)
    requires IsParser(parse)
    requires forall k :: 0 <= k < |events| ==> WellFormed(events[k])
    ensures Migrate(DumpLines(events), parse) == events
  {
    assert events[0..] == events;
    EventsOfDumped(events, parse, 0);
  }

  /** Running `migrate_logs` a second time changes nothing: the rewritten
      file migrates to the same events. */
  lemma MigrateIdempotent(lines: seq<string>, parse: string -> Option<Json>)
    requires IsParser(parse)
    ensures Migrate(DumpLines(Migrate(lines, parse)), parse) == Migrate(lines, parse)
  {
    MigrateWellFormed(lines, parse);
    MigrateDumped(Migrate(lines, parse), parse);
  }
}
