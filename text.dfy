/** The few operations on Python `str` values that the modelled code uses,
    with Python's semantics: `isspace`-style whitespace for `strip()`, the
    first occurrence for `in`, `find` and `split(sep, 1)`, left-to-right
    non-overlapping cuts for `split(sep)`. */
module Text {
  import opened Wrappers

  /** The characters Python's `str.strip()` removes when called without an
      argument (the characters for which `str.isspace()` holds). */
  predicate IsSpace(c: char) {
    c == '\t' || c == '\n' || c == '\U{0B}' || c == '\U{0C}' || c == '\r'
    || ('\U{1C}' <= c <= '\U{1F}') || c == ' ' || c == '\U{85}' || c == '\U{A0}'
    || c == '\U{1680}' || ('\U{2000}' <= c <= '\U{200A}') || c == '\U{2028}' || c == '\U{2029}'
    || c == '\U{202F}' || c == '\U{205F}' || c == '\U{3000}'
  }

  /** `s.lstrip()` */
  function LStrip(s: string): (r: string)
    ensures |r| <= |s|
  {
    if |s| > 0 && IsSpace(s[0]) then LStrip(s[1..]) else s
  }

  /** `lstrip()` removes leading whitespace and nothing else: the result is
      a suffix of the input that does not start with whitespace, and every
      character cut off is whitespace. */
  lemma {:induction false} LStripShape(s: string)
    decreases |s|
    ensures LStrip(s) == s[|s| - |LStrip(s)|..]
    ensures LStrip(s) == [] || !IsSpace(LStrip(s)[0])
    ensures forall i :: 0 <= i < |s| - |LStrip(s)| ==> IsSpace(s[i])
  {
    if |s| > 0 && IsSpace(s[0]) {
      LStripShape(s[1..]);
      assert s[1..][|s| - 1 - |LStrip(s)|..] == s[|s| - |LStrip(s)|..];
      assert forall i :: 1 <= i < |s| ==> s[i] == s[1..][i - 1];
    }
  }

  /** `s.rstrip()` */
  function RStrip(s: string): (r: string)
    ensures |r| <= |s|
  {
    if |s| > 0 && IsSpace(s[|s| - 1]) then RStrip(s[..|s| - 1]) else s
  }

  /** `rstrip()` removes trailing whitespace and nothing else: the result
      is a prefix of the input that does not end with whitespace, and every
      character cut off is whitespace. */
  lemma {:induction false} RStripShape(s: string)
    decreases |s|
    ensures RStrip(s) == s[..|RStrip(s)|]
    ensures RStrip(s) == [] || !IsSpace(RStrip(s)[|RStrip(s)| - 1])
    ensures forall i :: |RStrip(s)| <= i < |s| ==> IsSpace(s[i])
  {
    if |s| > 0 && IsSpace(s[|s| - 1]) {
      RStripShape(s[..|s| - 1]);
      assert s[..|s| - 1][..|RStrip(s)|] == s[..|RStrip(s)|];
    }
  }

  /** `s.strip()` */
  function Strip(s: string): (r: string)
  {
    RStrip(LStrip(s))
  }

  /** Stripping removes whitespace only at the two ends: the result is the
      slice of the input that starts after the leading whitespace, and it
      has no whitespace at either end. */
  lemma StripShape(s: string)
    ensures Strip(s) == s[|s| - |LStrip(s)|..|s| - |LStrip(s)| + |Strip(s)|]
    ensures Strip(s) == [] || (!IsSpace(Strip(s)[0]) && !IsSpace(Strip(s)[|Strip(s)| - 1]))
  {
    var l := LStrip(s);
    var r := RStrip(l);
    LStripShape(s);
    RStripShape(l);
    if r != [] {
      assert r[0] == l[0];
    }
  }

  /** A string that already has no whitespace at either end is its own strip. */
  lemma StripNoEdges(s: string)
    requires s == [] || (!IsSpace(s[0]) && !IsSpace(s[|s| - 1]))
    ensures Strip(s) == s
  {
  }

  /** Stripping one space in front of text with no whitespace at its ends
      gives that text. */
  lemma StripSpaceBefore(w: string)
    requires w != [] && !IsSpace(w[0]) && !IsSpace(w[|w| - 1])
    ensures Strip(" " + w) == w
  {
    assert (" " + w)[1..] == w;
    StripNoEdges(w);
  }

  /** `strip()` is idempotent. */
  lemma StripIdempotent(s: string)
    ensures Strip(Strip(s)) == Strip(s)
  {
    StripShape(s);
    StripNoEdges(Strip(s));
  }

  /** After `k` leading whitespace characters and a non-whitespace one,
      `strip()` starts with that character. */
  lemma StripFirst(s: string, k: nat)
    requires k < |s| && !IsSpace(s[k])
    requires forall i :: 0 <= i < k ==> IsSpace(s[i])
    ensures Strip(s) != [] && Strip(s)[0] == s[k]
  {
    var l := LStrip(s);
    LStripShape(s);
    var c := |s| - |l|;
    assert c <= k;
    assert l[0] == s[k];
    RStripShape(l);
  }

  /** `s.lstrip(chars)` for an explicit set of characters. */
  function LStripChars(s: string, chars: set<char>): (r: string)
    ensures |r| <= |s|
    ensures r == [] || r[0] !in chars
  {
    if |s| > 0 && s[0] in chars then LStripChars(s[1..], chars) else s
  }

  /** `lstrip(chars)` removes a prefix: the result is a suffix of the input. */
  lemma {:induction false} LStripCharsShape(s: string, chars: set<char>)
    decreases |s|
    ensures LStripChars(s, chars) == s[|s| - |LStripChars(s, chars)|..]
  {
    if |s| > 0 && s[0] in chars {
      LStripCharsShape(s[1..], chars);
      assert s[1..][|s| - 1 - |LStripChars(s, chars)|..] == s[|s| - |LStripChars(s, chars)|..];
    }
  }

  /** `s.startswith(p)` */
  predicate StartsWith(s: string, p: string) {
    |p| <= |s| && s[..|p|] == p
  }

  /** True when `p` occurs in `s` at index `i`. */
  predicate OccursAt(s: string, p: string, i: int) {
    0 <= i && i + |p| <= |s| && s[i..i + |p|] == p
  }

  /** The index of the first occurrence of `p` in `s` at or after `from`. */
  function FindFrom(s: string, p: string, from: nat): (r: Option<nat>)
    decreases |s| - from
    ensures r.Some? ==> from <= r.value && OccursAt(s, p, r.value)
    ensures r.Some? ==> forall i :: from <= i < r.value ==> !OccursAt(s, p, i)
    ensures r.None? ==> forall i :: from <= i ==> !OccursAt(s, p, i)
  {
    if from + |p| > |s| then None
    else if s[from..from + |p|] == p then Some(from)
    else FindFrom(s, p, from + 1)
  }

  /** `s.find(p)`, as an option: the first index where `p` occurs. */
  function Find(s: string, p: string): Option<nat> {
    FindFrom(s, p, 0)
  }

  /** `p in s` */
  predicate Contains(s: string, p: string) {
    Find(s, p).Some?
  }

  /** An occurrence with none before it is the one `find` reports. */
  lemma FindFirstAt(s: string, p: string, k: nat)
    requires OccursAt(s, p, k)
    requires forall i :: 0 <= i < k ==> !OccursAt(s, p, i)
    ensures Find(s, p) == Some(k)
  {
  }

  /** One character of `s` that differs from `p` rules out an occurrence. */
  lemma MismatchNotOccurs(s: string, p: string, i: nat, k: nat)
    requires k < |p| && i + k < |s| && s[i + k] != p[k]
    ensures !OccursAt(s, p, i)
  {
    if i + |p| <= |s| {
      assert s[i..i + |p|][k] == s[i + k];
    }
  }

  /** `p in s` holds exactly when `p` occurs somewhere in `s`. */
  lemma ContainsIff(s: string, p: string)
    ensures Contains(s, p) <==> exists i :: OccursAt(s, p, i)
  {
    if Contains(s, p) {
      assert OccursAt(s, p, Find(s, p).value);
    }
  }

  /** The part after the first occurrence of `p`: `s.split(p, 1)[1]`. */
  function After(s: string, p: string): string
    requires Contains(s, p)
  {
    s[Find(s, p).value + |p|..]
  }

  /** The part before the first occurrence of `p`: `s.split(p, 1)[0]`. */
  function Before(s: string, p: string): string
    requires Contains(s, p)
  {
    s[..Find(s, p).value]
  }

  /** `s.split(sep)` for a non-empty separator. */
  function SplitAll(s: string, sep: string): (r: seq<string>)
    requires sep != []
    decreases |s|
    ensures |r| >= 1
  {
    match Find(s, sep)
    case None => [s]
    case Some(i) => [s[..i]] + SplitAll(s[i + |sep|..], sep)
  }

  /** `s.replace("\n", " ").replace("\r", " ")` */
  function CollapseBreaks(s: string): (r: string)
    ensures |r| == |s|
    ensures forall i :: 0 <= i < |s| ==> r[i] == (if s[i] == '\n' || s[i] == '\r' then ' ' else s[i])
  {
    if s == [] then []
    else [if s[0] == '\n' || s[0] == '\r' then ' ' else s[0]] + CollapseBreaks(s[1..])
  }

  /** No line break occurs in `s`. */
  predicate NoBreaks(s: string) {
    forall i :: 0 <= i < |s| ==> s[i] != '\n' && s[i] != '\r'
  }

  /** A slice of a string without line breaks has none either. */
  lemma NoBreaksSlice(s: string, a: int, b: int)
    requires NoBreaks(s) && 0 <= a <= b <= |s|
    ensures NoBreaks(s[a..b])
  {
    assert forall i :: 0 <= i < b - a ==> s[a..b][i] == s[a + i];
  }

  /** Decimal digits of a natural number, most significant first. */
  function NatToString(n: nat): (r: string)
    decreases n
    ensures |r| >= 1
    ensures forall i :: 0 <= i < |r| ==> '0' <= r[i] <= '9'
  {
    if n < 10 then [DigitChar(n)] else NatToString(n / 10) + [DigitChar(n % 10)]
  }

  function DigitChar(d: nat): (c: char)
    requires d < 10
    ensures '0' <= c <= '9'
  {
    ['0', '1', '2', '3', '4', '5', '6', '7', '8', '9'][d]
  }

  /** `str(i)` for a Python int. */
  function IntToString(i: int): (r: string)
    ensures |r| >= 1
    ensures r[0] == '-' || '0' <= r[0] <= '9'
    ensures '0' <= r[|r| - 1] <= '9'
  {
    if i < 0 then "-" + NatToString(-i) else NatToString(i)
  }

  /** Python's `str.lower()` as far as ASCII results are concerned: the
      ASCII capitals and the KELVIN SIGN, the one non-ASCII character whose
      lower-case form is a single ASCII letter. */
  function LowerChar(c: char): char {
    if 'A' <= c <= 'Z' then (c as int + 32) as char
    else if c == '\U{212A}' then 'k'
    else c
  }

  function Lower(s: string): (r: string)
    ensures |r| == |s|
    ensures forall i :: 0 <= i < |s| ==> r[i] == LowerChar(s[i])
  {
    if s == [] then [] else [LowerChar(s[0])] + Lower(s[1..])
  }

  /** The number of lines from `i` on that are not blank after `strip()`. */
  function NonBlankFrom(lines: seq<string>, i: nat): nat
    requires i <= |lines|
    decreases |lines| - i
  {
    if i == |lines| then 0
    else (if Strip(lines[i]) == [] then 0 else 1) + NonBlankFrom(lines, i + 1)
  }

  lemma {:induction false} NonBlankMonotone(lines: seq<string>, a: nat, b: nat)
    requires a <= b <= |lines|
    decreases b - a
    ensures NonBlankFrom(lines, b) <= NonBlankFrom(lines, a)
  {
    if a < b {
      NonBlankMonotone(lines, a + 1, b);
    }
  }
}
