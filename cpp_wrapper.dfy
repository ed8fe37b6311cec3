/** `CppAdminWrapper` of `cpp_admin_wrapper.py`: each helper calls into the
    extension when it was importable and falls back to pure Python when it
    is not or when the call raises. */
module CppWrapper {
  import opened Wrappers
  import opened Text
  import opened Bytes
  import opened Utf8
  import opened CppExtension

  // ---------------------------------------------------------------------
  // validate_input_fast

  /** `dangerous_chars`: substrings, looked for in this order. */
  const DangerousSubstrings: seq<string> := ["'", "\"", ";", "--", "/*", "*/"]

  /** The index of the first dangerous substring, from `from` on, that
      occurs in `input`. */
  function FirstDangerous(input: string, from: nat): (r: Option<nat>)
    decreases |DangerousSubstrings| - from
    ensures r.Some? ==> from <= r.value < |DangerousSubstrings|
    ensures r.Some? ==> Contains(input, DangerousSubstrings[r.value])
    ensures r.Some? ==> forall k :: from <= k < r.value ==> !Contains(input, DangerousSubstrings[k])
    ensures r.None? ==> forall k :: from <= k < |DangerousSubstrings| ==> !Contains(input, DangerousSubstrings[k])
  {
    if from >= |DangerousSubstrings| then None
    else if Contains(input, DangerousSubstrings[from]) then Some(from)
    else FirstDangerous(input, from + 1)
  }

  function RangeMessage(minLen: int, maxLen: int): string {
    "Length must be between " + IntToString(minLen) + " and " + IntToString(maxLen)
  }

  /** `_validate_fallback`; the length is the number of code points. */
  function ValidateFallback(input: string, minLen: int, maxLen: int): (r: (bool, string))
    ensures r.0 <==> r.1 == ""
  {
    if input == [] then (false, "Input is empty")
    else if |input| < minLen || |input| > maxLen then (false, RangeMessage(minLen, maxLen))
    else match FirstDangerous(input, 0)
      case Some(k) => (false, "Dangerous character detected: " + DangerousSubstrings[k])
      case None => (true, "")
  }

  /** The fallback's rule, stated on its own. */
  predicate FallbackAccepts(input: string, minLen: int, maxLen: int) {
    && input != []
    && minLen <= |input| <= maxLen
    && forall k :: 0 <= k < |DangerousSubstrings| ==> !Contains(input, DangerousSubstrings[k])
  }

  /** The fallback accepts exactly by its rule; an empty input is reported
      before any length check, a bad length before any dangerous substring,
      and the dangerous substring reported is the first in the fixed order. */
  lemma ValidateFallbackRule(input: string, minLen: int, maxLen: int)
    ensures ValidateFallback(input, minLen, maxLen).0 <==> FallbackAccepts(input, minLen, maxLen)
    ensures input == [] ==> ValidateFallback(input, minLen, maxLen) == (false, "Input is empty")
    ensures input != [] && !(minLen <= |input| <= maxLen) ==>
              ValidateFallback(input, minLen, maxLen) == (false, RangeMessage(minLen, maxLen))
    ensures input != [] && minLen <= |input| <= maxLen ==>
              forall k :: (0 <= k < |DangerousSubstrings| && Contains(input, DangerousSubstrings[k])
                           && forall j :: 0 <= j < k ==> !Contains(input, DangerousSubstrings[j])) ==>
                ValidateFallback(input, minLen, maxLen) == (false, "Dangerous character detected: " + DangerousSubstrings[k])
  {
    var f := FirstDangerous(input, 0);
    if f.Some? {
      assert forall k :: (0 <= k < |DangerousSubstrings| && Contains(input, DangerousSubstrings[k])
                          && forall j :: 0 <= j < k ==> !Contains(input, DangerousSubstrings[j])) ==>
                k == f.value;
    }
  }

  /** What came back from the extension call. */
  datatype Reply =
    | Raised                               // the call raised
    | Pair(valid: bool, message: string)   // a tuple of length 2
    | Other(value: bool)                   // any other value

  /** The reply `cpp_validate_input_fast` gives: always a pair, unless
      argument parsing raises. */
  function ExtensionReply(input: string, minLen: int, maxLen: int): (r: Reply)
    ensures !r.Other?
  {
    match ValidateResult(input, minLen, maxLen)
    case None => Raised
    case Some(p) => Pair(p.0, p.1)
  }

  /** The dispatch of `validate_input_fast`. */
  function Dispatch(available: bool, reply: Reply, fallback: (bool, string)): (r: (bool, string)) {
    if !available then fallback
    else match reply
      case Raised => fallback
      case Pair(v, m) => (v, m)
      case Other(v) => (v, "")
  }

  /** `CppAdminWrapper.validate_input_fast`. Whichever rule answers, the
      message is empty exactly on acceptance, and an accepted input holds
      none of the fallback's dangerous substrings. */
  function ValidateInputFast(available: bool, input: string, minLen: int, maxLen: int): (r: (bool, string))
    ensures r.0 <==> r.1 == ""
    ensures r.0 ==> FirstDangerous(input, 0).None?
  {
    CppAcceptedHasNoDanger(input, minLen, maxLen);
    Dispatch(available, ExtensionReply(input, minLen, maxLen), ValidateFallback(input, minLen, maxLen))
  }

  /** What the C++ rule accepts holds no dangerous substring of the
      fallback's list. */
  lemma CppAcceptedHasNoDanger(input: string, minLen: int, maxLen: int)
    ensures Accepts(input, minLen, maxLen) ==> FirstDangerous(input, 0).None?
  {
    if FirstDangerous(input, 0).Some? {
      CppRejectsFallbackDanger(input, minLen, maxLen);
    }
  }

  /** Which rule decides: the C++ one when the extension is there and its
      argument parsing succeeds, the fallback's otherwise. Either way the
      message is empty exactly when the input is accepted. */
  lemma ValidateInputFastRule(available: bool, input: string, minLen: int, maxLen: int)
    ensures available && !HasNul(input) && IsCInt(minLen) && IsCInt(maxLen) ==>
              ValidateInputFast(available, input, minLen, maxLen)
              == (Accepts(input, minLen, maxLen), if Accepts(input, minLen, maxLen) then "" else "Invalid input")
    ensures !(available && !HasNul(input) && IsCInt(minLen) && IsCInt(maxLen)) ==>
              ValidateInputFast(available, input, minLen, maxLen) == ValidateFallback(input, minLen, maxLen)
    ensures ValidateInputFast(available, input, minLen, maxLen).0
            <==> ValidateInputFast(available, input, minLen, maxLen).1 == ""
  {
  }

  /** Every dangerous substring starts with a dangerous character. */
  lemma FallbackDangerIsCppDanger(input: string, k: nat)
    requires k < |DangerousSubstrings| && Contains(input, DangerousSubstrings[k])
    ensures DangerousSubstrings[k][0] in Dangerous && DangerousSubstrings[k][0] in input
  {
    var d := DangerousSubstrings[k];
    var i := Find(input, d).value;
    assert OccursAt(input, d, i);
    assert input[i] == input[i..i + |d|][0] == d[0];
  }

  /** So whatever the fallback turns away for its content, the C++ rule
      turns away too, whatever the bounds. */
  lemma CppRejectsFallbackDanger(input: string, minLen: int, maxLen: int)
    requires FirstDangerous(input, 0).Some?
    ensures !Accepts(input, minLen, maxLen)
  {
    var k := FirstDangerous(input, 0).value;
    FallbackDangerIsCppDanger(input, k);
    var c := DangerousSubstrings[k][0];
    var j :| 0 <= j < |Dangerous| && Dangerous[j] == c;
  }

  /** On a non-empty ASCII input, where bytes and code points agree, what
      the C++ rule accepts the fallback accepts too. */
  lemma CppAcceptedAsciiPassesFallback(input: string, minLen: int, maxLen: int)
    requires IsAscii(input) && input != []
    requires Accepts(input, minLen, maxLen)
    ensures ValidateFallback(input, minLen, maxLen) == (true, "")
  {
    EncodeAsciiLength(input);
    if FirstDangerous(input, 0).Some? {
      CppRejectsFallbackDanger(input, minLen, maxLen);
    }
  }

  /** The converse fails: a lone `-` or `/` passes the fallback and not the
      C++ rule. */
  lemma LoneHyphenOrSlash()
    ensures ValidateFallback("a-b", 3, 100) == (true, "")
    ensures ValidateInputFast(true, "a-b", 3, 100) == (false, "Invalid input")
    ensures ValidateFallback("a/b", 3, 100) == (true, "")
    ensures ValidateInputFast(true, "a/b", 3, 100) == (false, "Invalid input")
  {
    NoDangerousSubstring("a-b");
    NoDangerousSubstring("a/b");
    assert Dangerous[3] in "a-b";
    assert Dangerous[5] in "a/b";
  }

  lemma NoDangerousSubstring(s: string)
    requires |s| == 3 && s[0] == 'a' && s[2] == 'b' && (s[1] == '-' || s[1] == '/')
    ensures FirstDangerous(s, 0).None?
  {
    forall k | 0 <= k < |DangerousSubstrings|
      ensures !Contains(s, DangerousSubstrings[k])
    {
      var d := DangerousSubstrings[k];
      forall i | 0 <= i
        ensures !OccursAt(s, d, i)
      {
        if i + |d| <= |s| {
          if s[i] != d[0] {
            assert s[i..i + |d|][0] != d[0];
          } else {
            assert |d| == 2 && s[i + 1] != d[1];
            assert s[i..i + |d|][1] != d[1];
          }
        }
      }
      ContainsIff(s, d);
    }
  }

  /** The empty input is turned away by the fallback even when the minimum
      length is 0, which the C++ rule lets through. */
  lemma EmptyInputWithZeroMinimum(maxLen: int)
    requires 0 <= maxLen < 0x8000_0000
    ensures ValidateFallback("", 0, maxLen) == (false, "Input is empty")
    ensures ValidateInputFast(true, "", 0, maxLen) == (true, "")
  {
    assert Encode("") == [];
  }

  /** The C++ rule counts bytes, the fallback code points: three two-byte
      characters are too long for a maximum of 5 in one and not the other. */
  lemma BytesVersusCodePoints()
    ensures ValidateFallback("ééé", 3, 5) == (true, "")
    ensures ValidateInputFast(true, "ééé", 3, 5) == (false, "Invalid input")
  {
    var s := "ééé";
    assert EncodeChar('é') == [0xC3, 0xA9];
    assert Encode(s) == [0xC3, 0xA9] + Encode(s[1..]);
    assert Encode(s[1..]) == [0xC3, 0xA9] + Encode(s[2..]);
    assert s[2..] == "é";
    assert |Encode(s)| == 6;
    forall k | 0 <= k < |DangerousSubstrings|
      ensures !Contains(s, DangerousSubstrings[k])
    {
      var d := DangerousSubstrings[k];
      forall i | 0 <= i
        ensures !OccursAt(s, d, i)
      {
        if i + |d| <= |s| {
          assert s[i..i + |d|][0] != d[0];
        }
      }
      ContainsIff(s, d);
    }
  }

  // ---------------------------------------------------------------------
  // fast_string_compare

  /** `hmac.compare_digest` on two `str` values: it raises `TypeError`
      (`None`) unless both are ASCII. */
  function CompareFallback(a: string, b: string): Option<bool> {
    if IsAscii(a) && IsAscii(b) then Some(a == b) else None
  }

  /** `CppAdminWrapper.fast_string_compare`; `None` where it raises. */
  function FastStringCompare(available: bool, a: string, b: string): Option<bool> {
    if available then
      match CompareResult(a, b)
      case Some(x) => Some(x)
      case None => CompareFallback(a, b)
    else CompareFallback(a, b)
  }

  /** Whichever path answers, the answer is string equality. It raises only
      when the fallback answers and one of the strings is not ASCII. */
  lemma CompareIsStringEquality(available: bool, a: string, b: string)
    ensures FastStringCompare(available, a, b).Some? ==> FastStringCompare(available, a, b).value == (a == b)
    ensures FastStringCompare(available, a, b).None?
            <==> (!available || HasNul(a) || HasNul(b)) && !(IsAscii(a) && IsAscii(b))
  {
    CompareIsEquality(a, b);
  }

  // ---------------------------------------------------------------------
  // fast_hash_password

  /** `_hash_fallback`: the hex digest of SHA-256, `sha256`, over the UTF-8
      bytes of `salt + password`. */
  function HashFallback(sha256: seq<byte> -> seq<byte>, password: string, salt: string): (r: string)
    ensures |r| == 2 * |sha256(Encode(salt + password))|
    ensures FromHex(r) == Some(sha256(Encode(salt + password)))
  {
    FromHexToHex(sha256(Encode(salt + password)));
    ToHex(sha256(Encode(salt + password)))
  }

  /** `CppAdminWrapper.fast_hash_password` */
  function FastHashPassword(available: bool, sha256: seq<byte> -> seq<byte>, password: string, salt: string): (r: string)
    ensures r == HashFallback(sha256, password, salt) || (available && HashResult(password, salt) == Some(r))
    ensures available && !HasNul(password) && !HasNul(salt) ==> |r| == 16
  {
    if available then
      match HashResult(password, salt)
      case Some(h) => h
      case None => HashFallback(sha256, password, salt)
    else HashFallback(sha256, password, salt)
  }

  /** Both paths see only `salt + password`. */
  lemma FastHashDependsOnConcatenation(available: bool, sha256: seq<byte> -> seq<byte>,
                                       p1: string, s1: string, p2: string, s2: string)
    requires s1 + p1 == s2 + p2
    ensures FastHashPassword(available, sha256, p1, s1) == FastHashPassword(available, sha256, p2, s2)
  {
    HashDependsOnConcatenation(p1, s1, p2, s2);
    assert HashFallback(sha256, p1, s1) == HashFallback(sha256, p2, s2);
  }

  /** The two paths never produce the same text: 16 hex digits against
      the 64 of a 32-byte digest. A hash stored through one path therefore
      never matches one recomputed through the other. */
  lemma HashPathsDiffer(sha256: seq<byte> -> seq<byte>, password: string, salt: string)
    requires |sha256(Encode(salt + password))| == 32
    ensures HashResult(password, salt).Some? ==> HashResult(password, salt).value != HashFallback(sha256, password, salt)
    ensures FastHashPassword(true, sha256, password, salt) == HashFallback(sha256, password, salt)
            <==> HasNul(password) || HasNul(salt)
  {
    FallbackLength(sha256, password, salt);
  }

  lemma FallbackLength(sha256: seq<byte> -> seq<byte>, password: string, salt: string)
    requires |sha256(Encode(salt + password))| == 32
    ensures |HashFallback(sha256, password, salt)| == 64
  {
  }
}
