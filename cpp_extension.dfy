/** `cpp_admin_extension.cpp`: the four functions of the C extension, as
    they treat the UTF-8 bytes Python hands them. On LP64 `unsigned long`
    is 64 bits wide and `int` 32; `char` is signed. */
module CppExtension {
  import opened Wrappers
  import opened Bytes
  import opened Utf8

  /** 2^64: `unsigned long` arithmetic is modulo this. */
  const Word: nat := 0x1_0000_0000_0000_0000
  const Djb2Start: nat := 5381

  /** The argument format `i` accepts exactly the values of a C `int`. */
  predicate IsCInt(x: int) {
    -0x8000_0000 <= x < 0x8000_0000
  }

  /** The argument format `s` raises `ValueError` on an embedded NUL, so
      such a string never reaches the C code. */
  predicate HasNul(s: string) {
    '\0' in s
  }

  // ---------------------------------------------------------------------
  // cpp_fast_hash_password

  /** The value of `int c = *str` for a byte, with `char` signed. */
  function SignedChar(b: byte): (r: int)
    ensures -128 <= r < 128
    ensures r % 256 == b
  {
    if b < 128 then b else b - 256
  }

  /** One round of `hash = ((hash << 5) + hash) + c`: `c` is converted to
      `unsigned long`, and the sum wraps around. */
  function Step(h: nat, b: byte): (r: nat)
    ensures r < Word
  {
    (h * 33 + SignedChar(b)) % Word
  }

  /** djb2 of a byte string, one round per byte from the left. */
  function Djb2(bs: seq<byte>): (r: nat)
    ensures bs == [] ==> r == Djb2Start
    ensures bs != [] ==> r < Word
  {
    if bs == [] then Djb2Start else Step(Djb2(bs[..|bs| - 1]), bs[|bs| - 1])
  }

  function Pow16(n: nat): (r: nat)
    ensures r >= 1
  {
    if n == 0 then 1 else 16 * Pow16(n - 1)
  }

  /** The `n` low hexadecimal digits of `h`, most significant first,
      lower case, zero-padded: `%0<n>lx` for a value below 16^n. */
  function HexWord(h: nat, n: nat): (r: string)
    ensures |r| == n
  {
    if n == 0 then "" else HexWord(h / 16, n - 1) + [HexDigit(h % 16)]
  }

  /** `snprintf(hash_str, 65, "%016lx", hash)` */
  function Hex16(h: nat): (r: string)
    ensures |r| == 16
  {
    HexWord(h, 16)
  }

  /** Sixteen-digit, or generally n-digit, output loses nothing below 16^n:
      equal digit strings come from equal values. */
  lemma {:induction false} HexWordInjective(h1: nat, h2: nat, n: nat)
    requires h1 < Pow16(n) && h2 < Pow16(n)
    requires HexWord(h1, n) == HexWord(h2, n)
    ensures h1 == h2
  {
    if n > 0 {
      var s1, s2 := HexWord(h1, n), HexWord(h2, n);
      assert HexValue(s1[n - 1]) == Some(h1 % 16);
      assert HexValue(s2[n - 1]) == Some(h2 % 16);
      assert s1[..n - 1] == HexWord(h1 / 16, n - 1);
      assert s2[..n - 1] == HexWord(h2 / 16, n - 1);
      HexWordInjective(h1 / 16, h2 / 16, n - 1);
    }
  }

  lemma ZeroDigits(n: nat)
    ensures HexWord(0, n) == seq(n, _ => '0')
  {
    if n > 0 {
      ZeroDigits(n - 1);
    }
  }

  lemma Pow16Word()
    ensures Pow16(16) == Word
  {
    assert Pow16(4) == 0x1_0000;
    assert Pow16(8) == 0x1_0000_0000 by { assert Pow16(8) == Pow16(4) * 16 * 16 * 16 * 16; }
    assert Pow16(12) == 0x1_0000_0000_0000 by { assert Pow16(12) == Pow16(8) * 16 * 16 * 16 * 16; }
    assert Pow16(16) == Pow16(12) * 16 * 16 * 16 * 16;
  }

  /** Sixteen digits hold every value of the word, so distinct hashes print
      differently. */
  lemma Hex16Injective(h1: nat, h2: nat)
    requires h1 < Word && h2 < Word
    requires Hex16(h1) == Hex16(h2)
    ensures h1 == h2
  {
    Pow16Word();
    HexWordInjective(h1, h2, 16);
  }

  /** What `cpp_fast_hash_password(password, salt)` returns; `None` where
      argument parsing raises. */
  function HashResult(password: string, salt: string): (r: Option<string>)
    ensures r.Some? <==> !HasNul(password) && !HasNul(salt)
    ensures r.Some? ==> |r.value| == 16
  {
    if HasNul(password) || HasNul(salt) then None
    else Some(Hex16(Djb2(Encode(salt) + Encode(password))))
  }

  /** The `while ((c = *str++))` loop over a NUL-terminated byte string
      holding no other NUL. */
  method Djb2Loop(combined: seq<byte>) returns (hash: nat)
    requires forall k :: 0 <= k < |combined| ==> combined[k] != 0
    ensures hash == Djb2(combined)
  {
    hash := Djb2Start;
    var i := 0;
    while i < |combined| && combined[i] != 0
      invariant 0 <= i <= |combined|
      invariant hash == Djb2(combined[..i])
    {
      assert combined[..i + 1][..i] == combined[..i];
      hash := Step(hash, combined[i]);
      i := i + 1;
    }
    assert combined[..i] == combined;
  }

  /** No byte of the encoding is 0 when no character is NUL. */
  lemma NoNulByte(s: string)
    requires !HasNul(s)
    ensures forall k :: 0 <= k < |Encode(s)| ==> Encode(s)[k] != 0
  {
    EncodeAsciiByte(s, '\0');
  }

  /** `cpp_fast_hash_password`: djb2 over `salt + password`. */
  method FastHashPassword(password: string, salt: string) returns (r: Option<string>)
    ensures r == HashResult(password, salt)
  {
    if HasNul(password) || HasNul(salt) {
      return None;
    }
    var combined := Encode(salt) + Encode(password);
    NoNulByte(salt);
    NoNulByte(password);
    var hash := Djb2Loop(combined);
    return Some(Hex16(hash));
  }

  /** The hash depends on the concatenation `salt + password` only. */
  lemma HashOfConcatenation(password: string, salt: string)
    ensures HashResult(password, salt)
            == if HasNul(salt + password) then None else Some(Hex16(Djb2(Encode(salt + password))))
  {
    EncodeAppend(salt, password);
    assert HasNul(salt + password) <==> HasNul(salt) || HasNul(password) by {
      assert forall c :: c in salt + password <==> c in salt || c in password;
    }
  }

  lemma HashDependsOnConcatenation(p1: string, s1: string, p2: string, s2: string)
    requires s1 + p1 == s2 + p2
    ensures HashResult(p1, s1) == HashResult(p2, s2)
  {
    HashOfConcatenation(p1, s1);
    HashOfConcatenation(p2, s2);
  }

  /** Shifting characters between salt and password keeps the hash. */
  lemma HashIgnoresSplit()
    ensures HashResult("bc", "a") == HashResult("c", "ab")
  {
    assert "a" + "bc" == "ab" + "c";
    HashDependsOnConcatenation("bc", "a", "c", "ab");
  }

  /** The empty input leaves the start value, 5381 = 0x1505. */
  lemma EmptyHash()
    ensures HashResult("", "") == Some("0000000000001505")
  {
    assert Encode("") + Encode("") == [];
    Hex5381();
  }

  lemma Hex5381()
    ensures Hex16(5381) == "0000000000001505"
  {
    ZeroDigits(12);
    var z := HexWord(0, 12);
    assert z == "000000000000";
    assert HexWord(1, 13) == z + "1";
    assert HexWord(21, 14) == z + "15";
    assert HexWord(336, 15) == z + "150";
    assert HexWord(5381, 16) == z + "1505";
  }

  /** Distinct 64-bit results print as distinct strings. */
  lemma HashEqualIffWordsEqual(p1: string, s1: string, p2: string, s2: string)
    requires !HasNul(p1) && !HasNul(s1) && !HasNul(p2) && !HasNul(s2)
    ensures HashResult(p1, s1) == HashResult(p2, s2)
            <==> Djb2(Encode(s1) + Encode(p1)) == Djb2(Encode(s2) + Encode(p2))
  {
    var h1, h2 := Djb2(Encode(s1) + Encode(p1)), Djb2(Encode(s2) + Encode(p2));
    if Hex16(h1) == Hex16(h2) {
      if Encode(s1) + Encode(p1) == [] {
        assert s1 == [] && p1 == [];
      }
      if Encode(s2) + Encode(p2) == [] {
        assert s2 == [] && p2 == [];
      }
      Hex16Injective(h1, h2);
    }
  }

  // ---------------------------------------------------------------------
  // cpp_validate_input_fast

  /** The characters of `dangerous`, checked with `strchr` one by one. */
  const Dangerous: string := "';\"--/*"

  /** The rule: the byte length is within bounds and no dangerous character
      occurs. */
  predicate Accepts(input: string, minLen: int, maxLen: int) {
    && minLen <= |Encode(input)| <= maxLen
    && forall k :: 0 <= k < |Dangerous| ==> Dangerous[k] !in input
  }

  /** What `cpp_validate_input_fast` returns: the pair, or `None` where
      argument parsing raises. */
  function ValidateResult(input: string, minLen: int, maxLen: int): (r: Option<(bool, string)>)
    ensures r.Some? <==> !HasNul(input) && IsCInt(minLen) && IsCInt(maxLen)
    ensures r.Some? ==> (r.value.0 <==> Accepts(input, minLen, maxLen))
    ensures r.Some? ==> (r.value.1 == "" <==> r.value.0)
    ensures r.Some? && !r.value.0 ==> r.value.1 == "Invalid input"
  {
    if HasNul(input) || !IsCInt(minLen) || !IsCInt(maxLen) then None
    else if Accepts(input, minLen, maxLen) then Some((true, ""))
    else Some((false, "Invalid input"))
  }

  method ValidateInputFast(input: string, minLen: int, maxLen: int) returns (r: Option<(bool, string)>)
    ensures r == ValidateResult(input, minLen, maxLen)
  {
    if HasNul(input) || !IsCInt(minLen) || !IsCInt(maxLen) {
      return None;
    }
    var bytes := Encode(input);
    var len := |bytes|;
    var isValid := len >= minLen && len <= maxLen;
    if isValid {
      var i := 0;
      while i < |Dangerous|
        invariant 0 <= i <= |Dangerous|
        invariant isValid
        invariant forall k :: 0 <= k < i ==> Dangerous[k] !in input
      {
        EncodeAsciiByte(input, Dangerous[i]);
        if Dangerous[i] as int in bytes {
          isValid := false;
          break;
        }
        i := i + 1;
      }
    }
    r := Some((isValid, if isValid then "" else "Invalid input"));
  }

  // ---------------------------------------------------------------------
  // cpp_fast_string_compare

  /** What `cpp_fast_string_compare` returns: whether the two byte strings
      are equal, or `None` where argument parsing raises. */
  function CompareResult(a: string, b: string): Option<bool> {
    if HasNul(a) || HasNul(b) then None else Some(Encode(a) == Encode(b))
  }

  /** Comparing the encodings is comparing the strings. */
  lemma CompareIsEquality(a: string, b: string)
    ensures CompareResult(a, b) == if HasNul(a) || HasNul(b) then None else Some(a == b)
  {
    if Encode(a) == Encode(b) {
      EncodeInjective(a, b);
    }
  }

  /** The comparison loop: on equal lengths it visits every position,
      whatever it finds, and keeps `result` at 1 while all agree. */
  method FastStringCompare(a: string, b: string) returns (r: Option<bool>, ghost visited: nat)
    ensures r == CompareResult(a, b)
    ensures r.Some? && |Encode(a)| == |Encode(b)| ==> visited == |Encode(a)|
  {
    visited := 0;
    if HasNul(a) || HasNul(b) {
      return None, visited;
    }
    var s1, s2 := Encode(a), Encode(b);
    var result := 1;
    if |s1| != |s2| {
      result := 0;
    } else {
      var i := 0;
      while i < |s1|
        invariant 0 <= i <= |s1|
        invariant visited == i
        invariant result == 0 || result == 1
        invariant result == 1 <==> forall k :: 0 <= k < i ==> s1[k] == s2[k]
      {
        result := if result == 1 && s1[i] == s2[i] then 1 else 0;
        i := i + 1;
        visited := visited + 1;
      }
      assert result == 1 <==> s1 == s2;
    }
    r := Some(result == 1);
  }

  // ---------------------------------------------------------------------
  // cpp_get_system_stats

  /** `SystemStats`; every counter of it is a placeholder 0. */
  datatype Stats = Stats(totalUsers: int, activeSessions: int, adminSessions: int,
                         cpuUsage: real, memoryUsage: int, timestamp: int)

  const CacheTtl: int := 5

  /** `get_system_stats_internal`, stamped with its own clock reading. */
  function InternalStats(timestamp: int): Stats {
    Stats(0, 0, 0, 0.0, 0, timestamp)
  }

  predicate Placeholder(s: Stats) {
    s.totalUsers == 0 && s.activeSessions == 0 && s.adminSessions == 0
    && s.cpuUsage == 0.0 && s.memoryUsage == 0
  }

  /** The cached stats are served while they are younger than the TTL and
      were ever filled in. */
  predicate CacheHit(cached: Stats, lastUpdate: int, now: int) {
    now - lastUpdate < CacheTtl && cached.timestamp > 0
  }

  /** The static `cached_stats` and `last_update`. */
  class StatsCache {
    var cached: Stats
    var lastUpdate: int

    predicate Valid()
      reads this
    {
      Placeholder(cached)
    }

    constructor()
      ensures cached == Stats(0, 0, 0, 0.0, 0, 0) && lastUpdate == 0
      ensures Valid()
    {
      cached := Stats(0, 0, 0, 0.0, 0, 0);
      lastUpdate := 0;
    }

    /** `cpp_get_system_stats` at clock reading `now`; `refreshTime` is the
        reading `get_system_stats_internal` takes if it is called. */
    method GetSystemStats(now: int, refreshTime: int) returns (stats: Stats)
      requires Valid()
      modifies this
      ensures Valid()
      ensures CacheHit(old(cached), old(lastUpdate), now) ==>
                cached == old(cached) && lastUpdate == old(lastUpdate)
      ensures !CacheHit(old(cached), old(lastUpdate), now) ==>
                cached == InternalStats(refreshTime) && lastUpdate == now
      ensures stats == cached && Placeholder(stats)
    {
      if now - lastUpdate < CacheTtl && cached.timestamp > 0 {
      } else {
        cached := InternalStats(refreshTime);
        lastUpdate := now;
      }
      stats := cached;
    }
  }

  /** A refresh at `now` whose clock reading is positive serves the same
      stats until five seconds have passed, and refreshes after that. */
  lemma RefreshServesFiveSeconds(now: int, refreshTime: int, later: int)
    requires refreshTime > 0 && now <= later
    ensures CacheHit(InternalStats(refreshTime), now, later) <==> later < now + CacheTtl
  {
  }

  /** Two calls a second apart: the second serves what the first cached. */
  method StatsTwice(now: int)
    requires now > 0
  {
    var cache := new StatsCache();
    var first := cache.GetSystemStats(now, now);
    var second := cache.GetSystemStats(now + 1, now + 1);
    assert first == second && first.timestamp == now;
  }
}
