/** Byte strings and the two conversions the modelled code uses:
    `bytes.hex()` and `bytes.fromhex(s)`. */
module Bytes {
  import opened Wrappers

  type byte = x: int | 0 <= x < 256

  function HexDigit(d: nat): (c: char)
    requires d < 16
    ensures HexValue(c) == Some(d)
  {
    if d < 10 then ('0' as int + d) as char else ('a' as int + d - 10) as char
  }

  /** The value of one hexadecimal digit; `bytes.fromhex` accepts both cases. */
  function HexValue(c: char): (r: Option<nat>)
    ensures r.Some? ==> r.value < 16
  {
    if '0' <= c <= '9' then Some(c as int - '0' as int)
    else if 'a' <= c <= 'f' then Some(c as int - 'a' as int + 10)
    else if 'A' <= c <= 'F' then Some(c as int - 'A' as int + 10)
    else None
  }

  /** `b.hex()`: two lower-case digits per byte. */
  function ToHex(b: seq<byte>): (r: string)
    ensures |r| == 2 * |b|
  {
    if b == [] then "" else [HexDigit(b[0] / 16), HexDigit(b[0] % 16)] + ToHex(b[1..])
  }

  /** The ASCII whitespace `bytes.fromhex` skips: space, tab, line feed,
      vertical tab, form feed and carriage return. */
  predicate IsHexSpace(c: char) {
    c == ' ' || '\t' <= c <= '\r'
  }

  /** `bytes.fromhex(s)`, `None` where it raises `ValueError`. Whitespace
      is skipped before each pair of digits and at the end, but not between
      the two digits of a pair; any other character, non-ASCII ones
      included, is an error. */
  function FromHex(s: string): (r: Option<seq<byte>>)
    decreases |s|
    ensures r.Some? ==> 2 * |r.value| <= |s|
  {
    if s == [] then Some([])
    else if IsHexSpace(s[0]) then FromHex(s[1..])
    else if |s| == 1 then None
    else match (HexValue(s[0]), HexValue(s[1]), FromHex(s[2..]))
      case (Some(hi), Some(lo), Some(rest)) => Some([(hi * 16 + lo) as byte] + rest)
      case _ => None
  }

  /** Without whitespace, every two characters give one byte. */
  lemma {:induction false} FromHexNoSpaceLength(s: string)
    requires forall i :: 0 <= i < |s| ==> !IsHexSpace(s[i])
    requires FromHex(s).Some?
    ensures 2 * |FromHex(s).value| == |s|
  {
    if s != [] {
      FromHexNoSpaceLength(s[2..]);
    }
  }

  /** Reading `hex()` output followed by more text: the bytes come first,
      then whatever the rest reads as, and the rest decides whether it
      raises. */
  lemma {:induction false} FromHexAppend(b: seq<byte>, t: string)
    ensures FromHex(t).None? ==> FromHex(ToHex(b) + t).None?
    ensures FromHex(t).Some? ==> FromHex(ToHex(b) + t) == Some(b + FromHex(t).value)
  {
    if b == [] {
      assert ToHex(b) + t == t;
      if FromHex(t).Some? {
        assert b + FromHex(t).value == FromHex(t).value;
      }
    } else {
      var tail := ToHex(b[1..]) + t;
      assert ToHex(b) + t == [HexDigit(b[0] / 16), HexDigit(b[0] % 16)] + tail;
      FromHexAppend(b[1..], t);
      if FromHex(t).Some? {
        var rest := FromHex(t).value;
        assert FromHex(tail) == Some(b[1..] + rest);
        FromHexPair(b[0], tail);
        ConsAppend(b, rest);
      } else {
        assert FromHex(tail).None?;
        FromHexPairRaises(b[0], tail);
      }
    }
  }

  lemma ConsAppend(b: seq<byte>, rest: seq<byte>)
    requires b != []
    ensures [b[0]] + (b[1..] + rest) == b + rest
  {
  }

  /** The two digits of one byte, then text that reads as `rest`. */
  lemma FromHexPair(x: byte, t: string)
    requires FromHex(t).Some?
    ensures FromHex([HexDigit(x / 16), HexDigit(x % 16)] + t) == Some([x] + FromHex(t).value)
  {
    var s := [HexDigit(x / 16), HexDigit(x % 16)] + t;
    assert s[0] == HexDigit(x / 16) && s[1] == HexDigit(x % 16) && s[2..] == t;
    assert (x / 16 * 16 + x % 16) as byte == x;
  }

  /** The two digits of one byte, then text that raises. */
  lemma FromHexPairRaises(x: byte, t: string)
    requires FromHex(t).None?
    ensures FromHex([HexDigit(x / 16), HexDigit(x % 16)] + t).None?
  {
    var s := [HexDigit(x / 16), HexDigit(x % 16)] + t;
    assert s[0] == HexDigit(x / 16) && s[1] == HexDigit(x % 16) && s[2..] == t;
  }

  /** Reading back what `hex()` wrote gives the original bytes. */
  lemma FromHexToHex(b: seq<byte>)
    ensures FromHex(ToHex(b)) == Some(b)
  {
    FromHexAppend(b, "");
    assert ToHex(b) + "" == ToHex(b);
    assert b + [] == b;
  }

  /** Whitespace between the pairs and at either end is skipped, so
      `bytes.fromhex(a.hex() + " " + b.hex() + "\n")` is `a + b`. */
  lemma SpacedHexReadsBack(a: seq<byte>, b: seq<byte>)
    ensures FromHex(ToHex(a) + " " + ToHex(b) + "\n") == Some(a + b)
    ensures FromHex(" " + ToHex(a)) == Some(a)
  {
    var t := " " + (ToHex(b) + "\n");
    assert ToHex(a) + " " + ToHex(b) + "\n" == ToHex(a) + t;
    assert FromHex(t) == Some(b) by {
      assert FromHex("\n") == Some([]);
      FromHexAppend(b, "\n");
      assert b + [] == b;
      assert t[1..] == ToHex(b) + "\n";
    }
    FromHexAppend(a, t);
    assert FromHex(" " + ToHex(a)) == Some(a) by {
      FromHexToHex(a);
      assert (" " + ToHex(a))[1..] == ToHex(a);
    }
  }

  /** A space between the two digits of a pair raises: `"0 0"`, and `"00 1"`
      ends with half a pair. */
  lemma SplitPairRaises()
    ensures FromHex("0 0") == None
    ensures FromHex("00 1") == None
  {
    assert FromHex("0 0") == None by {
      assert HexValue(' ') == None;
    }
    assert FromHex("1") == None;
    assert " 1"[1..] == "1";
    assert FromHex(" 1") == None;
    assert "00 1"[2..] == " 1";
  }

  /** Hence `hex()` is injective: equal hex strings mean equal bytes. */
  lemma ToHexInjective(a: seq<byte>, b: seq<byte>)
    requires ToHex(a) == ToHex(b)
    ensures a == b
  {
    FromHexToHex(a);
    FromHexToHex(b);
  }
}
