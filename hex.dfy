/**
 * Reading a MAC field as a base-16 integer, as `int(field, 16)` does in
 * wol.py, restricted to fields made only of hexadecimal digits.
 */
module Hex {
  import opened Wrappers
  import opened Text

  /** One unsigned octet, the range `pack('B', v)` accepts. */
  type Byte = b: int | 0 <= b < 256

  predicate IsHexDigit(c: char)
  {
    '0' <= c <= '9' || 'a' <= c <= 'f' || 'A' <= c <= 'F'
  }

  predicate AllHex(s: string)
  {
    forall i :: 0 <= i < |s| ==> IsHexDigit(s[i])
  }

  /** The value of one hexadecimal digit; upper and lower case agree. */
  function DigitValue(c: char): (v: nat)
    requires IsHexDigit(c)
    ensures v < 16
    ensures '0' <= c <= '9' ==> v == c as int - '0' as int
    ensures 'a' <= c <= 'f' ==> v == c as int - 'a' as int + 10
    ensures 'A' <= c <= 'F' ==> v == c as int - 'A' as int + 10
  {
    if '0' <= c <= '9' then c as int - '0' as int
    else if 'a' <= c <= 'f' then c as int - 'a' as int + 10
    else c as int - 'A' as int + 10
  }

  /** `16` to the power `n`: one more than the largest value of `n` digits. */
  function Pow16(n: nat): (p: nat)
    ensures p >= 1
  {
    if n == 0 then 1 else 16 * Pow16(n - 1)
  }

  /**
   * Big-endian base-16 value of a string of hexadecimal digits, the value
   * `int(s, 16)` returns; `n` digits never reach `16^n`.
   */
  function HexValue(s: string): (v: nat)
    requires AllHex(s)
    ensures v < Pow16(|s|)
    decreases |s|
  {
    if s == [] then 0 else 16 * HexValue(s[..|s| - 1]) + DigitValue(s[|s| - 1])
  }

  /**
   * `int(field, 16)`: a value for a non-empty string of hexadecimal digits,
   * and `None` (Python raises ValueError) for anything else, including the
   * empty string.
   */
  function ParseHex(s: string): (r: Option<nat>)
    ensures r.Some? <==> |s| > 0 && AllHex(s)
  {
    if |s| > 0 && AllHex(s) then Some(HexValue(s)) else None
  }

  /** The lower-case digit of a value below 16. */
  function HexChar(d: nat): (c: char)
    requires d < 16
    ensures IsHexDigit(c) && !('A' <= c <= 'Z') && DigitValue(c) == d
  {
    if d < 10 then (d + '0' as int) as char else (d - 10 + 'a' as int) as char
  }

  /** The canonical two-digit lower-case spelling of an octet, as in `5c`. */
  function ByteToHex(b: Byte): (s: string)
    ensures |s| == 2 && AllHex(s)
  {
    [HexChar(b / 16), HexChar(b % 16)]
  }

  /** Reading back the two-digit spelling of an octet gives the octet. */
  lemma ParseByteToHex(b: Byte)
    ensures ParseHex(ByteToHex(b)) == Some(b)
  {
    var s := ByteToHex(b);
    assert s[..1][..0] == [];
    assert HexValue(s[..1]) == b / 16;
    assert s[..|s| - 1] == s[..1];
  }

  /** A value of at most two digits always fits in one octet. */
  lemma {:induction false} ShortValueFits(s: string)
    requires AllHex(s) && |s| <= 2
    ensures HexValue(s) < 256
  {
    if |s| > 0 {
      var p := s[..|s| - 1];
      assert AllHex(p) && |p| <= 1;
      if |p| == 1 {
        assert p[..0] == [];
        assert HexValue(p) == DigitValue(p[0]);
      }
    }
  }

  /**
   * Like `int`, the reading ignores leading zeros, so `"000a"` is read as
   * 10 and is accepted, while `"0g"` is refused as `"g"` is.
   */
  lemma {:induction false} LeadingZero(s: string)
    requires |s| > 0
    ensures ParseHex("0" + s) == ParseHex(s)
  {
    if AllHex(s) {
      LeadingZeroValue(s);
    } else {
      var i :| 0 <= i < |s| && !IsHexDigit(s[i]);
      assert ("0" + s)[i + 1] == s[i];
    }
  }

  lemma {:induction false} LeadingZeroValue(s: string)
    requires AllHex(s)
    ensures AllHex("0" + s) && HexValue("0" + s) == HexValue(s)
    decreases |s|
  {
    var t := "0" + s;
    assert AllHex(t) by {
      assert forall i :: 1 <= i < |t| ==> t[i] == s[i - 1];
    }
    if s == [] {
      assert t[..0] == [];
    } else {
      var p := s[..|s| - 1];
      assert AllHex(p);
      LeadingZeroValue(p);
      assert t[..|t| - 1] == "0" + p;
      assert t[|t| - 1] == s[|s| - 1];
    }
  }

  /** Upper-case and lower-case digits are read alike. */
  lemma {:induction false} HexValueLower(s: string)
    requires AllHex(s)
    ensures AllHex(Lower(s)) && HexValue(Lower(s)) == HexValue(s)
    decreases |s|
  {
    var t := Lower(s);
    assert AllHex(t) by {
      forall i | 0 <= i < |t| ensures IsHexDigit(t[i]) {
        assert IsHexDigit(s[i]);
      }
    }
    if s != [] {
      var p := s[..|s| - 1];
      assert AllHex(p);
      HexValueLower(p);
      assert t[..|t| - 1] == Lower(p);
      assert DigitValue(t[|t| - 1]) == DigitValue(s[|s| - 1]);
    }
  }

  /** `int(field, 16)` does not depend on the case of the digits. */
  lemma ParseHexLower(s: string)
    ensures ParseHex(Lower(s)) == ParseHex(s)
  {
    if |s| > 0 && AllHex(s) {
      HexValueLower(s);
    } else if |s| > 0 {
      var i :| 0 <= i < |s| && !IsHexDigit(s[i]);
      assert !IsHexDigit(Lower(s)[i]);
    }
  }
}
