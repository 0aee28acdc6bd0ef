/** Hexadecimal text: `bytes.hex`, `bytes.fromhex` and `str.zfill`. */
module Hex {
  import opened Bytes

  function Digit(n: nat): char
    requires n < 16
  {
    if n < 10 then ('0' as int + n) as char else ('a' as int + n - 10) as char
  }

  predicate IsDigit(c: char) {
    '0' <= c <= '9' || 'a' <= c <= 'f' || 'A' <= c <= 'F'
  }

  predicate IsHex(s: string) {
    forall i :: 0 <= i < |s| ==> IsDigit(s[i])
  }

  function Value(c: char): (n: nat)
    requires IsDigit(c)
    ensures n < 16
  {
    if c <= '9' then c as int - '0' as int
    else if c <= 'F' then c as int - 'A' as int + 10
    else c as int - 'a' as int + 10
  }

  function LowerDigit(c: char): char
    requires IsDigit(c)
  {
    Digit(Value(c))
  }

  /** `s` in lower case, for a string of hexadecimal digits. */
  function Lower(s: string): (r: string)
    requires IsHex(s)
    ensures |r| == |s|
  {
    seq(|s|, i requires 0 <= i < |s| => LowerDigit(s[i]))
  }

  function ToHex(d: seq<Byte>): (s: string)
    ensures |s| == 2 * |d|
  {
    if d == [] then "" else [Digit(d[0] / 16), Digit(d[0] % 16)] + ToHex(d[1..])
  }

  const DIGITS: string := "0123456789abcdef"
  const CAPITALS: string := "0123456789ABCDEF"

  /** The sixteen digits and their values; capitals count as their lower-case forms. */
  lemma DigitTable(n: nat)
    requires n < 16
    ensures Digit(n) == DIGITS[n]
    ensures IsDigit(DIGITS[n]) && Value(DIGITS[n]) == n && LowerDigit(DIGITS[n]) == DIGITS[n]
    ensures IsDigit(CAPITALS[n]) && Value(CAPITALS[n]) == n && LowerDigit(CAPITALS[n]) == DIGITS[n]
  {}

  lemma {:induction false} ToHexIsHex(d: seq<Byte>)
    ensures IsHex(ToHex(d))
  {
    if d == [] {
    } else {
      ToHexIsHex(d[1..]);
      var s := ToHex(d);
      forall i | 0 <= i < |s|
        ensures IsDigit(s[i])
      {
        assert 2 <= i ==> s[i] == ToHex(d[1..])[i - 2];
      }
    }
  }

  /** None stands for the ValueError on an odd length or on a character that is no digit. */
  function FromHex(s: string): (r: Option<seq<Byte>>)
    ensures r.Some? <==> |s| % 2 == 0 && IsHex(s)
    ensures r.Some? ==> 2 * |r.value| == |s|
  {
    if s == "" then Some([])
    else if |s| == 1 || !IsDigit(s[0]) || !IsDigit(s[1]) then None
    else match FromHex(s[2..]) {
      case None =>
        assert forall i :: 0 <= i < |s| - 2 ==> s[2..][i] == s[i + 2];
        None
      case Some(d) =>
        assert forall i :: 2 <= i < |s| ==> s[i] == s[2..][i - 2];
        Some([16 * Value(s[0]) + Value(s[1])] + d)
    }
  }

  function Zfill(s: string, width: nat): (r: string)
    ensures |r| == if |s| < width then width else |s|
    ensures IsHex(s) ==> IsHex(r)
  {
    if |s| < width then seq(width - |s|, _ => '0') + s else s
  }

  /** Decoding and printing again gives the text back in lower case. */
  lemma {:induction false} HexRoundTrip(s: string)
    requires |s| % 2 == 0 && IsHex(s)
    ensures ToHex(FromHex(s).value) == Lower(s)
  {
    if s == "" {
    } else {
      var t := s[2..];
      assert IsHex(t) by {
        forall i | 0 <= i < |t| ensures IsDigit(t[i]) { assert IsDigit(s[i + 2]); }
      }
      HexRoundTrip(t);
      assert IsDigit(s[0]) && IsDigit(s[1]);
      assert Lower(s) == [LowerDigit(s[0]), LowerDigit(s[1])] + Lower(t);
      var d := FromHex(s).value;
      assert d == [16 * Value(s[0]) + Value(s[1])] + FromHex(t).value;
      HexByte(Value(s[0]), Value(s[1]), FromHex(t).value);
    }
  }

  lemma HexByte(high: nat, low: nat, d: seq<Byte>)
    requires high < 16 && low < 16
    ensures ToHex([16 * high + low] + d) == [Digit(high), Digit(low)] + ToHex(d)
  {
    assert ([16 * high + low] + d)[1..] == d;
  }
}
