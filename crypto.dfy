/**
 * `hashData` of frontend/src/utils/crypto.js: a 31-multiplier string hash
 * over UTF-16 code units, kept in a signed 32-bit accumulator, printed as
 * the lowercase hexadecimal of its absolute value. The JSON.stringify
 * branch for non-string data is outside the model: the input is the code
 * unit sequence of the string.
 */
module Crypto {

  const TwoTo31: int := 0x8000_0000
  const TwoTo32: int := 0x1_0000_0000

  /** A UTF-16 code unit, what `charCodeAt` returns. */
  type CodeUnit = c: int | 0 <= c < 0x1_0000

  predicate IsInt32(x: int)
  {
    -TwoTo31 <= x < TwoTo31
  }

  /** How many multiples of 2^32 ToInt32 takes away from `x`. */
  function WrapCount(x: int): int
  {
    (x + TwoTo31) / TwoTo32
  }

  /** ECMAScript ToInt32: the integer modulo 2^32, read as a two's complement value. */
  function ToInt32(x: int): (r: int)
    ensures IsInt32(r)
    ensures r == x - WrapCount(x) * TwoTo32
    ensures IsInt32(x) ==> r == x
  {
    (x + TwoTo31) % TwoTo32 - TwoTo31
  }

  /** ToInt32 only sees its argument modulo 2^32. */
  lemma ToInt32Congruent(x: int, k: int)
    ensures ToInt32(x + k * TwoTo32) == ToInt32(x)
  {
    assert (x + k * TwoTo32 + TwoTo31) % TwoTo32 == (x + TwoTo31) % TwoTo32;
  }

  /** `h << 5`: ToInt32 of the operand, its bits shifted left by five, the result read as an int32. */
  function ShiftLeft5(h: int): (r: int)
    ensures IsInt32(r)
    ensures IsInt32(h) ==> r == 32 * h - WrapCount(32 * h) * TwoTo32
  {
    ToInt32(ToInt32(h) * 32)
  }

  /** One round of the hash: 31 times the accumulator plus the code unit, modulo 2^32, signed. */
  function Step(h: int, c: CodeUnit): (r: int)
    ensures IsInt32(r)
  {
    ToInt32(31 * h + c)
  }

  /**
   * The loop body `hash = ((hash << 5) - hash) + char; hash = hash & hash`
   * is one Step: the shift contributes 32·h up to a multiple of 2^32, and
   * `hash & hash` is ToInt32 of the (exact) sum.
   */
  lemma LoopBodyIsStep(h: int, c: CodeUnit)
    requires IsInt32(h)
    ensures ToInt32(ShiftLeft5(h) - h + c) == Step(h, c)
  {
    var k := WrapCount(32 * h);
    assert ShiftLeft5(h) - h + c == (31 * h + c) + (-k) * TwoTo32;
    ToInt32Congruent(31 * h + c, -k);
  }

  /** The accumulator after feeding `s` into it, left to right, starting from `h`. */
  function HashFrom(h: int, s: seq<CodeUnit>): (r: int)
    ensures |s| > 0 || IsInt32(h) ==> IsInt32(r)
    decreases |s|
  {
    if |s| == 0 then h else HashFrom(Step(h, s[0]), s[1..])
  }

  /** The value of `hash` once the loop over `s` has finished. */
  function StringHash(s: seq<CodeUnit>): (r: int)
    ensures IsInt32(r)
  {
    HashFrom(0, s)
  }

  /** Feeding one more code unit is one more Step. */
  lemma {:induction false} HashFromSnoc(h: int, s: seq<CodeUnit>, c: CodeUnit)
    ensures HashFrom(h, s + [c]) == Step(HashFrom(h, s), c)
    decreases |s|
  {
    if |s| == 0 {
      assert s + [c] == [c];
      assert [c][1..] == [];
    } else {
      assert (s + [c])[1..] == s[1..] + [c];
      HashFromSnoc(Step(h, s[0]), s[1..], c);
    }
  }

  /** The hash of s ++ [c] is Step applied to the hash of s. */
  lemma StringHashSnoc(s: seq<CodeUnit>, c: CodeUnit)
    ensures StringHash(s + [c]) == Step(StringHash(s), c)
  {
    HashFromSnoc(0, s, c);
  }

  /** `Math.abs` of an integer. */
  function Abs(x: int): (r: nat)
    ensures r == x || r == -x
  {
    if x < 0 then -x else x
  }

  predicate IsHexDigit(ch: char)
  {
    '0' <= ch <= '9' || 'a' <= ch <= 'f'
  }

  function HexDigit(d: int): (ch: char)
    requires 0 <= d < 16
    ensures IsHexDigit(ch)
  {
    if d < 10 then ('0' as int + d) as char else ('a' as int + d - 10) as char
  }

  function HexValue(ch: char): (d: int)
    requires IsHexDigit(ch)
    ensures 0 <= d < 16
  {
    if ch <= '9' then ch as int - '0' as int else ch as int - 'a' as int + 10
  }

  /**
   * `n.toString(16)` for a non-negative integer: lowercase hexadecimal
   * digits, no sign, no leading zero except for 0 itself.
   */
  function Hex(n: nat): (r: string)
    ensures |r| >= 1
    ensures forall i :: 0 <= i < |r| ==> IsHexDigit(r[i])
    ensures n > 0 ==> r[0] != '0'
    ensures n < 16 <==> |r| == 1
    decreases n
  {
    if n < 16 then [HexDigit(n)] else Hex(n / 16) + [HexDigit(n % 16)]
  }

  /** Reads a hexadecimal digit string back as a number. */
  function ParseHex(s: string): nat
    requires forall i :: 0 <= i < |s| ==> IsHexDigit(s[i])
  {
    if |s| == 0 then 0 else ParseHex(s[..|s| - 1]) * 16 + HexValue(s[|s| - 1])
  }

  /** Hex loses nothing: parsing its output gives the number back, so distinct numbers print differently. */
  lemma {:induction false} HexRoundTrip(n: nat)
    ensures ParseHex(Hex(n)) == n
    decreases n
  {
    if n >= 16 {
      var prefix := Hex(n / 16);
      assert (prefix + [HexDigit(n % 16)])[..|prefix|] == prefix;
      HexRoundTrip(n / 16);
    }
  }

  function Pow16(k: nat): (r: nat)
    ensures r >= 1
  {
    if k == 0 then 1 else 16 * Pow16(k - 1)
  }

  /** A number below 16^k prints in at most k digits. */
  lemma {:induction false} HexLength(n: nat, k: nat)
    requires k >= 1 && n < Pow16(k)
    ensures |Hex(n)| <= k
    decreases k
  {
    if n >= 16 {
      assert k > 1;
      assert n / 16 < Pow16(k - 1);
      HexLength(n / 16, k - 1);
    }
  }

  /** The output of hashData never exceeds eight hexadecimal digits. */
  lemma HashHexLength(s: seq<CodeUnit>)
    ensures |Hex(Abs(StringHash(s)))| <= 8
  {
    assert Pow16(8) == TwoTo32;
    HexLength(Abs(StringHash(s)), 8);
  }

  /**
   * `hashData(str)`: runs the loop of crypto.js over the code units of the
   * string and returns the hexadecimal of the final accumulator's absolute value.
   */
  method HashData(data: seq<CodeUnit>) returns (hex: string)
    ensures hex == Hex(Abs(StringHash(data)))
  {
    var hash := 0;
    for i := 0 to |data|
      invariant hash == StringHash(data[..i])
    {
      var c := data[i];
      LoopBodyIsStep(hash, c);
      StringHashSnoc(data[..i], c);
      assert data[..i + 1] == data[..i] + [c];
      hash := ShiftLeft5(hash) - hash + c;
      hash := ToInt32(hash);
    }
    assert data[..|data|] == data;
    hex := Hex(Abs(hash));
  }

  /** The hash of the empty string is "0". */
  lemma EmptyHash()
    ensures Hex(Abs(StringHash([]))) == "0"
  {
  }
}
