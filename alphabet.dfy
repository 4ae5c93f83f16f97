/**
 * The alphabet of fingerprint symbols: every code point from U+3042 (あ) to
 * U+3093 (ん), built by `generateRange`.
 */
module Alphabet {
  import opened JsString

  function Min(a: int, b: int): int { if a <= b then a else b }
  function Max(a: int, b: int): int { if a <= b then b else a }
  function Abs(a: int): int { if a < 0 then -a else a }

  /** Every code point in `[lo, hi]` is a single UTF-16 code unit that is not a
      surrogate, so `String.fromCodePoint` yields one `char` for each. */
  predicate SingleUnitRange(lo: int, hi: int)
  {
    0 <= lo && hi < 0x1_0000 && (hi < 0xD800 || 0xE000 <= lo)
  }

  /** The characters with code points lo, lo + 1, ..., hi. */
  function CodeRange(lo: int, hi: int): (r: string)
    requires lo > hi || SingleUnitRange(lo, hi)
    ensures |r| == if lo <= hi then hi - lo + 1 else 0
    ensures forall k :: 0 <= k < |r| ==> r[k] as int == lo + k
    decreases hi - lo
  {
    if lo > hi then [] else [lo as char] + CodeRange(lo + 1, hi)
  }

  /** `generateRange(startChar, endChar)`: the ends are put in order first, so
      the result does not depend on the order of the arguments. */
  method GenerateRange(startChar: char, endChar: char) returns (range: string)
    requires SingleUnitRange(Min(startChar as int, endChar as int), Max(startChar as int, endChar as int))
    ensures |range| == Abs(endChar as int - startChar as int) + 1
    ensures forall k :: 0 <= k < |range| ==> range[k] as int == Min(startChar as int, endChar as int) + k
    ensures range == CodeRange(Min(startChar as int, endChar as int), Max(startChar as int, endChar as int))
  {
    var startCharIndex := startChar as int;
    var endCharIndex := endChar as int;
    if startCharIndex > endCharIndex {
      var temp := startCharIndex;
      startCharIndex := endCharIndex;
      endCharIndex := temp;
    }
    range := "";
    var i := startCharIndex;
    while i <= endCharIndex
      invariant startCharIndex <= i <= endCharIndex + 1
      invariant |range| == i - startCharIndex
      invariant forall k :: 0 <= k < |range| ==> range[k] as int == startCharIndex + k
    {
      range := range + [i as char];
      i := i + 1;
    }
  }

  /** The alphabet: the range from あ to ん. */
  const Chars: string := CodeRange(0x3042, 0x3093)

  /** The alphabet has 82 distinct symbols, from あ to ん in code-point order. */
  lemma CharsTable()
    ensures |Chars| == 82 && Chars[0] == 'あ' && Chars[81] == 'ん'
    ensures forall k :: 0 <= k < |Chars| ==> Chars[k] as int == 0x3042 + k
    ensures forall a, b :: 0 <= a < b < |Chars| ==> Chars[a] != Chars[b]
  {
  }

  /** `chars.indexOf(c)` is the position of `c` in the range, or -1 outside it. */
  lemma CharsIndexOf(c: char)
    ensures IndexOf(Chars, [c]) == if 'あ' <= c <= 'ん' then c as int - 0x3042 else -1
  {
    IndexOfChar(Chars, c);
    var r := IndexOf(Chars, [c]);
    if 'あ' <= c <= 'ん' {
      var k := c as int - 0x3042;
      assert Chars[k] == c;
      assert c in Chars;
      assert Chars[r] as int == 0x3042 + r;
    }
  }

  /** The alphabet is exactly the characters from あ to ん. */
  lemma InChars(c: char)
    ensures c in Chars <==> 'あ' <= c <= 'ん'
  {
    CharsIndexOf(c);
    IndexOfChar(Chars, c);
  }
}
