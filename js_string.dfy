/**
 * The JavaScript string builtins that the core uses: `indexOf`, `split` and
 * `replaceAll` with a string pattern, `Array.prototype.join`, `repeat`. A
 * `char` is a Unicode scalar value; on text within the Basic Multilingual
 * Plane each `char` is exactly one UTF-16 code unit, as in JavaScript.
 */
module JsString {

  /** `pat` occurs in `s` starting at index `k`. */
  predicate OccursAt(s: string, pat: string, k: int)
  {
    0 <= k && k + |pat| <= |s| && s[k..k + |pat|] == pat
  }

  /** `s.indexOf(pat, from)`: the first occurrence at or after `from`, or -1. */
  function IndexOfFrom(s: string, pat: string, from: nat): (r: int)
    requires from <= |s|
    ensures r == -1 || (from <= r && OccursAt(s, pat, r))
    ensures forall k :: from <= k && (r == -1 || k < r) ==> !OccursAt(s, pat, k)
    decreases |s| - from
  {
    if from + |pat| > |s| then -1
    else if s[from..from + |pat|] == pat then from
    else IndexOfFrom(s, pat, from + 1)
  }

  /** A pattern holding a character that `s` lacks does not occur in `s`. */
  lemma AbsentByChar(s: string, pat: string, k: nat)
    requires k < |pat| && pat[k] !in s
    ensures IndexOf(s, pat) == -1
  {
  }

  /** `s.indexOf(pat)`. */
  function IndexOf(s: string, pat: string): int
  {
    IndexOfFrom(s, pat, 0)
  }

  /** For a one-character pattern, `s.indexOf(c)` is the first index holding `c`. */
  lemma IndexOfChar(s: string, c: char)
    ensures var r := IndexOf(s, [c]);
      (r == -1 <==> c !in s) &&
      (r != -1 ==> 0 <= r < |s| && s[r] == c && c !in s[..r])
  {
    var r := IndexOf(s, [c]);
    if c in s {
      var k :| 0 <= k < |s| && s[k] == c;
      assert s[k..k + 1] == [c];
      assert OccursAt(s, [c], k);
    }
    if r != -1 {
      assert s[r..r + 1] == [c];
      assert s[r] == s[r..r + 1][0];
      forall k | 0 <= k < r
        ensures s[k] != c
      {
        if s[k] == c {
          assert s[k..k + 1] == [c];
          assert OccursAt(s, [c], k);
        }
      }
    }
  }

  /** An occurrence inside a slice is an occurrence in the whole string. */
  lemma OccursInSlice(s: string, a: nat, b: nat, pat: string, m: int)
    requires a <= b <= |s|
    requires OccursAt(s[a..b], pat, m)
    ensures OccursAt(s, pat, a + m) && a + m + |pat| <= b
  {
    assert 0 <= m && m + |pat| <= b - a;
    var t := s[a..b];
    var u, v := t[m..m + |pat|], s[a + m..a + m + |pat|];
    forall i | 0 <= i < |pat|
      ensures u[i] == v[i]
    {
      assert u[i] == t[m + i] == s[a + m + i];
    }
    assert u == v;
  }

  /** `parts.join(sep)`. */
  function Join(parts: seq<string>, sep: string): string
  {
    if |parts| == 0 then ""
    else if |parts| == 1 then parts[0]
    else parts[0] + sep + Join(parts[1..], sep)
  }

  /** Joining a piece in front of a non-empty list puts it and one separator
      in front of the join. */
  lemma JoinCons(first: string, rest: seq<string>, sep: string)
    requires |rest| >= 1
    ensures Join([first] + rest, sep) == first + sep + Join(rest, sep)
  {
    assert ([first] + rest)[1..] == rest;
  }

  /** The pieces of `s[from..]` between the occurrences of `sep`, left to right. */
  function SplitFrom(s: string, sep: string, from: nat): (parts: seq<string>)
    requires |sep| > 0 && from <= |s|
    ensures |parts| >= 1
    decreases |s| - from
  {
    var k := IndexOfFrom(s, sep, from);
    if k < 0 then [s[from..]] else [s[from..k]] + SplitFrom(s, sep, k + |sep|)
  }

  /** `s.split(sep)` for a non-empty separator. */
  function Split(s: string, sep: string): seq<string>
    requires |sep| > 0
  {
    SplitFrom(s, sep, 0)
  }

  /** Joining the pieces with the separator gives back the string. */
  lemma {:induction false} JoinSplitFrom(s: string, sep: string, from: nat)
    requires |sep| > 0 && from <= |s|
    ensures Join(SplitFrom(s, sep, from), sep) == s[from..]
    decreases |s| - from
  {
    var k := IndexOfFrom(s, sep, from);
    if k >= 0 {
      var next := k + |sep|;
      var rest := SplitFrom(s, sep, next);
      JoinSplitFrom(s, sep, next);
      assert SplitFrom(s, sep, from) == [s[from..k]] + rest;
      JoinCons(s[from..k], rest, sep);
      assert sep == s[k..next];
      ConcatSlices(s, from, k, next);
    } else {
      assert SplitFrom(s, sep, from) == [s[from..]];
    }
  }

  /** Adjacent slices concatenate to the slice spanning both. */
  lemma ConcatSlices(s: string, a: nat, b: nat, c: nat)
    requires a <= b <= c <= |s|
    ensures s[a..b] + s[b..c] + s[c..] == s[a..]
  {
    assert s[a..] == s[a..b] + s[b..];
    assert s[b..] == s[b..c] + s[c..];
  }

  /** The first piece of a split runs up to the first separator, or to the end. */
  lemma SplitFromFirst(s: string, sep: string, from: nat)
    requires |sep| > 0 && from <= |s|
    ensures var k := IndexOfFrom(s, sep, from);
      SplitFrom(s, sep, from)[0] == if k == -1 then s[from..] else s[from..k]
  {
  }

  /** Adjacent slices from the start concatenate to a prefix. */
  lemma PrefixSlices(s: string, a: nat, b: nat, c: nat)
    requires a <= b <= c <= |s|
    ensures s[..a] + s[a..b] + s[b..c] == s[..c]
  {
    assert s[..c] == s[..b] + s[b..c];
    assert s[..b] == s[..a] + s[a..b];
  }

  lemma JoinSplit(s: string, sep: string)
    requires |sep| > 0
    ensures Join(Split(s, sep), sep) == s
  {
    JoinSplitFrom(s, sep, 0);
  }

  /** No piece contains the separator. */
  lemma {:induction false} SplitFromPiecesFree(s: string, sep: string, from: nat)
    requires |sep| > 0 && from <= |s|
    ensures forall i :: 0 <= i < |SplitFrom(s, sep, from)| ==> IndexOf(SplitFrom(s, sep, from)[i], sep) == -1
    decreases |s| - from
  {
    var parts := SplitFrom(s, sep, from);
    var k := IndexOfFrom(s, sep, from);
    var end := if k < 0 then |s| else k;
    var first := s[from..end];
    assert parts[0] == first;
    var r := IndexOf(first, sep);
    if r != -1 {
      OccursInSlice(s, from, end, sep, r);
      assert false;
    }
    if k >= 0 {
      SplitFromPiecesFree(s, sep, k + |sep|);
      assert parts == [first] + SplitFrom(s, sep, k + |sep|);
    }
  }

  lemma SplitPiecesFree(s: string, sep: string)
    requires |sep| > 0
    ensures forall i :: 0 <= i < |Split(s, sep)| ==> IndexOf(Split(s, sep)[i], sep) == -1
  {
    SplitFromPiecesFree(s, sep, 0);
  }

  /** `s.split(sep)` has a single piece, `s` itself, exactly when `sep` does
      not occur; otherwise the first piece is the text before the first
      occurrence and the second one follows it. */
  lemma SplitShape(s: string, sep: string)
    requires |sep| > 0
    ensures var parts := Split(s, sep);
      var k := IndexOf(s, sep);
      (k == -1 ==> parts == [s]) &&
      (k != -1 ==>
         |parts| >= 2 && parts[0] == s[..k] && parts[1] == SplitFrom(s, sep, k + |sep|)[0])
  {
    var k := IndexOf(s, sep);
    if k != -1 {
      assert Split(s, sep) == [s[..k]] + SplitFrom(s, sep, k + |sep|);
    }
  }

  /** A split whose next separator is at `k`: the piece up to it, then the rest. */
  lemma SplitFromFound(s: string, sep: string, from: nat, k: int, next: nat)
    requires |sep| > 0 && from <= |s|
    requires k == IndexOfFrom(s, sep, from) && k >= 0 && next == k + |sep|
    ensures next <= |s|
    ensures SplitFrom(s, sep, from) == [s[from..k]] + SplitFrom(s, sep, next)
  {
  }

  /** A split with no further separator: the rest as one piece. */
  lemma SplitFromLast(s: string, sep: string, from: nat)
    requires |sep| > 0 && from <= |s|
    requires IndexOfFrom(s, sep, from) == -1
    ensures SplitFrom(s, sep, from) == [s[from..]]
  {
  }

  /** A one-character search stops at the first index holding the character. */
  lemma {:induction false} IndexOfFromChar(s: string, c: char, from: nat, k: nat)
    requires from <= k < |s| && s[k] == c
    requires forall i :: from <= i < k ==> s[i] != c
    ensures IndexOfFrom(s, [c], from) == k
    decreases k - from
  {
    if from < k {
      assert s[from..from + 1][0] == s[from];
      IndexOfFromChar(s, c, from + 1, k);
    } else {
      assert s[k..k + 1] == [c];
    }
  }

  /** A one-character search past the last index holding the character finds
      nothing. */
  lemma {:induction false} IndexOfFromCharAbsent(s: string, c: char, from: nat)
    requires from <= |s|
    requires forall i :: from <= i < |s| ==> s[i] != c
    ensures IndexOfFrom(s, [c], from) == -1
    decreases |s| - from
  {
    if from < |s| {
      assert s[from..from + 1][0] == s[from];
      IndexOfFromCharAbsent(s, c, from + 1);
    }
  }

  /** In `first + [c] + rest` with `c` not in `first`, the search for `c`
      stops right after `first`. */
  lemma JoinHeadChar(s: string, c: char, from: nat, first: string, rest: string)
    requires from <= |s| && s[from..] == first + [c] + rest && c !in first
    ensures var k := from + |first|;
      k < |s| && IndexOfFrom(s, [c], from) == k && s[from..k] == first && s[k + 1..] == rest
  {
    var u := s[from..];
    var k := from + |first|;
    assert s[k] == u[|first|] == c;
    forall i | from <= i < k
      ensures s[i] != c
    {
      assert s[i] == u[i - from] == first[i - from];
    }
    IndexOfFromChar(s, c, from, k);
    assert s[from..k] == u[..|first|] == first;
    assert s[k + 1..] == u[|first| + 1..] == rest;
  }

  /** A search for `c` in a rest without `c` finds nothing. */
  lemma JoinLastChar(s: string, c: char, from: nat)
    requires from <= |s| && c !in s[from..]
    ensures IndexOfFrom(s, [c], from) == -1
  {
    var u := s[from..];
    forall i | from <= i < |s|
      ensures s[i] != c
    {
      assert s[i] == u[i - from];
    }
    IndexOfFromCharAbsent(s, c, from);
  }

  /** Pieces free of a one-character separator come back from splitting
      their join, wherever the join starts. */
  lemma {:induction false} SplitFromJoinChar(s: string, c: char, from: nat, parts: seq<string>)
    requires from <= |s| && |parts| >= 1
    requires forall i :: 0 <= i < |parts| ==> c !in parts[i]
    requires s[from..] == Join(parts, [c])
    ensures SplitFrom(s, [c], from) == parts
    decreases |parts|
  {
    var first := parts[0];
    if |parts| == 1 {
      JoinLastChar(s, c, from);
      SplitFromLast(s, [c], from);
    } else {
      var rest := Join(parts[1..], [c]);
      var k := from + |first|;
      JoinHeadChar(s, c, from, first, rest);
      SplitFromJoinChar(s, c, k + 1, parts[1..]);
      SplitFromJoinStep(s, c, from, first, parts[1..], k);
      assert parts == [first] + parts[1..];
    }
  }

  /** The inductive step of `SplitFromJoinChar`. */
  lemma SplitFromJoinStep(s: string, c: char, from: nat, first: string, tail: seq<string>, k: nat)
    requires from <= k < |s| && IndexOfFrom(s, [c], from) == k && s[from..k] == first
    requires SplitFrom(s, [c], k + 1) == tail
    ensures SplitFrom(s, [c], from) == [first] + tail
  {
    SplitFromFound(s, [c], from, k, k + 1);
  }

  /** Pieces free of a one-character separator come back from splitting
      their join. */
  lemma SplitJoinChar(parts: seq<string>, c: char)
    requires |parts| >= 1
    requires forall i :: 0 <= i < |parts| ==> c !in parts[i]
    ensures Split(Join(parts, [c]), [c]) == parts
  {
    var s := Join(parts, [c]);
    assert s[0..] == s;
    SplitFromJoinChar(s, c, 0, parts);
  }

  /** `s.repeat(n)`, also used for `n` appends of the same piece. */
  function Repeat(s: string, n: nat): string
  {
    if n == 0 then "" else Repeat(s, n - 1) + s
  }

  /** `n` copies of `s` are `n * |s|` units long, and each copy sits in
      place. */
  lemma {:induction false} RepeatShape(s: string, n: nat)
    ensures |Repeat(s, n)| == n * |s|
    ensures forall k :: 0 <= k < n ==> Repeat(s, n)[k * |s|..(k + 1) * |s|] == s
  {
    if n > 0 {
      RepeatShape(s, n - 1);
      var r := Repeat(s, n - 1);
      assert Repeat(s, n) == r + s;
      assert |r| == (n - 1) * |s|;
      forall k | 0 <= k < n
        ensures Repeat(s, n)[k * |s|..(k + 1) * |s|] == s
      {
        if k < n - 1 {
          assert (k + 1) * |s| <= |r| by { MulMono(k + 1, n - 1, |s|); }
          assert Repeat(s, n)[k * |s|..(k + 1) * |s|] == r[k * |s|..(k + 1) * |s|];
        } else {
          assert k * |s| == |r|;
          assert (k + 1) * |s| == |r| + |s|;
        }
      }
    }
  }

  lemma MulMono(a: int, b: int, c: nat)
    requires a <= b
    ensures a * c <= b * c
  {
    assert b * c - a * c == (b - a) * c;
  }

  /**
   * GetSubstitution for a string pattern (no capture groups): in the
   * replacement text, `$$` stands for `$`, `$&` for the matched text, `` $` ``
   * for the text before the match and `$'` for the text after it; any other
   * `$` is literal.
   */
  function Substitution(matched: string, str: string, position: nat, replacement: string): string
    requires position + |matched| <= |str|
    decreases |replacement|
  {
    if |replacement| == 0 then ""
    else if replacement[0] == '$' && |replacement| >= 2 && IsPatternCode(replacement[1]) then
      PatternText(replacement[1], matched, str, position) +
      Substitution(matched, str, position, replacement[2..])
    else
      [replacement[0]] + Substitution(matched, str, position, replacement[1..])
  }

  /** The characters that can follow `$` in a replacement pattern. */
  predicate IsPatternCode(code: char)
  {
    code == '$' || code == '&' || code == '`' || code == '\''
  }

  /** The text a `$` pattern stands for. */
  function PatternText(code: char, matched: string, str: string, position: nat): string
    requires position + |matched| <= |str|
  {
    if code == '$' then "$"
    else if code == '&' then matched
    else if code == '`' then str[..position]
    else str[position + |matched|..]
  }

  /** A replacement text without `$` is inserted literally. */
  lemma {:induction false} SubstitutionLiteral(matched: string, str: string, position: nat, replacement: string)
    requires position + |matched| <= |str|
    requires '$' !in replacement
    ensures Substitution(matched, str, position, replacement) == replacement
    decreases |replacement|
  {
    if |replacement| > 0 {
      SubstitutionLiteral(matched, str, position, replacement[1..]);
      assert replacement == [replacement[0]] + replacement[1..];
    }
  }

  /** `s.replaceAll(pat, rep)` from index `from` on: every occurrence of `pat`,
      found left to right without overlap, is replaced by the substitution. */
  function ReplaceAllFrom(s: string, pat: string, rep: string, from: nat): string
    requires |pat| > 0 && from <= |s|
    decreases |s| - from
  {
    var p := IndexOfFrom(s, pat, from);
    if p < 0 then s[from..]
    else s[from..p] + Substitution(pat, s, p, rep) + ReplaceAllFrom(s, pat, rep, p + |pat|)
  }

  function ReplaceAll(s: string, pat: string, rep: string): string
    requires |pat| > 0
  {
    ReplaceAllFrom(s, pat, rep, 0)
  }

  /** A string without the pattern is left unchanged. */
  lemma ReplaceAllAbsent(s: string, pat: string, rep: string)
    requires |pat| > 0 && IndexOf(s, pat) == -1
    ensures ReplaceAll(s, pat, rep) == s
  {
  }

  /** With a `$`-free replacement, replaceAll cuts `s` at every occurrence of
      `pat` and joins the pieces with `rep`. */
  lemma {:induction false} ReplaceAllFromLiteral(s: string, pat: string, rep: string, from: nat)
    requires |pat| > 0 && from <= |s| && '$' !in rep
    ensures ReplaceAllFrom(s, pat, rep, from) == Join(SplitFrom(s, pat, from), rep)
    decreases |s| - from
  {
    var p := IndexOfFrom(s, pat, from);
    if p >= 0 {
      var next := p + |pat|;
      ReplaceAllFromStep(s, pat, rep, from);
      SplitFromFound(s, pat, from, p, next);
      SubstitutionLiteral(pat, s, p, rep);
      ReplaceAllFromLiteral(s, pat, rep, next);
      JoinCons(s[from..p], SplitFrom(s, pat, next), rep);
    } else {
      SplitFromLast(s, pat, from);
    }
  }

  /** One step of replaceAll: the text up to the next occurrence, its
      substitution, then the rest. */
  lemma ReplaceAllFromStep(s: string, pat: string, rep: string, from: nat)
    requires |pat| > 0 && from <= |s|
    ensures var p := IndexOfFrom(s, pat, from);
      ReplaceAllFrom(s, pat, rep, from) ==
        if p < 0 then s[from..]
        else s[from..p] + Substitution(pat, s, p, rep) + ReplaceAllFrom(s, pat, rep, p + |pat|)
  {
  }

  /** Replacing a whole string that is exactly the pattern by a `$`-free
      text gives that text. */
  lemma ReplaceAllWhole(pat: string, rep: string)
    requires |pat| > 0 && '$' !in rep
    ensures ReplaceAll(pat, pat, rep) == rep
  {
    assert pat[0..|pat|] == pat;
    ReplaceAllFromStep(pat, pat, rep, 0);
    SubstitutionLiteral(pat, pat, 0, rep);
    ReplaceAllFromStep(pat, pat, rep, |pat|);
  }

  /** The pattern `$&` puts the matched text back: replacing a whole string
      that is exactly the pattern by `$&` leaves it as it was. */
  lemma ReplaceAllWholeMatched(pat: string)
    requires |pat| > 0
    ensures ReplaceAll(pat, pat, "$&") == pat
  {
    assert pat[0..|pat|] == pat;
    ReplaceAllFromStep(pat, pat, "$&", 0);
    ReplaceAllFromStep(pat, pat, "$&", |pat|);
  }

  lemma ReplaceAllLiteral(s: string, pat: string, rep: string)
    requires |pat| > 0 && '$' !in rep
    ensures ReplaceAll(s, pat, rep) == Join(Split(s, pat), rep)
  {
    ReplaceAllFromLiteral(s, pat, rep, 0);
  }

  /** The decimal digit for `d`. */
  function Digit(d: nat): (c: char)
    requires d < 10
    ensures '0' <= c <= '9' && c as int - '0' as int == d
  {
    ('0' as int + d) as char
  }

  /** `String(n)` for a non-negative integer: its decimal digits. */
  function DecimalText(n: nat): (r: string)
    ensures |r| >= 1
    ensures forall k :: 0 <= k < |r| ==> '0' <= r[k] <= '9'
  {
    if n < 10 then [Digit(n)] else DecimalText(n / 10) + [Digit(n % 10)]
  }

  /** The number a string of decimal digits denotes. */
  function DigitsValue(s: string): nat
    requires forall k :: 0 <= k < |s| ==> '0' <= s[k] <= '9'
  {
    if |s| == 0 then 0 else 10 * DigitsValue(s[..|s| - 1]) + (s[|s| - 1] as int - '0' as int)
  }

  /** Reading the digits back gives the number, and there is no leading zero. */
  lemma {:induction false} DecimalTextRoundTrip(n: nat)
    ensures DigitsValue(DecimalText(n)) == n
    ensures n > 0 ==> DecimalText(n)[0] != '0'
  {
    if n >= 10 {
      DecimalTextRoundTrip(n / 10);
      var r := DecimalText(n);
      assert r[..|r| - 1] == DecimalText(n / 10);
      assert r[0] == DecimalText(n / 10)[0];
    }
  }
}
