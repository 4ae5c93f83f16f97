/**
 * `bakePassword`: the fingerprint of a password. Inputs longer than 100 code
 * units give the sentinel "?"; shorter inputs are padded to at least 8
 * units; a rolling hash over the padded text, read forwards and backwards at
 * once, places one alphabet symbol per step into an 8-slot buffer of "-".
 */
module Fingerprint {
  import opened Wrappers
  import opened JsNumber
  import opened JsString
  import opened Alphabet

  const HashLength: nat := 8
  const MaxPasswordLength: nat := 100
  /** What `bakePassword` returns for inputs longer than `MaxPasswordLength`. */
  const Invalid: string := "?"
  const EmptySlot: char := '-'
  /** The empty buffer: `hashLength` copies of "-". */
  const BlankBuffer: string := "--------"

  /** Every unit is a BMP code point, so `codePointAt(k)` reads unit `k` alone. */
  predicate Bmp(s: string)
  {
    forall k :: 0 <= k < |s| ==> s[k] as int < 0x1_0000
  }

  /** `s.codePointAt(k)`: `undefined` out of range. */
  function CodePointAt(s: string, k: int): Option<int>
  {
    if 0 <= k < |s| then Some(s[k] as int) else None
  }

  // ---------------------------------------------------------------------------
  // Padding

  /** The padding value: the code point moved up by the insufficiency when it
      is even and down when it is odd; an undefined code point fails the
      parity test and gives NaN (`None`). */
  function SelectChar(charCode: Option<int>, insufficiency: int): Option<int>
  {
    match charCode
    case None => None
    case Some(c) => Some(if c % 2 == 0 then c + insufficiency else c - insufficiency)
  }

  /** `s[n / d]` for a JavaScript number `n`: only a quotient that is an integer
      in `[0, |s|)` names a character; a fractional, negative or too large
      quotient, or NaN, gives `undefined`. */
  function IndexByQuotient(s: string, n: Option<int>, d: int): Option<char>
    requires d > 0
  {
    match n
    case None => None
    case Some(v) => if v % d == 0 && 0 <= v / d < |s| then Some(s[v / d]) else None
  }

  /** What `+=` appends to a string: `undefined` is appended as its text. */
  function AppendText(v: Option<char>): string
  {
    match v
    case Some(c) => [c]
    case None => "undefined"
  }

  /** The piece that every padding iteration appends. The sampled index
      `current` stays 0, so every iteration reads the first code unit. */
  function PadPiece(input: string, insufficiency: int): (piece: string)
    ensures piece == "undefined" || (|piece| == 1 && piece[0] in Chars)
  {
    AppendText(IndexByQuotient(Chars, SelectChar(CodePointAt(input, 0), insufficiency), |Chars|))
  }

  /** The text the hash loop runs over. */
  function Padded(input: string): string
  {
    if |input| < HashLength then
      var insufficiency := HashLength - |input|;
      input + Repeat(PadPiece(input, insufficiency), insufficiency)
    else input
  }

  /** The padding piece is one alphabet symbol `chars[q]` exactly when the
      first code point, moved by the insufficiency (up if even, down if odd),
      is 82 * q for some 0 <= q < 82; in every other case, and for the empty
      input, it is the text "undefined". */
  lemma PadPieceCases(input: string, insufficiency: int)
    ensures |input| == 0 ==> PadPiece(input, insufficiency) == "undefined"
    ensures |input| > 0 ==>
      var cp := input[0] as int;
      var sel := if cp % 2 == 0 then cp + insufficiency else cp - insufficiency;
      PadPiece(input, insufficiency) ==
        if 0 <= sel && sel % 82 == 0 && sel / 82 < 82 then [Chars[sel / 82]] else "undefined"
  {
    CharsTable();
  }

  /** `"SSSSSSS"` is padded with `chars[1]`: 'S' is 83, odd, and 83 - 1 == 82. */
  lemma PadSevenS()
    ensures Padded("SSSSSSS") == "SSSSSSS" + [Chars[1]]
  {
    CharsTable();
    assert PadPiece("SSSSSSS", 1) == [Chars[1]];
    assert Repeat([Chars[1]], 1) == [Chars[1]];
  }

  /** An empty input (reachable only by calling `bakePassword` directly) is
      padded with eight copies of the text "undefined". */
  lemma PadEmpty()
    ensures Padded("") == Repeat("undefined", 8)
  {
  }

  /** The padded text keeps the input as its prefix, is never shorter than 8,
      and equals the input when that already has 8 units or more (it is not
      truncated). */
  lemma PaddedShape(input: string)
    ensures |input| >= HashLength ==> Padded(input) == input
    ensures |Padded(input)| >= HashLength
    ensures Padded(input)[..|input|] == input
  {
    if |input| < HashLength {
      var n := HashLength - |input|;
      var piece := PadPiece(input, n);
      assert |piece| >= 1;
      RepeatShape(piece, n);
      MulAtLeast(n, |piece|);
      assert n * |piece| >= n;
    }
  }

  // ---------------------------------------------------------------------------
  // Hash step

  /** One step of the rolling hash as 32-bit wrapping arithmetic: the xor of
      3h + cp(i), 15h + cp(j) and 63h + indexOf(input[i]), each reduced
      modulo 2^32 (an index of -1 becomes 0xFFFFFFFF), with the sign bit
      cleared. */
  function RollingStep(hash: int, forward: int, backward: int, index: int): int
  {
    XorBits(XorBits(ToUint32(3 * hash + forward), ToUint32(15 * hash + backward)),
            ToUint32(63 * hash + index)) % Two31
  }

  /** A shifted term plus anything is congruent modulo 2^32 to the product. */
  lemma ShiftedTerm(x: int, k: nat, m: int, c: int)
    requires k < 32 && m == Pow2(k) - 1
    ensures ToUint32(ShiftLeft(x, k) - x + c) == ToUint32(m * x + c)
  {
    var s, p := ShiftLeft(x, k), Pow2(k);
    ShiftLeftWraps(x, k);
    AddCongruent(s, x * p, c - x);
    assert m * x == p * x - x;
  }

  /** `^` on operands with the given ToUint32 values. */
  lemma XorStage(h1: int, h2: int, a: int, b: int)
    requires ToUint32(h1) == a && ToUint32(h2) == b
    ensures ToUint32(BitXor(h1, h2)) == XorBits(a, b) < Two32
  {
    Pow2Of32();
    XorBitsBelow(a, b, 32);
    var x := XorBits(a, b);
    assert ToUint32(x) == x;
  }

  /** `& 0x7fffffff` on an operand with ToUint32 value `x` keeps x mod 2^31. */
  lemma AndStage(v: int, x: int)
    requires ToUint32(v) == x
    ensures BitAnd(v, 0x7fff_ffff) == x % Two31
  {
    var y := x % Two31;
    assert 0 <= y < Two31;
    assert ToUint32(y) == y;
    assert ToInt32(y) == y;
    Pow2Of31();
    AndBitsLowMask(x, 31);
    assert ToUint32(0x7fff_ffff) == Pow2(31) - 1;
  }

  /** One step with JavaScript's operators: the three terms 3h + cp(i),
      15h + cp(j) and 63h + indexOf(input[i]), each written with a shift and
      a subtraction, xor-ed together with the sign bit cleared. The result
      is the wrapping step and lies in [0, 2^31). */
  method RollHash(hash: int, forward: int, backward: int, index: int) returns (next: int)
    ensures 0 <= next < Two31
    ensures next == RollingStep(hash, forward, backward, index)
  {
    var h1 := ShiftLeft(hash, 2) - hash + forward;
    var h2 := ShiftLeft(hash, 4) - hash + backward;
    var h3 := ShiftLeft(hash, 6) - hash + index;
    next := BitXor(BitXor(h1, h2), h3);
    next := BitAnd(next, 0x7fff_ffff);
    assert Pow2(2) == 4 && Pow2(4) == 16 && Pow2(6) == 64;
    ShiftedTerm(hash, 2, 3, forward);
    ShiftedTerm(hash, 4, 15, backward);
    ShiftedTerm(hash, 6, 63, index);
    var a, b, c := ToUint32(3 * hash + forward), ToUint32(15 * hash + backward), ToUint32(63 * hash + index);
    var x12 := BitXor(h1, h2);
    XorStage(h1, h2, a, b);
    XorStage(x12, h3, XorBits(a, b), c);
    AndStage(BitXor(x12, h3), XorBits(XorBits(a, b), c));
  }

  // ---------------------------------------------------------------------------
  // Placement

  /** Number of occurrences of `c` in `s`. */
  function Count(s: string, c: char): nat
  {
    if |s| == 0 then 0 else Count(s[..|s| - 1], c) + (if s[|s| - 1] == c then 1 else 0)
  }

  /** The slot a step writes: `hash % 8` if that slot is still "-", otherwise
      the first "-" slot, and `hash % 8` again (an overwrite) when no "-" is
      left. */
  function SlotFor(buffer: string, hash: int): (pos: int)
    requires |buffer| == HashLength && 0 <= hash
    ensures 0 <= pos < HashLength
    ensures buffer[hash % HashLength] == EmptySlot ==> pos == hash % HashLength
    ensures buffer[hash % HashLength] != EmptySlot && EmptySlot in buffer ==>
      buffer[pos] == EmptySlot && EmptySlot !in buffer[..pos]
    ensures EmptySlot !in buffer ==> pos == hash % HashLength
  {
    IndexOfChar(buffer, EmptySlot);
    var putPos := hash % HashLength;
    var putPos' := if buffer[putPos] != EmptySlot then IndexOf(buffer, [EmptySlot]) else putPos;
    if putPos' == -1 then hash % HashLength else putPos'
  }

  /** The buffer rebuilt from the slice before the position (clamped at 0),
      the symbol and the slice after it. */
  function Place(buffer: string, putPos: int, symbol: char): string
    requires 0 <= putPos < |buffer|
  {
    buffer[..Max(0, putPos)] + [symbol] + buffer[Max(0, putPos + 1)..]
  }

  /** Writing changes exactly one slot, the chosen one, and keeps the length. */
  lemma PlaceWritesOneSlot(buffer: string, putPos: int, symbol: char)
    requires 0 <= putPos < |buffer|
    ensures |Place(buffer, putPos, symbol)| == |buffer|
    ensures Place(buffer, putPos, symbol)[putPos] == symbol
    ensures forall k :: 0 <= k < |buffer| && k != putPos ==> Place(buffer, putPos, symbol)[k] == buffer[k]
  {
  }

  /** Writing a symbol other than "-" into a "-" slot removes one "-". */
  lemma {:induction false} CountAfterWrite(s: string, pos: int, symbol: char)
    requires 0 <= pos < |s| && symbol != EmptySlot
    ensures s[pos] == EmptySlot ==> Count(s[pos := symbol], EmptySlot) == Count(s, EmptySlot) - 1
    ensures s[pos] != EmptySlot ==> Count(s[pos := symbol], EmptySlot) == Count(s, EmptySlot)
  {
    var t := s[pos := symbol];
    assert t[..|t| - 1] == if pos == |s| - 1 then s[..|s| - 1] else s[..|s| - 1][pos := symbol];
    if pos < |s| - 1 {
      CountAfterWrite(s[..|s| - 1], pos, symbol);
    }
  }

  lemma {:induction false} CountAll(s: string, c: char)
    requires forall k :: 0 <= k < |s| ==> s[k] == c
    ensures Count(s, c) == |s|
  {
    if |s| > 0 {
      CountAll(s[..|s| - 1], c);
    }
  }

  lemma {:induction false} CountZero(s: string, c: char)
    ensures Count(s, c) == 0 <==> c !in s
  {
    if |s| > 0 {
      CountZero(s[..|s| - 1], c);
      assert s == s[..|s| - 1] + [s[|s| - 1]];
    }
  }

  /** One symbol of the fingerprint: the alphabet symbol at the absolute value
      of the hash modulo the alphabet size. */
  function SymbolFor(hash: int): char
  {
    Chars[Abs(hash) % |Chars|]
  }

  /** The hash after the step at index `i` (backward index `|input| - 1 - i`). */
  function NextHash(input: string, i: nat, hash: int): (next: int)
    requires i < |input|
    ensures 0 <= next < Two31
  {
    var j := |input| - 1 - i;
    RollingStep(hash, input[i] as int, input[j] as int, IndexOf(Chars, [input[i]]))
  }

  /** The buffer after one step has placed the symbol for `hash`. */
  function Write(buffer: string, hash: int): (r: string)
    requires |buffer| == HashLength && 0 <= hash
    ensures r == buffer[SlotFor(buffer, hash) := SymbolFor(hash)]
  {
    PlaceWritesOneSlot(buffer, SlotFor(buffer, hash), SymbolFor(hash));
    Place(buffer, SlotFor(buffer, hash), SymbolFor(hash))
  }

  /** The hashes that the loop computes at indices `i`, `i + 1`, ..., starting
      from `hash`. */
  function Hashes(input: string, i: nat, hash: int): (hs: seq<int>)
    requires i <= |input|
    ensures |hs| == |input| - i
    ensures forall k :: 0 <= k < |hs| ==> 0 <= hs[k] < Two31
    decreases |input| - i
  {
    if i == |input| then []
    else
      var next := NextHash(input, i, hash);
      [next] + Hashes(input, i + 1, next)
  }

  /** The buffer after the symbols for the hashes `hs` are placed in turn. */
  function Fill(buffer: string, hs: seq<int>): (r: string)
    requires |buffer| == HashLength && forall k :: 0 <= k < |hs| ==> 0 <= hs[k]
    ensures |r| == HashLength
    decreases |hs|
  {
    if |hs| == 0 then buffer else Fill(Write(buffer, hs[0]), hs[1..])
  }

  /** One iteration of the loop: the first hash is placed, the rest follow. */
  lemma FillHashesStep(input: string, i: nat, hash: int, buffer: string)
    requires i < |input| && |buffer| == HashLength
    ensures var next := NextHash(input, i, hash);
      Fill(buffer, Hashes(input, i, hash)) == Fill(Write(buffer, next), Hashes(input, i + 1, next))
  {
    var next := NextHash(input, i, hash);
    var rest := Hashes(input, i + 1, next);
    assert Hashes(input, i, hash) == [next] + rest;
    assert ([next] + rest)[1..] == rest;
  }

  /** The fingerprint of a password. */
  function Bake(rawPassword: string): (r: string)
    ensures |rawPassword| <= MaxPasswordLength ==> |r| == HashLength
  {
    if |rawPassword| > MaxPasswordLength then Invalid
    else Fill(BlankBuffer, Hashes(Padded(rawPassword), 0, 0))
  }

  /** Every slot of a buffer is "-" or an alphabet symbol. */
  predicate WellFormed(buffer: string)
  {
    forall k :: 0 <= k < |buffer| ==> buffer[k] == EmptySlot || buffer[k] in Chars
  }

  /** One write keeps the buffer well formed and, while a "-" is left,
      fills one of them. */
  lemma WriteFills(buffer: string, hash: int)
    requires |buffer| == HashLength && 0 <= hash && WellFormed(buffer)
    ensures WellFormed(Write(buffer, hash))
    ensures EmptySlot in buffer ==> Count(Write(buffer, hash), EmptySlot) == Count(buffer, EmptySlot) - 1
    ensures EmptySlot !in buffer ==> EmptySlot !in Write(buffer, hash)
  {
    var putPos := SlotFor(buffer, hash);
    var symbol := SymbolFor(hash);
    CharsTable();
    assert symbol in Chars && symbol != EmptySlot;
    CountAfterWrite(buffer, putPos, symbol);
  }

  /** While a "-" remains, each placement fills one: after placing `hs` at
      most max(0, empties - |hs|) slots are still "-", and every slot holds
      "-" or an alphabet symbol. */
  lemma {:induction false} FillFills(buffer: string, hs: seq<int>)
    requires |buffer| == HashLength && WellFormed(buffer)
    requires forall k :: 0 <= k < |hs| ==> 0 <= hs[k]
    ensures WellFormed(Fill(buffer, hs))
    ensures Count(Fill(buffer, hs), EmptySlot) <=
      if Count(buffer, EmptySlot) <= |hs| then 0 else Count(buffer, EmptySlot) - |hs|
    decreases |hs|
  {
    if |hs| > 0 {
      var buffer' := Write(buffer, hs[0]);
      WriteFills(buffer, hs[0]);
      CountZero(buffer, EmptySlot);
      CountZero(buffer', EmptySlot);
      FillFills(buffer', hs[1..]);
    }
  }

  /** `bakePassword` gives "?" exactly for inputs longer than 100 units; an
      input of exactly 100 is hashed. */
  lemma BakeInvalidIff(rawPassword: string)
    ensures Bake(rawPassword) == Invalid <==> |rawPassword| > MaxPasswordLength
  {
  }

  /** Every other result has exactly 8 symbols, all from the alphabet, so no
      "-" is left: the padded text has at least 8 units and each step fills a
      slot while one is empty. */
  lemma BakeIsFull(rawPassword: string)
    requires |rawPassword| <= MaxPasswordLength
    ensures |Bake(rawPassword)| == HashLength
    ensures forall k :: 0 <= k < HashLength ==> Bake(rawPassword)[k] in Chars
    ensures EmptySlot !in Bake(rawPassword)
  {
    var p := Padded(rawPassword);
    PaddedShape(rawPassword);
    CountAll(BlankBuffer, EmptySlot);
    FillFills(BlankBuffer, Hashes(p, 0, 0));
    CountZero(Bake(rawPassword), EmptySlot);
  }

  /** The end of one iteration of the hash loop: choose the slot by the
      collision rule and write `chars[hash % 82]` there; exactly that slot
      changes. */
  method PlaceSymbol(hashChar: string, hash: int) returns (r: string)
    requires |hashChar| == HashLength && 0 <= hash
    ensures r == hashChar[SlotFor(hashChar, hash) := SymbolFor(hash)]
  {
    var calculatedHashChar := Chars[Abs(hash) % |Chars|];
    var putPos := hash % HashLength;
    if hashChar[putPos] != EmptySlot {
      putPos := IndexOf(hashChar, [EmptySlot]);
    }
    if putPos == -1 {
      putPos := hash % HashLength;
    }
    assert putPos == SlotFor(hashChar, hash);
    PlaceWritesOneSlot(hashChar, putPos, calculatedHashChar);
    r := hashChar[..Max(0, putPos)] + [calculatedHashChar] + hashChar[Max(0, putPos + 1)..];
  }

  /** The padding branch of `bakePassword`, taken for inputs shorter than 8
      units: `insufficiency` pieces are appended, all read at `current == 0`. */
  method ExtendPassword(inputPassword: string) returns (extendedPassword: string)
    requires |inputPassword| < HashLength
    ensures extendedPassword == Padded(inputPassword)
  {
    var insufficiency := HashLength - |inputPassword|;
    extendedPassword := inputPassword;
    var current := 0;
    for i := 0 to insufficiency
      invariant current == 0
      invariant extendedPassword == inputPassword + Repeat(PadPiece(inputPassword, insufficiency), i)
    {
      if current >= |inputPassword| {
        current := 0;
      }
      var charCode := CodePointAt(inputPassword, current);
      var selectChar := SelectChar(charCode, insufficiency);
      extendedPassword := extendedPassword + AppendText(IndexByQuotient(Chars, selectChar, |Chars|));
    }
  }

  /** The hash loop of `bakePassword` over the (padded) text: `i` walks
      forwards and `j` backwards, and every step rolls the hash and places
      one symbol. */
  method HashLoop(inputPassword: string) returns (hashChar: string)
    ensures hashChar == Fill(BlankBuffer, Hashes(inputPassword, 0, 0))
  {
    ghost var target := Fill(BlankBuffer, Hashes(inputPassword, 0, 0));
    var hash := 0;
    hashChar := BlankBuffer;
    var i, j := 0, |inputPassword| - 1;
    while i < |inputPassword|
      invariant 0 <= i <= |inputPassword| && j == |inputPassword| - 1 - i
      invariant 0 <= hash && |hashChar| == HashLength
      invariant Fill(hashChar, Hashes(inputPassword, i, hash)) == target
    {
      ghost var previous, buffer := hash, hashChar;
      hash := RollHash(hash, CodePointAt(inputPassword, i).value, CodePointAt(inputPassword, j).value,
                       IndexOf(Chars, [inputPassword[i]]));
      assert hash == NextHash(inputPassword, i, previous);
      hashChar := PlaceSymbol(hashChar, hash);
      assert hashChar == Write(buffer, hash);
      FillHashesStep(inputPassword, i, previous, buffer);
      i, j := i + 1, j - 1;
    }
  }

  /** `bakePassword(rawPassword)`: the sentinel for over-long inputs, then
      padding, then the hash loop. */
  method BakePassword(rawPassword: string) returns (hashChar: string)
    requires Bmp(rawPassword)
    ensures hashChar == Bake(rawPassword)
  {
    var inputPassword := rawPassword;
    if |inputPassword| > MaxPasswordLength {
      return Invalid;
    }
    if |inputPassword| < HashLength {
      inputPassword := ExtendPassword(inputPassword);
    }
    hashChar := HashLoop(inputPassword);
  }
}
