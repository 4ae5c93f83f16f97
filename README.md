# Hidden-page login puzzle and page-generator helpers

This project models two parts of a static web site that hosts puzzle pages.

**The login puzzle** (`src/lib/private/login.ts`):
- A visitor types a password. The page "bakes" it into an eight-symbol fingerprint.
  - The symbols are hiragana from あ to ん, 82 in all.
  - Baking pads short inputs, runs a rolling 32-bit hash over the text read forwards and backwards at once, and places one symbol per step into an eight-slot buffer of "-".
- If the fingerprint is one of the six keys of a fixed dictionary, the matching hidden page opens and the fingerprint is appended to a persisted "resolved" list.
- From that list the page computes:
  - the puzzles still unsolved;
  - a random hint for one of them, or for any puzzle once all are solved;
  - a status indicator: one mark per puzzle, or a congratulation once all are solved.

**The page generator** (`src/sc-problem-generator.ts`) has three pure string helpers:
- `cropDescription` keeps the lines of a page up to an explicit `<!--more-->` marker or a line limit (30 by default).
- `splitSectionsBetweenProblem` cuts rendered content at `<!--problems-->`.
- The `replaceAll` chain of `renderPage` fills the seven `{{...}}` placeholders of a template, one after another.

Modules:
- `Wrappers`: `Option`.
- `JsNumber`: ToInt32/ToUint32, `<<`, `^` and `&` on integer-valued numbers.
- `JsString`: `indexOf`, `split`, `join`, `repeat`, `replaceAll` with its `$` replacement patterns, and decimal text.
- `Alphabet`: `generateRange` and `chars`.
- `Fingerprint`: `bakePassword`.
- `Progress`: the dictionary, the store and the session controller. The class `LoginPage` holds the `localStorage` item as a field.
- `Generator`: the three helpers.

A Dafny `string` is a sequence of Unicode scalar values, while a JavaScript string is a sequence of UTF-16 code units. The two coincide on text within the Basic Multilingual Plane (BMP), which is what the baking operations require.

The model follows the code where its behaviour is surprising:
- The padding loop never advances its sample index, so every padding iteration reads the first code unit again.
- `chars[selectChar / chars.length]` is `undefined` unless the quotient is an integer in `[0, 82)`. `+=` then appends the nine-character text "undefined", not nothing. Only inputs such as `"SSSSSSS"` pad with an alphabet symbol.
- The empty input gets NaN from the arithmetic and is padded with eight copies of "undefined". Only a direct call to `bakePassword` can reach it.
- Lengths, including the 100-unit guard, count code units (which on BMP text are also code points).
- `submitPassword` tests the fingerprint with `in`, which also sees inherited `Object.prototype` names. None of them can be a `bakePassword` result, so the test is exactly a lookup among the six keys (`Progress.InPasswordsIsLookup`).

Changing either of the first two points would change the padded text of some inputs shorter than 8 units, and so, in general, their fingerprints. The first point matters only for inputs of 2 to 7 units whose later characters give a different piece, such as "aL". The second matters only for inputs padded with "undefined".

## Model

| member | source | states |
|---|---|---|
| Alphabet.GenerateRange | src/lib/private/login.ts:10-26 | the range has abs(b - a) + 1 characters; character k is min + k; the result depends only on {min, max}, so swapped arguments give the same range |
| Alphabet.CodeRange | src/lib/private/login.ts:21-23 | the characters lo..hi: length hi - lo + 1, character k has code lo + k |
| Alphabet.CharsTable | src/lib/private/login.ts:28 | `chars` has 82 distinct symbols, あ first, ん last, symbol k is U+3042 + k |
| Alphabet.CharsIndexOf | src/lib/private/login.ts:60 | `chars.indexOf(c)` is c - U+3042 inside あ..ん and -1 outside |
| Alphabet.InChars | src/lib/private/login.ts:28 | a character is in `chars` exactly when it lies between あ and ん |
| Fingerprint.PadPieceCases | src/lib/private/login.ts:40-48 | the padding piece is `chars[q]` exactly when the first code point moved by the insufficiency (up if even, down if odd) equals 82q with 0 <= q < 82; otherwise, and for the empty input, it is the text "undefined" |
| Fingerprint.PadPiece | src/lib/private/login.ts:40-48 | the piece every padding iteration appends is either one alphabet symbol or the text "undefined" |
| Fingerprint.Padded | src/lib/private/login.ts:36-52 | reference definition of the hashed text: the input, followed by `insufficiency` copies of the padding piece when shorter than 8; its properties are PaddedShape, PadSevenS and PadEmpty |
| Fingerprint.PadSevenS | src/lib/private/login.ts:42-51 | "SSSSSSS" is padded with the single symbol `chars[1]` |
| Fingerprint.PadEmpty | src/lib/private/login.ts:36-51 | the empty input is padded with eight copies of "undefined" |
| Fingerprint.PaddedShape | src/lib/private/login.ts:36-52 | the padded text starts with the input, is at least 8 units long, and equals the input (not truncated) when the input has 8 units or more |
| Fingerprint.ExtendPassword | src/lib/private/login.ts:36-51 | the padding loop yields the input followed by `insufficiency` copies of the padding piece |
| Fingerprint.ShiftedTerm | src/lib/private/login.ts:58-60 | `(x << k) - x + c` agrees modulo 2^32 with (2^k - 1) x + c |
| Fingerprint.XorStage | src/lib/private/login.ts:62 | `^` of two numbers is the bitwise xor of their 32-bit images, below 2^32 |
| Fingerprint.AndStage | src/lib/private/login.ts:63 | `& 0x7fffffff` keeps the 32-bit image modulo 2^31 |
| Fingerprint.RollHash | src/lib/private/login.ts:58-63 | after a step 0 <= hash < 2^31, and the step equals ((3h + cp(i)) xor (15h + cp(j)) xor (63h + indexOf(i))) mod 2^32 with the sign bit cleared |
| Fingerprint.NextHash | src/lib/private/login.ts:57-63 | every hash value of the loop lies in [0, 2^31) |
| Fingerprint.Hashes | src/lib/private/login.ts:57-63 | one hash per position of the text, each in [0, 2^31) |
| Fingerprint.SlotFor | src/lib/private/login.ts:67-70 | the write position is hash % 8 if that slot is "-", else the first "-" slot, else hash % 8 again; it is always a slot of the buffer |
| Fingerprint.PlaceWritesOneSlot | src/lib/private/login.ts:71 | the slice-and-concatenate rebuild writes the symbol at the position and keeps the other seven slots and the length |
| Fingerprint.PlaceSymbol | src/lib/private/login.ts:65-71 | one loop step writes `chars[hash % 82]` into the chosen slot and changes nothing else |
| Fingerprint.Write | src/lib/private/login.ts:65-71 | a step's new buffer is the old buffer with only the chosen slot replaced by the step's symbol |
| Fingerprint.CountAfterWrite | src/lib/private/login.ts:71 | writing a symbol into a "-" slot removes exactly one "-"; writing elsewhere keeps the count |
| Fingerprint.WriteFills | src/lib/private/login.ts:67-71 | while a "-" remains, each step fills a previously empty slot; a full buffer stays full; buffer slots are always "-" or alphabet symbols |
| Fingerprint.Fill | src/lib/private/login.ts:55-72 | the buffer keeps its 8 slots through the loop |
| Fingerprint.FillFills | src/lib/private/login.ts:55-72 | after n steps the number of "-" slots has dropped by at least n, or to zero |
| Fingerprint.FillHashesStep | src/lib/private/login.ts:57-72 | the buffer after steps i.. is the buffer after step i, followed by steps i+1.. |
| Fingerprint.HashLoop | src/lib/private/login.ts:54-74 | the hash loop returns the buffer filled, in order, with the symbols of the successive hashes |
| Fingerprint.BakeInvalidIff | src/lib/private/login.ts:34 | the result is "?" exactly when the input is longer than 100 units; 100 is hashed normally |
| Fingerprint.BakeIsFull | src/lib/private/login.ts:55-74 | for inputs of at most 100 units the result has exactly 8 symbols, all in `chars`, and no "-" is left |
| Fingerprint.BakePassword | src/lib/private/login.ts:31-75 | the method computes the fingerprint of the reference definition (guard, padding, hash loop, placement) |
| Fingerprint.Bake | src/lib/private/login.ts:31-75 | reference definition of the fingerprint: "?" above 100 units, else the blank buffer filled by the hashes of the padded text; every result for at most 100 units has 8 slots (see also BakeInvalidIff, BakeIsFull) |
| Fingerprint.CountAll | src/lib/private/login.ts:55 | the blank buffer has eight "-" slots |
| Fingerprint.CountZero | src/lib/private/login.ts:69-70 | no "-" is counted exactly when `indexOf("-")` finds none |
| Progress.BakeIsFingerprint | src/lib/private/login.ts:31-75 | every result for an input of at most 100 units is eight symbols between あ and ん |
| Progress.PasswordKeysAreFingerprints | src/lib/private/login.ts:1-8 | each of the six keys has the shape of a fingerprint |
| Progress.PasswordKeysDistinct | src/lib/private/login.ts:1-8 | the six keys are pairwise distinct |
| Progress.PrototypeNamesAreAscii | src/lib/private/login.ts:86 | no inherited property name is "?" or starts with an alphabet symbol |
| Progress.InPasswordsIsLookup | src/lib/private/login.ts:84-86 | `bakePassword(x) in passwords` holds exactly when the fingerprint is one of the six keys |
| Progress.InPasswords | src/lib/private/login.ts:86 | the `in` test: an own key of the dictionary or an inherited `Object.prototype` name; InPasswordsIsLookup reduces it to the six keys for baked values |
| Progress.FrameUrl | src/lib/private/login.ts:93 | the URL opened on success, with the fingerprint and the typed password as query parameters and no encoding; SubmitPassword promises exactly this URL |
| Progress.SentinelIsNoKey | src/lib/private/login.ts:1-8 | every key has length 8, so the "?" sentinel is never a key |
| Progress.LoginPage.constructor | src/lib/private/login.ts:96-99 | the page starts with the given `passed_passwords` item, absent or present |
| Progress.LoginPage.GetResolvedPasswords | src/lib/private/login.ts:98-104 | an absent item reads as []; a present one as its stored list |
| Progress.LoginPage.MarkPasswordAsResolved | src/lib/private/login.ts:106-111 | the store becomes the old list with the password appended once, with no deduplication |
| Progress.LoginPage.SubmitPassword | src/lib/private/login.ts:77-94 | empty input alerts and leaves the store unchanged; a fingerprint that is no key alerts and leaves it unchanged; otherwise the fingerprint is appended to the old list and the frame URL opens |
| Progress.UnresolvedMembers | src/lib/private/login.ts:113-124 | an entry is unresolved exactly when it is in the dictionary and its key is not in the resolved list; there are never more unresolved entries than entries |
| Progress.UnresolvedEmptyIff | src/lib/private/login.ts:113-124 | no entry is unresolved exactly when every key is in the resolved list |
| Progress.Unresolved | src/lib/private/login.ts:113-124 | reference definition of the unresolved entries: the dictionary filtered by "key not resolved"; its properties are UnresolvedMembers, UnresolvedEmptyIff, UnresolvedInOrder and UnresolvedDistinct |
| Progress.UnresolvedInOrder | src/lib/private/login.ts:117-121 | the unresolved entries are a subsequence of the dictionary: dictionary order is kept |
| Progress.UnresolvedDistinct | src/lib/private/login.ts:113-124 | filtering a dictionary with distinct keys keeps the keys distinct |
| Progress.Lookup | src/lib/private/login.ts:136 | reading `entries[key]`: the hint of the entry with that key, or `undefined`; LookupByKey gives its result at a drawn key |
| Progress.LookupByKey | src/lib/private/login.ts:133-136 | with distinct keys, looking up the key at position k returns the hint at position k |
| Progress.LoginPage.GetUnresolvedPasswordEntries | src/lib/private/login.ts:113-124 | the loop returns the dictionary entries, in order, whose keys are not resolved |
| Progress.Candidates | src/lib/private/login.ts:127-131 | the entries a hint is drawn from are never empty |
| Progress.CandidatesAvoidResolved | src/lib/private/login.ts:127-131 | while a puzzle is unsolved every candidate is an unsolved puzzle; once all are solved the candidates are the whole dictionary |
| Progress.CandidatesDistinct | src/lib/private/login.ts:127-136 | the entries a hint is drawn from have distinct keys, so the key drawn at an index names that index's hint |
| Progress.DrawIndex | src/lib/private/login.ts:134 | `Math.floor(r * n)` for 0 <= r < 1 is an index in [0, n) |
| Progress.DrawIndexReachesAll | src/lib/private/login.ts:134 | every index k < n is drawn by some r in [0, 1) |
| Progress.LoginPage.GetRandomHint | src/lib/private/login.ts:126-139 | the hint read by the drawn key is the drawn candidate's text, labelled with its 1-based position among the candidates |
| Progress.HintText | src/lib/private/login.ts:138 | the label: DecimalText(index + 1), the fixed caption, then the hint; DecimalTextRoundTrip shows the number reads back |
| Progress.Marks | src/lib/private/login.ts:160-165 | one mark per puzzle, "●" when solved and "○" otherwise |
| Progress.LoginPage.CreateResolveStatusIndicator | src/lib/private/login.ts:141-166 | the congratulation appears exactly when every key is resolved; otherwise the marks list, per key in dictionary order, whether it is resolved |
| Progress.CongratulationsIffFallback | src/lib/private/login.ts:129-131 | the indicator congratulates exactly when the hints fall back to the whole dictionary |
| JsString.DecimalTextRoundTrip | src/lib/private/login.ts:138 | the decimal text of the hint label reads back as the number and has no leading zero |
| Generator.StripWhitespace | src/sc-problem-generator.ts:175 | removing `\s` never lengthens a line and leaves no whitespace |
| Generator.StripClean | src/sc-problem-generator.ts:175 | a line without whitespace is left unchanged |
| Generator.StripIdempotent | src/sc-problem-generator.ts:175 | stripping twice is stripping once |
| Generator.StripChar | src/sc-problem-generator.ts:175 | a single character is removed exactly when it is white space |
| Generator.StripConcat | src/sc-problem-generator.ts:175 | stripping a concatenation strips each part, so the non-white-space characters are kept in order |
| Generator.CropLimitIsClean | src/sc-problem-generator.ts:168 | the marker itself contains no whitespace |
| Generator.Terminated | src/sc-problem-generator.ts:183 | appending each line with its "\n" never gives fewer characters than lines |
| Generator.TerminatedJoin | src/sc-problem-generator.ts:169-183 | the lines each followed by "\n" are the lines joined by "\n", plus a final "\n" |
| Generator.StopIndex | src/sc-problem-generator.ts:174-181 | the loop stops at the first line where the stop test holds (or at the end), and never after line `defaultLines` |
| Generator.CropDescription | src/sc-problem-generator.ts:167-187 | the loop returns the original lines before the stop line, each followed by "\n" |
| Generator.CropLines | src/sc-problem-generator.ts:169-181 | reference definition of the kept lines: the lines before the first stop index; properties in CropIsPrefix, CropLineBound, CropWithoutMarker and CropAtMarker |
| Generator.Crop | src/sc-problem-generator.ts:167-187 | reference definition of the description: the kept lines, each followed by "\n"; properties in CropAll, CropShort and CropWholeIff |
| Generator.CropWithoutMarker | src/sc-problem-generator.ts:170-177 | with no line exactly equal to the marker, the result keeps the first min(n, defaultLines) lines |
| Generator.CropAtMarker | src/sc-problem-generator.ts:170-181 | with an exact marker line, the output stops before the first line that equals the marker once whitespace is removed, or at the line limit if that comes first |
| Generator.CropIsPrefix | src/sc-problem-generator.ts:175-183 | the kept lines are a prefix of the original, unstripped lines, and the result is a prefix of content + "\n" |
| Generator.CropLineBound | src/sc-problem-generator.ts:167-183 | the result has one line break per kept line and at most `defaultLines` lines, so at most 30 by default |
| Generator.CropAll | src/sc-problem-generator.ts:169-183 | if no stop condition fires the result is content + "\n" |
| Generator.CropShort | src/sc-problem-generator.ts:177-181 | if a stop condition fires the result is shorter than content + "\n" |
| Generator.CropWholeIff | src/sc-problem-generator.ts:169-183 | the whole content comes back exactly when no line is exactly the marker and the limit is negative or not below the line count |
| Generator.SplitSectionsWithoutMarker | src/sc-problem-generator.ts:244-248 | without the marker the body is the content and the problems are empty |
| Generator.SplitSectionsWithMarker | src/sc-problem-generator.ts:244-250 | with the marker, the body is the text before the first marker and the problems are the text up to the next marker; neither holds the marker, and body + marker + problems is a prefix of the content |
| Generator.SplitSections | src/sc-problem-generator.ts:243-251 | neither the body nor the problems ever contains the marker, whether or not the content has one |
| JsString.JoinSplit | src/sc-problem-generator.ts:169 | joining the parts of a split with the separator restores the text |
| JsString.SplitPiecesFree | src/sc-problem-generator.ts:244 | no part of a split contains the separator |
| Generator.FillTemplateUnchanged | src/sc-problem-generator.ts:207-214 | a template holding none of the seven placeholders comes out unchanged |
| Generator.FillTemplate | src/sc-problem-generator.ts:205-214 | reference definition of the chain: the seven `replaceAll` steps in the order title, tags, topic, description, date, content, problems, each on the previous result; properties in FillTemplateUnchanged, EarlierValueFeedsLaterStep, DollarPatternInValue and TagsRoundTrip |
| Generator.EarlierValueFeedsLaterStep | src/sc-problem-generator.ts:207-212 | the chain runs in order: a title that reads "{{date}}" is itself replaced by the date |
| Generator.DollarPatternInValue | src/sc-problem-generator.ts:208 | a value is a replacement pattern, not literal text: the title "$&" puts the matched "{{title}}" back |
| Generator.TagsRoundTrip | src/sc-problem-generator.ts:209 | tags joined by single spaces split back into the same tags when no tag holds a space |
| JsString.ReplaceAllLiteral | src/sc-problem-generator.ts:207-214 | with no "$" in the value, `replaceAll` is split on the placeholder and join with the value |
| JsString.ReplaceAllAbsent | src/sc-problem-generator.ts:207-214 | `replaceAll` of a placeholder that does not occur changes nothing |
| JsString.ReplaceAllWhole | src/sc-problem-generator.ts:208 | replacing a text that is exactly the placeholder with a "$"-free value gives the value |

## Left out

- The DOM, `alert`, `window.open` and the `window` assignments (`login.ts:79, 87, 93, 142, 153-165, 168-170`). Submissions return an `Outcome` value: an alert message or the URL opened. The indicator returns the congratulation text or the marks. The element building is not modelled.
- `localStorage` and JSON. The store is a field holding `None` or the list itself. Corrupt JSON text is not modelled.
- `Math.random`. The draw in [0, 1) is a parameter of `GetRandomHint`.
- Progress.DrawIndex multiplies the draw as an exact real. The floating-point rounding of `Math.random() * keys.length` is not modelled. For a few draws it gives the next index.
- Surrogate pairs. `BakePassword` and `SubmitPassword` require every character to be a BMP code point, so `codePointAt(k)` is unit k. Input with surrogate pairs is not modelled. A lone surrogate cannot be written as a Dafny `char` at all.
- Alphabet.GenerateRange takes the two characters rather than strings read with `codePointAt(0)`. It requires the range to lie in the BMP without crossing the surrogates (`SingleUnitRange`), so non-BMP ranges are not modelled. The only use in the source, あ..ん, meets this.
- The generator helpers receive a non-BMP character as one `char`, where JavaScript sees two code units. Their results do not change, because they only cut at ASCII markers and `\s` matches no surrogate. Only the positions and lengths would differ.
- `FrameUrl` builds the URL by plain concatenation. The browser's handling of unencoded characters in it is not modelled.
- `CropDescription` takes an integer `defaultLines`. A fractional or non-numeric JavaScript value, which never stops the loop, is not modelled.
- `Generator.IsWhitespace` lists the code units `\s` matches. It works unit by unit, which is what `/\s/g` does without the `u` flag.
- Generator sources that are not part of this model: `renderAnswerBoxes`, `getAnswerBox`, the `marked`/`highlight.js`/`gray-matter` calls, file-system code (`lookupPages`, `loadTemplates`, `writeApiJson`, `main`) and the logging in `renderPage`. They are I/O or foreign library calls.
- `src/lib/sc-problems/index.ts` is not part of this model. It consists of fetch, DOM and date formatting.
- Several tabs sharing one `localStorage` at once are not modelled. Each `LoginPage` owns its store.
- `Progress.InPasswords` lists the `Object.prototype` property names as a constant. Properties a script adds to the prototype at run time are not modelled.
- `Progress.Unresolved` builds a sequence and tests membership in the resolved list. The source builds a `Set` and then an object. The result is the same, because the keys are distinct (`Progress.PasswordKeysDistinct`, `Progress.UnresolvedDistinct`) and none looks like an array index.
