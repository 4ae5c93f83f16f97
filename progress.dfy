/**
 * The puzzle dictionary, the visitor's progress store and the session
 * controller of the login page: submitting a password, choosing a hint and
 * computing the solved/unsolved indicator.
 */
module Progress {
  import opened Wrappers
  import opened JsString
  import opened Alphabet
  import opened Fingerprint

  /** One puzzle: the fingerprint that unlocks it and the hint shown for it. */
  datatype Entry = Entry(key: string, hint: string)

  /** `passwords`, in insertion order (which is also the order of
      `Object.entries` and `Object.keys`, since no key looks like an array
      index). */
  const Passwords: seq<Entry> := [
    Entry("えきむっごきへで", "最強な私の名前。"),
    Entry("げどぴんやせぎく", "広告を消したとき、どのページに移動する？"),
    Entry("がびてちぶけぢん", "ようこそページの対話。"),
    Entry("うぅぢはれぉぜぉ", "HTML を見ても何もありませんよ。"),
    Entry("やわごぇるでぉほ", "右クリックは禁止です！"),
    Entry("ゐかいぅゎっげし", "楽譜置き場にパスワードがある気がします！")
  ]

  /** The keys of `passwords`, in order. */
  function Keys(entries: seq<Entry>): seq<string>
  {
    seq(|entries|, k requires 0 <= k < |entries| => entries[k].key)
  }

  /** The properties every object literal inherits from `Object.prototype`;
      the `in` operator sees them too. */
  const PrototypeNames: seq<string> := [
    "constructor", "hasOwnProperty", "isPrototypeOf", "propertyIsEnumerable",
    "toLocaleString", "toString", "valueOf", "__proto__", "__defineGetter__",
    "__defineSetter__", "__lookupGetter__", "__lookupSetter__"
  ]

  /** `key in passwords`: an own key or an inherited property name. */
  predicate InPasswords(key: string)
  {
    key in Keys(Passwords) || key in PrototypeNames
  }

  /** Eight alphabet symbols (あ to ん): the shape of every `bakePassword`
      result except "?". */
  predicate IsFingerprint(s: string)
  {
    |s| == HashLength && forall m :: 0 <= m < |s| ==> 'あ' <= s[m] <= 'ん'
  }

  /** Every result of `bakePassword` for an input of at most 100 units is a
      fingerprint. */
  lemma BakeIsFingerprint(rawPassword: string)
    requires |rawPassword| <= MaxPasswordLength
    ensures IsFingerprint(Bake(rawPassword))
  {
    var fp := Bake(rawPassword);
    BakeIsFull(rawPassword);
    forall m | 0 <= m < |fp|
      ensures 'あ' <= fp[m] <= 'ん'
    {
      InChars(fp[m]);
    }
  }

  /** Every key is itself a fingerprint. */
  lemma PasswordKeysAreFingerprints()
    ensures forall e :: e in Passwords ==> IsFingerprint(e.key)
  {
    assert IsFingerprint(Passwords[0].key) && IsFingerprint(Passwords[1].key) && IsFingerprint(Passwords[2].key);
    assert IsFingerprint(Passwords[3].key) && IsFingerprint(Passwords[4].key) && IsFingerprint(Passwords[5].key);
  }

  /** The six keys are distinct (their first symbols already differ), so
      the dictionary is a function of its keys. */
  lemma PasswordKeysDistinct()
    ensures forall a, b :: 0 <= a < b < |Passwords| ==> Passwords[a].key != Passwords[b].key
  {
    forall a, b | 0 <= a < b < |Passwords|
      ensures Passwords[a].key != Passwords[b].key
    {
      assert Passwords[a].key[0] != Passwords[b].key[0];
    }
  }

  /** No inherited name starts with an alphabet symbol, and "?" is not one. */
  lemma PrototypeNamesAreAscii()
    ensures forall n :: n in PrototypeNames ==> |n| > 0 && n[0] as int < 0x80 && n != Invalid
  {
  }

  /** A result of `bakePassword` is never an inherited name ("?" is not one,
      and a fingerprint starts with an alphabet symbol), so `in` on it is
      exactly a lookup among the six keys; "?" is not a key either. */
  lemma InPasswordsIsLookup(rawPassword: string)
    ensures InPasswords(Bake(rawPassword)) <==> Bake(rawPassword) in Keys(Passwords)
  {
    var fp := Bake(rawPassword);
    PrototypeNamesAreAscii();
    if |rawPassword| <= MaxPasswordLength {
      BakeIsFingerprint(rawPassword);
    }
    assert fp !in PrototypeNames;
  }

  /** All keys are eight units long, so the sentinel "?" is none of them. */
  lemma SentinelIsNoKey()
    ensures forall k :: 0 <= k < |Passwords| ==> |Passwords[k].key| == HashLength
    ensures Invalid !in Keys(Passwords)
  {
  }

  // ---------------------------------------------------------------------------
  // Derived views of the resolved list

  /** The entries, in dictionary order, whose key is not in `resolved`. */
  function Unresolved(entries: seq<Entry>, resolved: seq<string>): seq<Entry>
  {
    if |entries| == 0 then []
    else
      var rest := Unresolved(entries[..|entries| - 1], resolved);
      var last := entries[|entries| - 1];
      if last.key in resolved then rest else rest + [last]
  }

  /** An entry is unresolved exactly when it is in the dictionary and its key
      has not been resolved; the filter never grows the list. */
  lemma {:induction false} UnresolvedMembers(entries: seq<Entry>, resolved: seq<string>)
    ensures forall e :: e in Unresolved(entries, resolved) <==> e in entries && e.key !in resolved
    ensures |Unresolved(entries, resolved)| <= |entries|
  {
    if |entries| > 0 {
      var init := entries[..|entries| - 1];
      UnresolvedMembers(init, resolved);
      assert entries == init + [entries[|entries| - 1]];
    }
  }

  /** Nothing is unresolved exactly when every key has been resolved. */
  lemma UnresolvedEmptyIff(entries: seq<Entry>, resolved: seq<string>)
    ensures Unresolved(entries, resolved) == [] <==> forall k :: 0 <= k < |entries| ==> entries[k].key in resolved
  {
    UnresolvedMembers(entries, resolved);
    if Unresolved(entries, resolved) != [] {
      var e := Unresolved(entries, resolved)[0];
      assert e in Unresolved(entries, resolved);
      var k :| 0 <= k < |entries| && entries[k] == e;
    }
    if exists k :: 0 <= k < |entries| && entries[k].key !in resolved {
      var k :| 0 <= k < |entries| && entries[k].key !in resolved;
      assert entries[k] in entries;
      assert entries[k] in Unresolved(entries, resolved);
    }
  }

  /** `a` is `b` with some entries left out and the others in their order. */
  predicate Subsequence(a: seq<Entry>, b: seq<Entry>)
    decreases |b|
  {
    if |a| == 0 then true
    else if |b| == 0 then false
    else (a[|a| - 1] == b[|b| - 1] && Subsequence(a[..|a| - 1], b[..|b| - 1])) || Subsequence(a, b[..|b| - 1])
  }

  /** The filter keeps dictionary order: the unresolved entries are a
      subsequence of the entries. */
  lemma {:induction false} UnresolvedInOrder(entries: seq<Entry>, resolved: seq<string>)
    ensures Subsequence(Unresolved(entries, resolved), entries)
  {
    if |entries| > 0 {
      var init := entries[..|entries| - 1];
      UnresolvedInOrder(init, resolved);
      var rest := Unresolved(init, resolved);
      if entries[|entries| - 1].key !in resolved {
        assert (rest + [entries[|entries| - 1]])[..|rest|] == rest;
      }
    }
  }

  /** No two entries share a key. */
  predicate DistinctKeys(entries: seq<Entry>)
  {
    forall a, b :: 0 <= a < b < |entries| ==> entries[a].key != entries[b].key
  }

  /** Filtering keeps the keys distinct. */
  lemma {:induction false} UnresolvedDistinct(entries: seq<Entry>, resolved: seq<string>)
    requires DistinctKeys(entries)
    ensures DistinctKeys(Unresolved(entries, resolved))
  {
    if |entries| > 0 {
      var init := entries[..|entries| - 1];
      var last := entries[|entries| - 1];
      UnresolvedDistinct(init, resolved);
      UnresolvedMembers(init, resolved);
      var rest := Unresolved(init, resolved);
      if last.key !in resolved {
        var r := rest + [last];
        forall a, b | 0 <= a < b < |r|
          ensures r[a].key != r[b].key
        {
          if b == |rest| {
            assert r[a] == rest[a] && rest[a] in rest;
            var i :| 0 <= i < |init| && init[i] == rest[a];
            assert entries[i] == rest[a];
          } else {
            assert r[a] == rest[a] && r[b] == rest[b];
          }
        }
      }
    }
  }

  /** `entries[key]`: the hint of the entry with that key, `undefined` when
      there is none. */
  function Lookup(entries: seq<Entry>, key: string): Option<string>
  {
    if |entries| == 0 then None
    else if entries[0].key == key then Some(entries[0].hint)
    else Lookup(entries[1..], key)
  }

  /** With distinct keys, looking up the key at position k finds the hint at
      position k. */
  lemma {:induction false} LookupByKey(entries: seq<Entry>, k: nat)
    requires DistinctKeys(entries) && k < |entries|
    ensures Lookup(entries, Keys(entries)[k]) == Some(entries[k].hint)
  {
    if k > 0 {
      assert entries[0].key != entries[k].key;
      var tail := entries[1..];
      assert DistinctKeys(tail) by {
        forall a, b | 0 <= a < b < |tail|
          ensures tail[a].key != tail[b].key
        {
          assert tail[a] == entries[a + 1] && tail[b] == entries[b + 1];
        }
      }
      LookupByKey(tail, k - 1);
      assert tail[k - 1] == entries[k];
    }
  }

  /** The entries `getRandomHint` chooses from: the unresolved ones, or the
      whole dictionary once everything is resolved. */
  function Candidates(resolved: seq<string>): (c: seq<Entry>)
    ensures |c| > 0
  {
    var u := Unresolved(Passwords, resolved);
    if |u| == 0 then Passwords else u
  }

  /** While any puzzle is unsolved, every candidate is an unsolved puzzle;
      once all are solved, the candidates are the whole dictionary. */
  lemma CandidatesAvoidResolved(resolved: seq<string>)
    ensures (exists k :: 0 <= k < |Passwords| && Passwords[k].key !in resolved) ==>
      forall e :: e in Candidates(resolved) ==> e in Passwords && e.key !in resolved
    ensures (forall k :: 0 <= k < |Passwords| ==> Passwords[k].key in resolved) ==>
      Candidates(resolved) == Passwords
  {
    UnresolvedMembers(Passwords, resolved);
    UnresolvedEmptyIff(Passwords, resolved);
  }

  /** The candidates have distinct keys, so a hint is found by its key. */
  lemma CandidatesDistinct(resolved: seq<string>)
    ensures DistinctKeys(Candidates(resolved))
  {
    PasswordKeysDistinct();
    UnresolvedDistinct(Passwords, resolved);
  }

  /** The index drawn from `n` keys: the draw in [0, 1) scaled by `n`, rounded
      down. */
  function DrawIndex(draw: real, n: nat): (index: int)
    requires 0.0 <= draw < 1.0 && n > 0
    ensures 0 <= index < n
  {
    assert 0.0 <= draw * n as real < n as real by { DrawBelow(draw, n); }
    (draw * n as real).Floor
  }

  lemma DrawBelow(draw: real, n: nat)
    requires 0.0 <= draw < 1.0 && n > 0
    ensures 0.0 <= draw * n as real < n as real
  {
  }

  /** Every index can be drawn: the draw k / n selects entry k. */
  lemma DrawIndexReachesAll(n: nat, k: nat)
    requires k < n
    ensures var draw := k as real / n as real;
      0.0 <= draw < 1.0 && DrawIndex(draw, n) == k
  {
    var draw := k as real / n as real;
    assert draw * n as real == k as real;
  }

  /** The hint label: the 1-based position in decimal, the fixed Japanese
      caption, then the hint. */
  function HintText(index: nat, hint: string): string
  {
    DecimalText(index + 1) + "ページ目のヒント：" + hint
  }

  /** The marks of the indicator: "●" for a solved puzzle, "○" otherwise. */
  function Marks(status: seq<bool>): (marks: string)
    ensures |marks| == |status|
    ensures forall k :: 0 <= k < |status| ==> marks[k] == if status[k] then '●' else '○'
  {
    if |status| == 0 then "" else Marks(status[..|status| - 1]) + [if status[|status| - 1] then '●' else '○']
  }

  /** Every status is true. */
  predicate Every(status: seq<bool>)
  {
    forall k :: 0 <= k < |status| ==> status[k]
  }

  const EmptyInputMessage: string := "パスワードを入力してください！"
  const WrongPasswordMessage: string := "パスワードが間違っています！"
  const CongratulationsMessage: string := "全隠しページを制覇しました！おめでとうございます！"

  /** What a submission shows: an alert, or the unlocked frame opened in the
      same tab (`window.open(url, "_self")`). */
  datatype Outcome = Alert(message: string) | Open(url: string)

  /** The frame page's URL with the fingerprint and the typed password as its
      two query parameters, built without any URL encoding. */
  function FrameUrl(bakedPassword: string, inputPassword: string): string
  {
    "frame.html?dist=" + bakedPassword + "&password=" + inputPassword
  }

  /** What the status indicator shows: the congratulations text, or one mark
      per puzzle. */
  datatype Indicator = Congratulations(text: string) | Indicators(marks: string)

  /**
   * The login page's state: the `passed_passwords` item of `localStorage`.
   * `None` is an absent item; `Some(list)` holds the stored list (the JSON
   * text is not modelled).
   */
  class LoginPage {
    var storage: Option<seq<string>>

    constructor (initial: Option<seq<string>>)
      ensures storage == initial
    {
      storage := initial;
    }

    /** The resolved list as read from the store: an absent item reads as []. */
    function Resolved(): seq<string>
      reads this
    {
      match storage
      case None => []
      case Some(list) => list
    }

    /** `getResolvedPasswords()` */
    method GetResolvedPasswords() returns (resolvedPasswords: seq<string>)
      ensures storage.None? ==> resolvedPasswords == []
      ensures storage.Some? ==> resolvedPasswords == storage.value
    {
      match storage
      case None => return [];
      case Some(list) => return list;
    }

    /** `markPasswordAsResolved(password)`: read, push, write back. The list
        only grows, by exactly this password, with no deduplication. */
    method MarkPasswordAsResolved(password: string)
      modifies this
      ensures storage == Some(old(Resolved()) + [password])
    {
      var passedPasswords := GetResolvedPasswords();
      passedPasswords := passedPasswords + [password];
      storage := Some(passedPasswords);
    }

    /** `submitPassword(inputPassword)` */
    method SubmitPassword(inputPassword: string) returns (outcome: Outcome)
      requires Bmp(inputPassword)
      modifies this
      ensures |inputPassword| == 0 ==> outcome == Alert(EmptyInputMessage) && storage == old(storage)
      ensures |inputPassword| > 0 && Bake(inputPassword) !in Keys(Passwords) ==>
        outcome == Alert(WrongPasswordMessage) && storage == old(storage)
      ensures |inputPassword| > 0 && Bake(inputPassword) in Keys(Passwords) ==>
        outcome == Open(FrameUrl(Bake(inputPassword), inputPassword)) &&
        storage == Some(old(Resolved()) + [Bake(inputPassword)])
    {
      if |inputPassword| == 0 {
        return Alert(EmptyInputMessage);
      }
      var bakedPassword := BakePassword(inputPassword);
      InPasswordsIsLookup(inputPassword);
      if !InPasswords(bakedPassword) {
        return Alert(WrongPasswordMessage);
      }
      MarkPasswordAsResolved(bakedPassword);
      outcome := Open(FrameUrl(bakedPassword, inputPassword));
    }

    /** `getUnresolvedPasswordEntries()` */
    method GetUnresolvedPasswordEntries() returns (unresolvedEntries: seq<Entry>)
      ensures unresolvedEntries == Unresolved(Passwords, Resolved())
    {
      var resolved := GetResolvedPasswords();
      var passedPasswords := set p | p in resolved;
      unresolvedEntries := [];
      for i := 0 to |Passwords|
        invariant unresolvedEntries == Unresolved(Passwords[..i], resolved)
      {
        assert Passwords[..i + 1][..i] == Passwords[..i];
        if Passwords[i].key !in passedPasswords {
          unresolvedEntries := unresolvedEntries + [Passwords[i]];
        }
      }
      assert Passwords[..|Passwords|] == Passwords;
    }

    /** `getRandomHint()`, with `Math.random()` passed in as `draw`. */
    method GetRandomHint(draw: real) returns (hint: string)
      requires 0.0 <= draw < 1.0
      ensures var candidates := Candidates(Resolved());
        var index := DrawIndex(draw, |candidates|);
        hint == HintText(index, candidates[index].hint)
    {
      var entries := GetUnresolvedPasswordEntries();
      if |entries| == 0 {
        entries := Passwords;
      }
      var keys := Keys(entries);
      var index := (draw * |keys| as real).Floor;
      assert index == DrawIndex(draw, |entries|);
      var randomKey := keys[index];
      CandidatesDistinct(Resolved());
      LookupByKey(entries, index);
      var found := Lookup(entries, randomKey);
      hint := HintText(index, found.value);
    }

    /** The status computation of `createResolveStatusIndicator()`: one
        boolean per puzzle in dictionary order, then the congratulations
        text when all are solved and the marks otherwise. */
    method CreateResolveStatusIndicator() returns (indicator: Indicator)
      ensures indicator.Congratulations? <==> forall k :: 0 <= k < |Passwords| ==> Passwords[k].key in Resolved()
      ensures indicator.Congratulations? ==> indicator.text == CongratulationsMessage
      ensures indicator.Indicators? ==>
        |indicator.marks| == |Passwords| &&
        forall k :: 0 <= k < |Passwords| ==>
          indicator.marks[k] == if Passwords[k].key in Resolved() then '●' else '○'
    {
      var resolvedPasswords := GetResolvedPasswords();
      var allPasswords := Keys(Passwords);
      assert |allPasswords| == |Passwords| && forall k :: 0 <= k < |Passwords| ==> allPasswords[k] == Passwords[k].key;
      var resolveStatus: seq<bool> := [];
      for i := 0 to |allPasswords|
        invariant |resolveStatus| == i
        invariant forall k :: 0 <= k < i ==> resolveStatus[k] == (allPasswords[k] in resolvedPasswords)
      {
        resolveStatus := resolveStatus + [allPasswords[i] in resolvedPasswords];
      }
      if Every(resolveStatus) {
        return Congratulations(CongratulationsMessage);
      }
      indicator := Indicators(Marks(resolveStatus));
    }
  }

  /** The indicator congratulates exactly when the hints have fallen back to
      the whole dictionary. */
  lemma CongratulationsIffFallback(resolved: seq<string>)
    ensures (forall k :: 0 <= k < |Passwords| ==> Passwords[k].key in resolved) <==>
      Unresolved(Passwords, resolved) == []
  {
    UnresolvedEmptyIff(Passwords, resolved);
  }
}
