/**
 The `lastIndex` of the `BASIC_PATTERNS` regular expressions. The patterns
 are global (`/g`) and shared by `containsPII` and `maskPII`:
 `pattern.test(text)` searches from the pattern's `lastIndex` and leaves it
 at the end of the match, or at 0 when it finds nothing, while
 `text.matchAll(pattern)` searches with a copy that starts at the pattern's
 `lastIndex` and leaves the pattern itself alone. A pattern `containsPII`
 has just found therefore makes the next `maskPII` of the same text search
 after the match, and a pattern left advanced makes `test` miss a match
 that `maskPII` then masks.

 The regular expressions are an oracle here as well, now asked where they
 match: `exec(key, text, from)` is the leftmost match of
 `BASIC_PATTERNS[key]` in `text` that starts at or after `from`. The rest of
 the model asks the patterns with every `lastIndex` at 0 (`Fresh`).
 */
module LastIndex {
  import opened Wrappers
  import opened Strings
  import opened Placeholder
  import opened MappingTable
  import opened Detectors
  import opened Masking
  import opened CounterReuse

  /** A match: the text from `start` up to `end`. */
  datatype Span = Span(start: nat, end: nat)

  /** The recognizer as before, and the patterns asked for their leftmost match from a position. */
  datatype Engine = Engine(
    recognize: string -> Option<EntityTag -> seq<string>>,
    exec: (string, string, nat) -> Option<Span>)

  /** Each pattern's `lastIndex`; a pattern not listed is at 0. */
  type State = map<string, nat>

  function At(s: State, key: string): nat {
    if key in s then s[key] else 0
  }

  /** Every pattern is at 0, as at module load. */
  predicate Rested(s: State) {
    forall k :: k in s ==> s[k] == 0
  }

  /** An answer of the oracle that lies in the text and not before `from`; any other answer is read as no match. */
  predicate Within(text: string, from: nat, m: Span) {
    from <= m.start <= m.end <= |text|
  }

  /**
   The matches a copy of the pattern started at `from` walks through: each
   match, then on from its end, one further after an empty match, until
   no match is left.
   */
  function MatchAllFrom(exec: (string, string, nat) -> Option<Span>, key: string, text: string, from: nat): (r: seq<string>)
    ensures |r| > 0 <==> from <= |text| && exec(key, text, from).Some? && Within(text, from, exec(key, text, from).value)
    decreases |text| + 1 - from
  {
    if from > |text| then []
    else
      match exec(key, text, from)
      case None => []
      case Some(m) =>
        if !Within(text, from, m) then []
        else [text[m.start..m.end]] + MatchAllFrom(exec, key, text, if m.end == m.start then m.end + 1 else m.end)
  }

  /** The detectors as they answer when every pattern is at 0. */
  function Fresh(e: Engine): Detectors {
    Detectors(e.recognize, (key: string, text: string) => MatchAllFrom(e.exec, key, text, 0))
  }

  // ---------------------------------------------------------------------
  // containsPII, as written

  /**
   `pattern.test(text)`: a search from the pattern's `lastIndex`. It
   succeeds exactly when the copy `matchAll` would start there finds
   something, and then leaves the pattern at the end of that match; a
   failure puts the pattern back at 0; no other pattern moves.
   */
  function Test(exec: (string, string, nat) -> Option<Span>, key: string, text: string, s: State): (r: (bool, State))
    ensures r.0 <==> |MatchAllFrom(exec, key, text, At(s, key))| > 0
    ensures r.0 ==> At(r.1, key) == exec(key, text, At(s, key)).value.end
    ensures !r.0 ==> At(r.1, key) == 0
    ensures forall k :: k != key ==> At(r.1, k) == At(s, k)
    ensures r.1.Keys == s.Keys + {key}
  {
    var from := At(s, key);
    if from > |text| then (false, s[key := 0])
    else
      match exec(key, text, from)
      case None => (false, s[key := 0])
      case Some(m) => if Within(text, from, m) then (true, s[key := m.end]) else (false, s[key := 0])
  }

  /**
   The loop stopped at `keys[i]`: the patterns tested before it that are not
   tested again are back at 0, and the patterns after it are where they were.
   */
  predicate StoppedAt(keys: seq<string>, i: nat, before: State, after: State) {
    i < |keys| &&
    (forall k :: k in keys[..i] && k !in keys[i..] ==> At(after, k) == 0) &&
    (forall k :: k in keys[i + 1..] && k !in keys[..i + 1] ==> At(after, k) == At(before, k))
  }

  /** A stop in `keys[1..]` after a failed test of `keys[0]` is a stop one later in `keys`. */
  lemma {:induction false} StoppedLater(keys: seq<string>, s: State, mid: State, after: State)
    requires |keys| > 0
    requires At(mid, keys[0]) == 0
    requires forall k :: k != keys[0] ==> At(mid, k) == At(s, k)
    requires forall k :: k !in keys[1..] ==> At(after, k) == At(mid, k)
    ensures (exists j: nat :: StoppedAt(keys[1..], j, mid, after)) ==> exists i: nat :: StoppedAt(keys, i, s, after)
  {
    if j: nat :| StoppedAt(keys[1..], j, mid, after) {
      var tail := keys[1..];
      assert keys[..j + 1] == [keys[0]] + tail[..j];
      assert keys[j + 1..] == tail[j..];
      assert keys[..j + 2] == [keys[0]] + tail[..j + 1];
      assert keys[j + 2..] == tail[j + 1..];
      assert StoppedAt(keys, j + 1, s, after);
    }
  }

  /** No pattern is listed twice. */
  predicate Distinct(keys: seq<string>) {
    forall i, j :: 0 <= i < j < |keys| ==> keys[i] != keys[j]
  }

  /** Some pattern among `keys` has a match from its own `lastIndex` in `s`. */
  predicate FoundFrom(exec: (string, string, nat) -> Option<Span>, text: string, keys: seq<string>, s: State) {
    exists i :: 0 <= i < |keys| && |MatchAllFrom(exec, keys[i], text, At(s, keys[i]))| > 0
  }

  /** The keys of `BASIC_PATTERNS` are distinct, as an object's keys are. */
  lemma PatternKeysDistinct()
    ensures Distinct(PatternKeys)
  {
  }

  /**
   The pattern loop of `containsPII`: each pattern tested in turn, stopping
   at the first that matches. Over distinct patterns it answers yes exactly
   when one of them matches from its `lastIndex`. Patterns after the stop
   are not touched; when none matches, every pattern tested is back at 0.
   */
  function TestPatterns(exec: (string, string, nat) -> Option<Span>, text: string, keys: seq<string>, s: State): (r: (bool, State))
    ensures forall k :: k !in keys ==> At(r.1, k) == At(s, k)
    ensures !r.0 ==> forall k :: k in keys ==> At(r.1, k) == 0
    ensures r.0 ==> exists i: nat :: StoppedAt(keys, i, s, r.1)
    ensures Distinct(keys) ==> (r.0 <==> FoundFrom(exec, text, keys, s))
    ensures r.1.Keys <= s.Keys + set k | k in keys
    decreases |keys|
  {
    if |keys| == 0 then (false, s)
    else
      var first := Test(exec, keys[0], text, s);
      if first.0 then
        assert StoppedAt(keys, 0, s, first.1);
        first
      else
        var rest := TestPatterns(exec, text, keys[1..], first.1);
        assert forall k :: k in keys <==> k == keys[0] || k in keys[1..];
        assert forall i :: 0 <= i < |keys| - 1 ==> keys[1..][i] == keys[i + 1];
        StoppedLater(keys, s, first.1, rest.1);
        rest
  }

  /**
   `containsPII(text)` as written, from pattern state `s`: false for a blank
   text; true when the recognizer finds a category; otherwise (also after
   the recognizer throws) the pattern loop decides and moves the state.
   */
  function ContainsPIIAt(e: Engine, text: string, s: State): (r: (bool, State))
    ensures IsBlank(text) ==> r == (false, s)
    ensures !IsBlank(text) && EntityFound(e, text) ==> r == (true, s)
    ensures !IsBlank(text) && !EntityFound(e, text) ==> (r.0 <==> FoundFrom(e.exec, text, PatternKeys, s))
    ensures !IsBlank(text) && !r.0 ==> forall k :: k in PatternKeys ==> At(r.1, k) == 0
    ensures forall k :: k !in PatternKeys ==> At(r.1, k) == At(s, k)
  {
    PatternKeysDistinct();
    if IsBlank(text) then (false, s)
    else
      match e.recognize(text)
      case None => TestPatterns(e.exec, text, PatternKeys, s)
      case Some(found) => if AnyEntity(found, EntityOrder) then (true, s) else TestPatterns(e.exec, text, PatternKeys, s)
  }

  /** The recognizer answers and finds some category. */
  predicate EntityFound(e: Engine, text: string) {
    e.recognize(text).Some? && AnyEntity(e.recognize(text).value, EntityOrder)
  }

  // ---------------------------------------------------------------------
  // maskPII, as written

  /** The pattern hits `maskPII` gets when each `matchAll` starts at its pattern's `lastIndex`. */
  function PatternHitsAt(exec: (string, string, nat) -> Option<Span>, text: string, keys: seq<string>, s: State): seq<Hit>
    decreases |keys|
  {
    if |keys| == 0 then []
    else HitsOfType(ToUpperAscii(keys[0]), MatchAllFrom(exec, keys[0], text, At(s, keys[0]))) + PatternHitsAt(exec, text, keys[1..], s)
  }

  /** Everything `maskPII` processes from pattern state `s`. */
  function HitStreamAt(e: Engine, text: string, s: State): seq<Hit> {
    var entities := match e.recognize(text)
      case None => []
      case Some(found) => EntityHits(found, EntityOrder);
    entities + PatternHitsAt(e.exec, text, PatternKeys, s)
  }

  /**
   `maskPII(text)` as written, from pattern state `s`, which it leaves as it
   is: `matchAll` advances only its copies of the patterns.
   */
  function MaskPIIAt(t: Table, text: string, e: Engine, s: State): (r: (Table, string))
    ensures IsBlank(text) ==> r == (t, text)
    ensures !IsBlank(text) ==> Forward(r.0).Keys == Forward(t).Keys + ValuesOf(HitStreamAt(e, text, s))
  {
    if IsBlank(text) then (t, text)
    else MaskAll(t.(counters := map[]), text, HitStreamAt(e, text, s))
  }

  // ---------------------------------------------------------------------
  // With every pattern at 0 the engine is the model's detectors

  /** At rest, a pattern test is the question whether the fresh pattern matches. */
  lemma TestAtRest(e: Engine, key: string, text: string, s: State)
    requires Rested(s)
    ensures Test(e.exec, key, text, s).0 <==> |Fresh(e).patterns(key, text)| > 0
    ensures !Test(e.exec, key, text, s).0 ==> Rested(Test(e.exec, key, text, s).1)
  {
    assert At(s, key) == 0;
  }

  /** At rest, the pattern loop answers as `AnyPattern` over the fresh patterns. */
  lemma {:induction false} TestPatternsAtRest(e: Engine, text: string, keys: seq<string>, s: State)
    requires Rested(s)
    ensures TestPatterns(e.exec, text, keys, s).0 <==> AnyPattern(Fresh(e), text, keys)
    decreases |keys|
  {
    if |keys| > 0 {
      var first := Test(e.exec, keys[0], text, s);
      TestAtRest(e, keys[0], text, s);
      assert forall k :: k in keys <==> k == keys[0] || k in keys[1..];
      if !first.0 {
        TestPatternsAtRest(e, text, keys[1..], first.1);
      }
    }
  }

  /** At rest, `containsPII` answers as the model's `ContainsPII` over the fresh detectors. */
  lemma ContainsPIIAtRest(e: Engine, text: string, s: State)
    requires Rested(s)
    ensures ContainsPIIAt(e, text, s).0 == ContainsPII(Fresh(e), text)
  {
    if !IsBlank(text) {
      TestPatternsAtRest(e, text, PatternKeys, s);
    }
  }

  /** At rest, the pattern hits are the fresh detectors' hits. */
  lemma {:induction false} PatternHitsAtRest(e: Engine, text: string, keys: seq<string>, s: State)
    requires Rested(s)
    ensures PatternHitsAt(e.exec, text, keys, s) == PatternHits(Fresh(e), text, keys)
    decreases |keys|
  {
    if |keys| > 0 {
      assert At(s, keys[0]) == 0;
      PatternHitsAtRest(e, text, keys[1..], s);
    }
  }

  /** At rest, `maskPII` processes the hits of the fresh detectors. */
  lemma HitStreamAtRest(e: Engine, text: string, s: State)
    requires Rested(s)
    ensures HitStreamAt(e, text, s) == HitStream(Fresh(e), text)
  {
    PatternHitsAtRest(e, text, PatternKeys, s);
  }

  /** At rest, `maskPII` is the model's `MaskPII` over the fresh detectors. */
  lemma MaskPIIAtRest(t: Table, text: string, e: Engine, s: State)
    requires Rested(s)
    ensures MaskPIIAt(t, text, e, s) == MaskPII(t, text, Fresh(e))
  {
    HitStreamAtRest(e, text, s);
  }

  // ---------------------------------------------------------------------
  // containsPII followed by maskPII on the same text

  /**
   As written: `containsPII(text)` and, when it answers yes, `maskPII(text)`,
   the patterns' `lastIndex` carried from the one to the other.
   */
  function CheckThenMask(t: Table, text: string, e: Engine, s: State): (r: (Table, string, State))
    ensures !ContainsPIIAt(e, text, s).0 ==> r.0 == t && r.1 == text
    ensures r.2 == ContainsPIIAt(e, text, s).1
  {
    var c := ContainsPIIAt(e, text, s);
    if !c.0 then (t, text, c.1)
    else
      var m := MaskPIIAt(t, text, e, c.1);
      (m.0, m.1, c.1)
  }

  /** Corrected: every pattern set back to 0 (`pattern.lastIndex = 0`) before each `test` and each `matchAll`. */
  function CheckThenMaskResetting(t: Table, text: string, e: Engine): (r: (Table, string))
    ensures !ContainsPIIAt(e, text, map[]).0 ==> r == (t, text)
  {
    if !ContainsPIIAt(e, text, map[]).0 then (t, text) else MaskPIIAt(t, text, e, map[])
  }

  /**
   Corrected: the check before masking changes nothing. The text comes out
   as `maskPII` from rest masks it, every value it masks is recorded, and
   `containsPII` answers yes exactly when `maskPII` has a hit to process.
   */
  lemma CheckingFirstChangesNothing(t: Table, text: string, e: Engine)
    ensures CheckThenMaskResetting(t, text, e).1 == MaskPII(t, text, Fresh(e)).1
    ensures Forward(CheckThenMaskResetting(t, text, e).0) == Forward(MaskPII(t, text, Fresh(e)).0)
    ensures ContainsPIIAt(e, text, map[]).0 <==> !IsBlank(text) && |HitStreamAt(e, text, map[])| > 0
  {
    ContainsPIIAtRest(e, text, map[]);
    MaskPIIAtRest(t, text, e, map[]);
    ContainsPIIIffHits(Fresh(e), text);
    MaskPIIWithoutPII(t, text, Fresh(e));
    if !ContainsPII(Fresh(e), text) && !IsBlank(text) {
      assert |HitStream(Fresh(e), text)| == 0;
    }
  }

  // ---------------------------------------------------------------------
  // As written: a message that is one e-mail address

  /** A recognizer that finds no category in any text. */
  function NothingFound(text: string): Option<EntityTag -> seq<string>> {
    Some((tag: EntityTag) => [])
  }

  /**
   The patterns on a message `x` that is one e-mail address, such as
   `a@b.com`: the e-mail pattern matches `x` whole from position 0, and from
   any later position finds nothing, since what is left of `x` has no
   character before its `@`, or no `@`. No other pattern matches.
   */
  function OnlyEmail(x: string): (string, string, nat) -> Option<Span> {
    (key: string, text: string, from: nat) =>
      if key == "email" && text == x && from == 0 then Some(Span(0, |x|)) else None
  }

  function EmailEngine(x: string): Engine {
    Engine(NothingFound, OnlyEmail(x))
  }

  lemma NotEmailKeys()
    ensures forall k :: k in PatternKeys[1..] ==> k != "email"
  {
  }

  /** Fresh, the e-mail pattern finds the whole message and nothing else matches. */
  lemma FreshEmailHits(x: string)
    requires |x| > 0
    ensures HitStream(Fresh(EmailEngine(x)), x) == [Hit("EMAIL", x)]
  {
    var found := (tag: EntityTag) => [];
    assert EntityHits(found, EntityOrder) == [] by {
      EntityHitsEmpty(found, EntityOrder);
    }
    FreshEmailPatternHits(x);
  }

  /** The pattern part of those hits: the e-mail pattern's alone. */
  lemma FreshEmailPatternHits(x: string)
    requires |x| > 0
    ensures PatternHits(Fresh(EmailEngine(x)), x, PatternKeys) == [Hit("EMAIL", x)]
  {
    NotEmailKeys();
    EmailFirstHits(x, PatternKeys);
    UpperKeysFirst();
  }

  /** Over patterns led by the e-mail pattern and not asking it again, only its match of `x` is hit. */
  lemma EmailFirstHits(x: string, keys: seq<string>)
    requires |x| > 0 && |keys| > 0 && keys[0] == "email"
    requires forall k :: k in keys[1..] ==> k != "email"
    ensures PatternHits(Fresh(EmailEngine(x)), x, keys) == [Hit(ToUpperAscii("email"), x)]
  {
    var det := Fresh(EmailEngine(x));
    assert MatchAllFrom(OnlyEmail(x), "email", x, |x|) == [];
    assert x[0..|x|] == x;
    assert det.patterns("email", x) == [x];
    assert PatternHits(det, x, keys[1..]) == [] by {
      PatternHitsEmpty(det, x, keys[1..]);
    }
  }

  /** After a successful test, the e-mail pattern stands at the end of the message. */
  lemma EmailTestAdvances(x: string)
    requires !IsBlank(x)
    ensures ContainsPIIAt(EmailEngine(x), x, map[]) == (true, map["email" := |x|])
  {
    var found := (tag: EntityTag) => [];
    assert !AnyEntity(found, EntityOrder);
    assert PatternKeys[0] == "email";
  }

  /** From there, no `matchAll` of the message finds anything. */
  lemma {:induction false} AdvancedFindsNothing(x: string, keys: seq<string>)
    requires |x| > 0
    ensures PatternHitsAt(OnlyEmail(x), x, keys, map["email" := |x|]) == []
    decreases |keys|
  {
    if |keys| > 0 {
      AdvancedFindsNothing(x, keys[1..]);
      assert MatchAllFrom(OnlyEmail(x), keys[0], x, At(map["email" := |x|], keys[0])) == [];
    }
  }

  /** From there, testing the message again fails, and every pattern is back at 0. */
  lemma EmailTestAgainFails(x: string)
    requires !IsBlank(x)
    ensures !ContainsPIIAt(EmailEngine(x), x, map["email" := |x|]).0
    ensures Rested(ContainsPIIAt(EmailEngine(x), x, map["email" := |x|]).1)
  {
    var e := EmailEngine(x);
    var s: State := map["email" := |x|];
    NothingFoundLeavesPatterns(e, x, s);
    NotEmailKeys();
    RetestFails(x, PatternKeys);
  }

  /** Where the recognizer finds no category, the pattern loop alone decides. */
  lemma NothingFoundLeavesPatterns(e: Engine, text: string, s: State)
    requires !IsBlank(text) && e.recognize == NothingFound
    ensures ContainsPIIAt(e, text, s) == TestPatterns(e.exec, text, PatternKeys, s)
  {
    var found := (tag: EntityTag) => [];
    assert !AnyEntity(found, EntityOrder);
  }

  /**
   With the e-mail pattern first and standing at the end of the message,
   the loop fails throughout and leaves every pattern at 0.
   */
  lemma RetestFails(x: string, keys: seq<string>)
    requires |x| > 0 && |keys| > 0 && keys[0] == "email"
    requires forall k :: k in keys[1..] ==> k != "email"
    ensures !TestPatterns(OnlyEmail(x), x, keys, map["email" := |x|]).0
    ensures Rested(TestPatterns(OnlyEmail(x), x, keys, map["email" := |x|]).1)
  {
    var e := EmailEngine(x);
    var s: State := map["email" := |x|];
    var first := Test(e.exec, "email", x, s);
    assert !first.0;
    assert Rested(first.1);
    assert !AnyPattern(Fresh(e), x, keys[1..]);
    TestPatternsAtRest(e, x, keys[1..], first.1);
    TestPatternsSkip(e.exec, x, keys, s);
    TestPatternsKeepsRest(e.exec, x, keys[1..], first.1);
  }

  /** A loop that fails from rest leaves every pattern at 0. */
  lemma TestPatternsKeepsRest(exec: (string, string, nat) -> Option<Span>, text: string, keys: seq<string>, s: State)
    requires Rested(s) && !TestPatterns(exec, text, keys, s).0
    ensures Rested(TestPatterns(exec, text, keys, s).1)
  {
    var r := TestPatterns(exec, text, keys, s).1;
    forall k | k in r
      ensures r[k] == 0
    {
      if k in keys {
        assert At(r, k) == 0;
      } else {
        assert At(r, k) == At(s, k);
      }
    }
  }

  /** A pattern that fails hands the loop on to the next pattern. */
  lemma TestPatternsSkip(exec: (string, string, nat) -> Option<Span>, text: string, keys: seq<string>, s: State)
    requires |keys| > 0 && !Test(exec, keys[0], text, s).0
    ensures TestPatterns(exec, text, keys, s) == TestPatterns(exec, text, keys[1..], Test(exec, keys[0], text, s).1)
  {
  }

  /**
   As written, `containsPII` finds the address, and the `maskPII` that
   follows leaves it in the text unmasked and unrecorded, where `maskPII`
   from rest masks it as the first e-mail token.
   */
  lemma CheckedEmailLeaks(x: string)
    requires !IsBlank(x)
    ensures var r := CheckThenMask(Empty, x, EmailEngine(x), map[]);
      ContainsPIIAt(EmailEngine(x), x, map[]).0 && r.1 == x && x !in Forward(r.0)
    ensures MaskPII(Empty, x, Fresh(EmailEngine(x))).1 == MakeToken("EMAIL", 1)
  {
    EmailTestAdvances(x);
    AdvancedFindsNothing(x, PatternKeys);
    assert HitStreamAt(EmailEngine(x), x, map["email" := |x|]) == [] by {
      var found := (tag: EntityTag) => [];
      EntityHitsEmpty(found, EntityOrder);
      assert !AnyEntity(found, EntityOrder);
    }
    FreshEmailIsFirstToken(x);
  }

  lemma FreshEmailIsFirstToken(x: string)
    requires !IsBlank(x)
    ensures MaskPII(Empty, x, Fresh(EmailEngine(x))).1 == MakeToken("EMAIL", 1)
  {
    FreshEmailHits(x);
    PatternTypeNamesAreValid();
    ResetMasksAsFirst(Empty, Fresh(EmailEngine(x)), "EMAIL", x);
  }

  /**
   As written, a second `containsPII` of the same message answers no, yet
   `maskPII` from the state it leaves masks the address: the check does not
   tell whether masking has anything to do.
   */
  lemma RecheckedEmailMissed(x: string)
    requires !IsBlank(x)
    ensures var s := ContainsPIIAt(EmailEngine(x), x, map[]).1;
      var again := ContainsPIIAt(EmailEngine(x), x, s);
      !again.0 && MaskPIIAt(Empty, x, EmailEngine(x), again.1).1 == MakeToken("EMAIL", 1)
  {
    EmailTestAdvances(x);
    EmailTestAgainFails(x);
    var again := ContainsPIIAt(EmailEngine(x), x, map["email" := |x|]);
    MaskPIIAtRest(Empty, x, EmailEngine(x), again.1);
    FreshEmailIsFirstToken(x);
  }

  /** The message `a@b.com`, checked and then masked, goes out as it is. */
  lemma EmailExample()
    ensures var r := CheckThenMask(Empty, "a@b.com", EmailEngine("a@b.com"), map[]);
      r.1 == "a@b.com" && "a@b.com" !in Forward(r.0)
  {
    assert !IsJsWhitespace("a@b.com"[0]);
    CheckedEmailLeaks("a@b.com");
  }
}
