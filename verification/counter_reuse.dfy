/**
 `maskPII` empties the counters at every call but keeps both maps, so the
 second message of a conversation mints `[PII_PERSON_1]` again for a new
 name: the forward map then sends two names to one token, the reverse map
 forgets the first name, and the first message no longer restores. Keeping
 the counters (`MaskPIIKeepingCounters`) mints `[PII_PERSON_2]` instead, and
 every earlier message keeps restoring (`RoundTrip.ConversationRestores`).

 The lemmas below are stated for any detectors that find, in each of two
 messages, exactly the whole message as one value of one type; `NameOnly`
 is such a detector for the type `PERSON`.
 */
module CounterReuse {
  import opened Wrappers
  import opened Strings
  import JsMap
  import opened Placeholder
  import opened MappingTable
  import opened Detectors
  import opened Restoration
  import opened Masking
  import opened RoundTrip

  /** The detectors find `text` as a whole, once, as a value of type `typ`. */
  predicate WholeHit(det: Detectors, typ: string, text: string) {
    HitStream(det, text) == [Hit(typ, text)]
  }

  /** With the counters kept, a message whose only hit is itself is masked by that one hit. */
  lemma KeepMasksWhole(t: Table, det: Detectors, typ: string, text: string)
    requires !IsBlank(text) && WholeHit(det, typ, text)
    ensures MaskPIIKeepingCounters(t, text, det) == MaskHit(t, text, Hit(typ, text))
  {
  }

  /** As written, a message whose only hit is itself is masked by that one hit on a table without counters. */
  lemma ResetMasksWhole(t: Table, det: Detectors, typ: string, text: string)
    requires !IsBlank(text) && WholeHit(det, typ, text)
    ensures MaskPII(t, text, det) == MaskHit(t.(counters := map[]), text, Hit(typ, text))
  {
  }

  /** A message that is a single known token restores to its value. */
  lemma RestoreToken(t: Table, tok: string)
    requires IsToken(tok) && tok in Reverse(t) && Inert(Reverse(t)[tok])
    ensures RestoreFromPlaceholders(t, tok) == Reverse(t)[tok]
  {
    TokenPiece(tok, Reverse(t));
    RestoreIsSubstitution(t, tok);
  }

  // ---------------------------------------------------------------------
  // One whole-message hit, one fact at a time

  /** A whole-message value the table does not know is replaced by the next token of its type. */
  lemma WholeToken(t: Table, typ: string, x: string, next: nat)
    requires x !in Forward(t) && ValidTypeName(typ) && next == Count(t.counters, typ) + 1
    ensures MaskHit(t, x, Hit(typ, x)).1 == MakeToken(typ, next)
  {
    MaskWholeFreshValue(t, Hit(typ, x));
  }

  /** The table step of a hit is the reuse-or-mint step on its value. */
  lemma WholeTable(t: Table, typ: string, x: string)
    ensures MaskHit(t, x, Hit(typ, x)).0 == GetOrAssign(t, typ, x)
  {
  }

  /** A new value is mapped forward to the next token of its type. */
  lemma WholeForward(t: Table, typ: string, x: string)
    requires x !in Forward(t)
    ensures var f := Forward(MaskHit(t, x, Hit(typ, x)).0);
      x in f && f[x] == MakeToken(typ, Count(t.counters, typ) + 1)
  {
    WholeTable(t, typ, x);
  }

  /** The next token of a new value's type is mapped back to the value. */
  lemma WholeReverse(t: Table, typ: string, x: string)
    requires x !in Forward(t)
    ensures var r := Reverse(MaskHit(t, x, Hit(typ, x)).0);
      var tok := MakeToken(typ, Count(t.counters, typ) + 1);
      tok in r && r[tok] == x
  {
    WholeTable(t, typ, x);
  }

  /** A new value moves its type's counter by one. */
  lemma WholeCount(t: Table, typ: string, x: string)
    requires x !in Forward(t)
    ensures Count(MaskHit(t, x, Hit(typ, x)).0.counters, typ) == Count(t.counters, typ) + 1
  {
    WholeTable(t, typ, x);
  }

  /** Every value the table knew keeps its token. */
  lemma WholeKeeps(t: Table, typ: string, x: string)
    ensures var f := Forward(MaskHit(t, x, Hit(typ, x)).0);
      forall o :: o in Forward(t) ==> o in f && f[o] == Forward(t)[o]
  {
    WholeTable(t, typ, x);
  }

  /** The value is the only one added to the forward map. */
  lemma WholeAdds(t: Table, typ: string, x: string)
    ensures forall o :: o in Forward(MaskHit(t, x, Hit(typ, x)).0) ==> o == x || o in Forward(t)
  {
    WholeTable(t, typ, x);
  }

  /** Emptying the counters leaves both maps as they are. */
  lemma ClearedMaps(t: Table)
    ensures Forward(t.(counters := map[])) == Forward(t) && Reverse(t.(counters := map[])) == Reverse(t)
  {
  }

  /** On a table without counters, a new whole-message value is replaced by the first token of its type. */
  lemma ClearedToken(t: Table, typ: string, x: string)
    requires x !in Forward(t) && ValidTypeName(typ)
    ensures MaskHit(t.(counters := map[]), x, Hit(typ, x)).1 == MakeToken(typ, 1)
  {
    var c := t.(counters := map[]);
    ClearedMaps(t);
    assert Count(c.counters, typ) == 0;
    WholeToken(c, typ, x, 1);
  }

  /** On a table without counters, a new value is mapped forward to the first token of its type. */
  lemma ClearedForward(t: Table, typ: string, x: string)
    requires x !in Forward(t)
    ensures var f := Forward(MaskHit(t.(counters := map[]), x, Hit(typ, x)).0);
      x in f && f[x] == MakeToken(typ, 1)
  {
    var c := t.(counters := map[]);
    ClearedMaps(t);
    assert Count(c.counters, typ) == 0;
    WholeForward(c, typ, x);
  }

  /** On a table without counters, the first token of a new value's type is mapped back to the value. */
  lemma ClearedReverse(t: Table, typ: string, x: string)
    requires x !in Forward(t)
    ensures var r := Reverse(MaskHit(t.(counters := map[]), x, Hit(typ, x)).0);
      MakeToken(typ, 1) in r && r[MakeToken(typ, 1)] == x
  {
    var c := t.(counters := map[]);
    ClearedMaps(t);
    assert Count(c.counters, typ) == 0;
    WholeReverse(c, typ, x);
  }

  // ---------------------------------------------------------------------
  // As written: the counters reset at every call

  /** As written, a whole-message value the table does not know always becomes the first token of its type. */
  lemma ResetMasksAsFirst(t: Table, det: Detectors, typ: string, x: string)
    requires !IsBlank(x) && x !in Forward(t) && ValidTypeName(typ) && WholeHit(det, typ, x)
    ensures MaskPII(t, x, det).1 == MakeToken(typ, 1)
  {
    ResetMasksWhole(t, det, typ, x);
    ClearedToken(t, typ, x);
  }

  /** As written, a whole-message value the table does not know is mapped forward to the first token of its type. */
  lemma ResetMapsAsFirst(t: Table, det: Detectors, typ: string, x: string)
    requires !IsBlank(x) && x !in Forward(t) && WholeHit(det, typ, x)
    ensures var f := Forward(MaskPII(t, x, det).0);
      x in f && f[x] == MakeToken(typ, 1)
  {
    ResetMasksWhole(t, det, typ, x);
    ClearedForward(t, typ, x);
  }

  /** As written, the first token of the type now restores to that value, whatever it restored to before. */
  lemma ResetOverwritesFirst(t: Table, det: Detectors, typ: string, x: string)
    requires !IsBlank(x) && x !in Forward(t) && WholeHit(det, typ, x)
    ensures var r := Reverse(MaskPII(t, x, det).0);
      MakeToken(typ, 1) in r && r[MakeToken(typ, 1)] == x
  {
    ResetMasksWhole(t, det, typ, x);
    ClearedReverse(t, typ, x);
  }

  /** As written, masking keeps every forward entry the table had. */
  lemma ResetKeepsForward(t: Table, det: Detectors, typ: string, x: string)
    requires !IsBlank(x) && WholeHit(det, typ, x)
    ensures var f := Forward(MaskPII(t, x, det).0);
      forall o :: o in Forward(t) ==> o in f && f[o] == Forward(t)[o]
  {
    ResetMasksWhole(t, det, typ, x);
    ClearedMaps(t);
    WholeKeeps(t.(counters := map[]), typ, x);
  }

  /** As written, masking a whole-message value adds just that value to the forward map. */
  lemma ResetAddsValue(t: Table, det: Detectors, typ: string, x: string)
    requires !IsBlank(x) && WholeHit(det, typ, x)
    ensures forall o :: o in Forward(MaskPII(t, x, det).0) ==> o == x || o in Forward(t)
  {
    ResetMasksWhole(t, det, typ, x);
    ClearedMaps(t);
    WholeAdds(t.(counters := map[]), typ, x);
  }

  /** As written, after the first message of a conversation only its value is in the forward map. */
  lemma ResetFirstLeavesOther(det: Detectors, typ: string, a: string, b: string)
    requires !IsBlank(a) && a != b && WholeHit(det, typ, a)
    ensures b !in Forward(MaskPII(Empty, a, det).0)
  {
    EmptyIsFresh(typ);
    ResetAddsValue(Empty, det, typ, a);
  }

  /** As written, the second name of a conversation is masked with the first token of its type again. */
  lemma ResetSecondIsFirst(det: Detectors, typ: string, a: string, b: string)
    requires !IsBlank(a) && !IsBlank(b) && a != b && ValidTypeName(typ)
    requires WholeHit(det, typ, a) && WholeHit(det, typ, b)
    ensures MaskPII(MaskPII(Empty, a, det).0, b, det).1 == MakeToken(typ, 1)
  {
    ResetFirstLeavesOther(det, typ, a, b);
    ResetMasksAsFirst(MaskPII(Empty, a, det).0, det, typ, b);
  }

  /** As written, after the second message the forward map sends both names to the first token of their type. */
  lemma ResetSecondShares(det: Detectors, typ: string, a: string, b: string)
    requires !IsBlank(a) && !IsBlank(b) && a != b
    requires WholeHit(det, typ, a) && WholeHit(det, typ, b)
    ensures var f := Forward(MaskPII(MaskPII(Empty, a, det).0, b, det).0);
      a in f && b in f && f[a] == MakeToken(typ, 1) && f[b] == MakeToken(typ, 1)
  {
    var first := MaskPII(Empty, a, det);
    EmptyIsFresh(typ);
    ResetMapsAsFirst(Empty, det, typ, a);
    ResetFirstLeavesOther(det, typ, a, b);
    ResetMapsAsFirst(first.0, det, typ, b);
    ResetKeepsForward(first.0, det, typ, b);
  }

  /** As written, after the second message the first token of the type restores to the second name. */
  lemma ResetSecondRestores(det: Detectors, typ: string, a: string, b: string)
    requires !IsBlank(a) && !IsBlank(b) && a != b && ValidTypeName(typ)
    requires WholeHit(det, typ, a) && WholeHit(det, typ, b) && Inert(b)
    ensures RestoreFromPlaceholders(MaskPII(MaskPII(Empty, a, det).0, b, det).0, MakeToken(typ, 1)) == b
  {
    var first := MaskPII(Empty, a, det);
    ResetFirstLeavesOther(det, typ, a, b);
    ResetOverwritesFirst(first.0, det, typ, b);
    MakeTokenIsToken(typ, 1);
    RestoreToken(MaskPII(first.0, b, det).0, MakeToken(typ, 1));
  }

  /**
   As written, two different names in two messages of one conversation both
   become the first token of their type, the forward map sends both to it,
   and the first message then restores to the second name.
   */
  lemma CounterResetReusesToken(det: Detectors, typ: string, a: string, b: string)
    requires !IsBlank(a) && !IsBlank(b) && a != b && ValidTypeName(typ)
    requires WholeHit(det, typ, a) && WholeHit(det, typ, b) && Inert(b)
    ensures var first := MaskPII(Empty, a, det);
      var second := MaskPII(first.0, b, det);
      && first.1 == MakeToken(typ, 1) && second.1 == first.1
      && a in Forward(second.0) && b in Forward(second.0)
      && Forward(second.0)[a] == Forward(second.0)[b]
      && RestoreFromPlaceholders(second.0, first.1) == b
  {
    EmptyIsFresh(typ);
    ResetMasksAsFirst(Empty, det, typ, a);
    ResetSecondIsFirst(det, typ, a, b);
    ResetSecondShares(det, typ, a, b);
    ResetSecondRestores(det, typ, a, b);
  }

  // ---------------------------------------------------------------------
  // Corrected: the counters kept across calls

  /** With the counters kept, a whole-message value the table does not know becomes the next token of its type. */
  lemma KeepMasksAsNext(t: Table, det: Detectors, typ: string, x: string, next: nat)
    requires !IsBlank(x) && x !in Forward(t) && ValidTypeName(typ) && WholeHit(det, typ, x)
    requires next == Count(t.counters, typ) + 1
    ensures MaskPIIKeepingCounters(t, x, det).1 == MakeToken(typ, next)
  {
    KeepMasksWhole(t, det, typ, x);
    WholeToken(t, typ, x, next);
  }

  /** With the counters kept, masking a whole-message value the table does not know moves its type's counter by one. */
  lemma KeepCountsNext(t: Table, det: Detectors, typ: string, x: string)
    requires !IsBlank(x) && x !in Forward(t) && WholeHit(det, typ, x)
    ensures Count(MaskPIIKeepingCounters(t, x, det).0.counters, typ) == Count(t.counters, typ) + 1
  {
    KeepMasksWhole(t, det, typ, x);
    WholeCount(t, typ, x);
  }

  /** With the counters kept, masking a whole-message value adds just that value to the forward map. */
  lemma KeepAddsValue(t: Table, det: Detectors, typ: string, x: string)
    requires !IsBlank(x) && WholeHit(det, typ, x)
    ensures forall o :: o in Forward(MaskPIIKeepingCounters(t, x, det).0) ==> o == x || o in Forward(t)
  {
    KeepMasksWhole(t, det, typ, x);
    WholeAdds(t, typ, x);
  }

  /**
   Corrected: with the counters kept, the second value gets the next token
   of its type, and both messages restore to what they were.
   */
  lemma KeptCountersMintFreshToken(det: Detectors, typ: string, a: string, b: string)
    requires !IsBlank(a) && !IsBlank(b) && a != b && ValidTypeName(typ)
    requires WholeHit(det, typ, a) && WholeHit(det, typ, b)
    requires '[' !in a && '[' !in b && Safe(a) && Safe(b)
    ensures var first := MaskPIIKeepingCounters(Empty, a, det);
      var second := MaskPIIKeepingCounters(first.0, b, det);
      && first.1 == MakeToken(typ, 1) && second.1 == MakeToken(typ, 2)
      && RestoreFromPlaceholders(second.0, first.1) == a
      && RestoreFromPlaceholders(second.0, second.1) == b
  {
    EmptyIsFresh(typ);
    KeepMasksAsNext(Empty, det, typ, a, 1);
    KeptSecond(Empty, det, typ, a, b);
    KeptBothRestore(det, typ, a, b);
  }

  /** With the counters kept, both messages of a two-message conversation restore. */
  lemma KeptBothRestore(det: Detectors, typ: string, a: string, b: string)
    requires WholeHit(det, typ, a) && WholeHit(det, typ, b)
    requires '[' !in a && '[' !in b && Safe(a) && Safe(b)
    ensures var first := MaskPIIKeepingCounters(Empty, a, det);
      var second := MaskPIIKeepingCounters(first.0, b, det);
      && RestoreFromPlaceholders(second.0, first.1) == a
      && RestoreFromPlaceholders(second.0, second.1) == b
  {
    var first := MaskPIIKeepingCounters(Empty, a, det);
    EmptyIsFresh(typ);
    WholeIsMaskable(det, typ, a);
    WholeIsMaskable(det, typ, b);
    MaskThenRestore(Empty, a, det);
    KeptSecondRestores(first.0, first.1, det, a, b);
  }

  /** With the counters kept, a second, different value on a fresh table gets the second token of its type. */
  lemma KeptSecond(t: Table, det: Detectors, typ: string, a: string, b: string)
    requires !IsBlank(a) && !IsBlank(b) && a != b && ValidTypeName(typ)
    requires WholeHit(det, typ, a) && WholeHit(det, typ, b)
    requires Forward(t) == map[] && Count(t.counters, typ) == 0
    ensures var first := MaskPIIKeepingCounters(t, a, det);
      MaskPIIKeepingCounters(first.0, b, det).1 == MakeToken(typ, 2)
  {
    KeptFirstLeavesOther(t, det, typ, a, b);
    KeptFirstCount(t, det, typ, a);
    KeepMasksAsNext(MaskPIIKeepingCounters(t, a, det).0, det, typ, b, 2);
  }

  /** With the counters kept, after a first value on a fresh table other values are still new. */
  lemma KeptFirstLeavesOther(t: Table, det: Detectors, typ: string, a: string, b: string)
    requires !IsBlank(a) && a != b && WholeHit(det, typ, a) && Forward(t) == map[]
    ensures b !in Forward(MaskPIIKeepingCounters(t, a, det).0)
  {
    KeepAddsValue(t, det, typ, a);
  }

  /** With the counters kept, after a first value on a fresh table its type's counter is one. */
  lemma KeptFirstCount(t: Table, det: Detectors, typ: string, a: string)
    requires !IsBlank(a) && WholeHit(det, typ, a) && Forward(t) == map[] && Count(t.counters, typ) == 0
    ensures Count(MaskPIIKeepingCounters(t, a, det).0.counters, typ) == 1
  {
    KeepCountsNext(t, det, typ, a);
  }

  /** The table before the first message maps nothing, has no counters and is consistent. */
  lemma EmptyIsFresh(typ: string)
    ensures Forward(Empty) == map[] && Count(Empty.counters, typ) == 0 && Consistent(Empty)
  {
    assert ResetCounters(Empty) == Empty;
  }

  /** A message found whole, with no `[` and a safe value, meets what the round trip asks. */
  lemma WholeIsMaskable(det: Detectors, typ: string, x: string)
    requires WholeHit(det, typ, x) && '[' !in x && Safe(x)
    ensures Maskable(det, x)
  {
  }

  /** After a restorable first message, masking a second keeps the first restorable, and the second restores. */
  lemma KeptSecondRestores(t: Table, masked: string, det: Detectors, a: string, b: string)
    requires Restorable(t, masked, a) && Maskable(det, b)
    ensures var second := MaskPIIKeepingCounters(t, b, det);
      && RestoreFromPlaceholders(second.0, masked) == a
      && RestoreFromPlaceholders(second.0, second.1) == b
  {
    MaskThenRestore(t, b, det);
    LaterMaskingKeepsRestorable(t, masked, a, b, det);
    RestorableRestores(MaskPIIKeepingCounters(t, b, det).0, masked, a);
  }

  // ---------------------------------------------------------------------
  // A detector that finds every message as one person's name

  /** What the recognizer below finds in `text`: the whole text, as a person. */
  function WholeTextAsPerson(text: string): EntityTag -> seq<string> {
    (tag: EntityTag) => if tag == Person then [text] else []
  }

  /** A recognizer that reads every message as one person's name, and no pattern matches. */
  const NameOnly: Detectors := Detectors(text => Some(WholeTextAsPerson(text)), (key: string, text: string) => [])

  lemma NameOnlyEntities(text: string)
    ensures EntityHits(WholeTextAsPerson(text), EntityOrder) == [Hit("PERSON", text)]
  {
    var found := WholeTextAsPerson(text);
    assert EntityHits(found, EntityOrder[1..]) == [] by {
      EntityHitsEmpty(found, EntityOrder[1..]);
      assert forall tag :: tag in EntityOrder[1..] ==> |found(tag)| == 0;
    }
    assert HitsOfType("PERSON", [text]) == [Hit("PERSON", text)];
  }

  lemma NameOnlyPatterns(text: string)
    ensures PatternHits(NameOnly, text, PatternKeys) == []
  {
    assert forall key :: |NameOnly.patterns(key, text)| == 0;
  }

  /** `NameOnly` finds every message as a whole, as a person. */
  lemma NameOnlyHits(text: string)
    ensures WholeHit(NameOnly, "PERSON", text)
  {
    NameOnlyEntities(text);
    NameOnlyPatterns(text);
    assert NameOnly.recognize(text) == Some(WholeTextAsPerson(text));
  }

}
