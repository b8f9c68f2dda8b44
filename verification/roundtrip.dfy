/**
 Masking followed by restoration gives the original text back, and the
 texts masked earlier in a conversation keep restoring after later
 messages are masked, provided the counters are not reset between calls.
 The proof tracks the masked text through the fold: every `[` in it opens
 a placeholder, every placeholder in it is known and maps to a safe value,
 and substituting the placeholders gives the original.
 */
module RoundTrip {
  import opened Strings
  import opened Placeholder
  import opened MappingTable
  import opened Detectors
  import opened Scanning
  import opened Restoration
  import opened Masking

  /** `masked` restores to `original` under the reverse map `rev`, and stays so while `rev` only grows. */
  ghost predicate Restores(rev: map<string, string>, masked: string, original: string) {
    && Closed(masked)
    && (forall m :: m in FindAll(masked) ==> m in rev && Safe(rev[m]))
    && Substitute(masked, rev) == original
  }

  /** `masked` restores to `original` under the consistent table `t`. */
  ghost predicate Restorable(t: Table, masked: string, original: string) {
    Consistent(t) && Restores(Reverse(t), masked, original)
  }

  /** Every entry of `rev` is still in `rev'`, with the same value. */
  ghost predicate Extends(rev: map<string, string>, rev': map<string, string>) {
    forall p :: p in rev ==> p in rev' && rev'[p] == rev[p]
  }

  // ---------------------------------------------------------------------
  // Substitution piece by piece

  /** A safe value is closed, holds no placeholder and substitutes to itself. */
  lemma SafePiece(v: string, rev: map<string, string>)
    requires Safe(v)
    ensures Closed(v) && Substitute(v, rev) == v
    ensures forall m :: m !in FindAll(v)
  {
    NoBracketIsClosed(v);
    ScanWithoutBracket(v);
    assert forall m :: Tok(m) !in Scan(v);
    SubstituteWithoutMatches(v, rev);
  }

  /** A known token is closed, holds only itself and substitutes to its value. */
  lemma TokenPiece(tok: string, rev: map<string, string>)
    requires IsToken(tok) && tok in rev
    ensures Closed(tok) && Substitute(tok, rev) == rev[tok]
    ensures forall m :: m in FindAll(tok) <==> m == tok
  {
    TokenIsClosed(tok);
    ScanToken(tok);
    var v := rev[tok];
    assert Mark([Tok(tok)], rev) == [Done(v)];
    assert Render([Done(v)]) == v + Render([]);
  }

  /** The scan splits at a closed prefix and a closed middle. */
  lemma ScanAround(a: string, x: string, b: string)
    requires Closed(a) && Closed(x)
    ensures Scan(a + x + b) == Scan(a) + Scan(x) + Scan(b)
  {
    ScanConcat(x, b);
    ScanConcat(a, x + b);
    StringAssoc(a, x, b);
    ConcatAssoc(Scan(a), Scan(x), Scan(b));
  }

  /** Marking and rendering split along the segments. */
  lemma SubstituteSegments(sa: seq<Segment>, sx: seq<Segment>, sb: seq<Segment>, rev: map<string, string>)
    ensures Render(Mark(sa + sx + sb, rev)) == Render(Mark(sa, rev)) + Render(Mark(sx, rev)) + Render(Mark(sb, rev))
  {
    MarkConcat(sa + sx, sb, rev);
    MarkConcat(sa, sx, rev);
    RenderConcat(Mark(sa, rev) + Mark(sx, rev), Mark(sb, rev));
    RenderConcat(Mark(sa, rev), Mark(sx, rev));
  }

  /** Scanning and substituting split at a closed prefix and a closed middle. */
  lemma SubstituteAround(a: string, x: string, b: string, rev: map<string, string>)
    requires Closed(a) && Closed(x)
    ensures Substitute(a + x + b, rev) == Substitute(a, rev) + Substitute(x, rev) + Substitute(b, rev)
    ensures forall m :: m in FindAll(a + x + b) <==> m in FindAll(a) || m in FindAll(x) || m in FindAll(b)
  {
    ScanAround(a, x, b);
    SubstituteSegments(Scan(a), Scan(x), Scan(b), rev);
  }

  /** Substitution only looks at the placeholders present. */
  lemma SubstituteAgree(s: string, rev: map<string, string>, rev': map<string, string>)
    requires forall m :: m in FindAll(s) ==> m in rev && m in rev' && rev'[m] == rev[m]
    ensures Substitute(s, rev') == Substitute(s, rev)
  {
    assert forall m :: Tok(m) in Scan(s) ==> m in FindAll(s);
    MarkAgree(Scan(s), rev, rev');
  }

  /** The three parts of a text around an occurrence. */
  lemma SplitAtOccurrence(s: string, v: string, i: nat)
    requires OccursAt(s, v, i)
    ensures s == s[..i] + v + s[i + |v|..]
  {
  }

  /** The parts of `a + v + b` read back. */
  lemma PartsOf(a: string, v: string, b: string)
    ensures (a + v + b)[..|a|] == a && (a + v + b)[|a| + |v|..] == b
    ensures OccursAt(a + v + b, v, |a|)
  {
  }

  /**
   In a closed text, the part before an occurrence of a safe value is
   closed: no placeholder can run into the value.
   */
  lemma ClosedBeforeSafe(s: string, v: string, i: nat)
    requires Closed(s) && Safe(v) && OccursAt(s, v, i)
    ensures Closed(s[..i])
  {
    var a := s[..i];
    var tail := s[i + |v|..];
    forall p | 0 <= p < |a|
      ensures OpensAt(a, p)
    {
      if a[p] == '[' {
        assert OpensAt(s, p);
        var n := TokenPrefixLen(s[p..]).value;
        assert s[p..] == s[p..i] + (v + tail);
        MatchStopsBeforeSafeValue(s[p..i], v, tail, n);
        assert a[p..] == s[p..i];
        assert a[p..][..n] == s[p..][..n];
        TokenPrefixUnique(a[p..], n);
      }
    }
  }

  /** Around a safe value in a closed text, both sides are closed. */
  lemma ClosedAround(a: string, v: string, b: string)
    requires Closed(a + v + b) && Safe(v)
    ensures Closed(a) && Closed(b)
  {
    PartsOf(a, v, b);
    ClosedBeforeSafe(a + v + b, v, |a|);
    ClosedSuffix(a + v + b, |a| + |v|);
  }

  // ---------------------------------------------------------------------
  // The masking fold keeps the text restorable

  /** Before any hit: a text without `[` restores to itself under any consistent table. */
  lemma StartIsRestorable(t: Table, text: string)
    requires Consistent(t) && '[' !in text
    ensures Restorable(t, text, text)
  {
    NoBracketIsClosed(text);
    ScanWithoutBracket(text);
    assert forall m :: Tok(m) !in Scan(text);
    SubstituteWithoutMatches(text, Reverse(t));
  }

  /** A reverse map that only grew keeps every restoring text restoring. */
  lemma GrowthKeepsRestores(rev: map<string, string>, rev': map<string, string>, masked: string, original: string)
    requires Restores(rev, masked, original) && Extends(rev, rev')
    ensures Restores(rev', masked, original)
  {
    SubstituteAgree(masked, rev, rev');
  }

  /** A table that only grew keeps every restorable text restorable. */
  lemma GrowthKeepsRestorable(t: Table, t': Table, masked: string, original: string)
    requires Restorable(t, masked, original) && Consistent(t') && ReverseExtends(t, t')
    ensures Restorable(t', masked, original)
  {
    assert Extends(Reverse(t), Reverse(t'));
    GrowthKeepsRestores(Reverse(t), Reverse(t'), masked, original);
  }

  /** All placeholders of `s` are known to `rev`, map to safe values, and `rev'` agrees on them. */
  ghost predicate KnownAndSafe(s: string, rev: map<string, string>, rev': map<string, string>) {
    forall m :: m in FindAll(s) ==> m in rev && Safe(rev[m]) && m in rev' && rev'[m] == rev[m]
  }

  /** Putting a token for a safe value between closed text and any text keeps the substitution. */
  lemma ReplacePiece(a: string, v: string, b: string, tok: string, rev: map<string, string>, rev': map<string, string>)
    requires Closed(a) && Safe(v) && IsToken(tok) && tok in rev' && rev'[tok] == v
    requires KnownAndSafe(a + v + b, rev, rev')
    ensures Substitute(a + tok + b, rev') == Substitute(a + v + b, rev)
    ensures forall m :: m in FindAll(a + tok + b) ==> m in rev' && Safe(rev'[m])
  {
    SafePiece(v, rev);
    TokenPiece(tok, rev');
    SubstituteAround(a, v, b, rev);
    SubstituteAround(a, tok, b, rev');
    SubstituteAgree(a, rev, rev');
    SubstituteAgree(b, rev, rev');
  }

  /** Replacing a safe value by a token that maps back to it, in a closed text. */
  lemma ReplaceAt(a: string, v: string, b: string, tok: string, rev: map<string, string>, rev': map<string, string>)
    requires Closed(a + v + b) && Safe(v) && IsToken(tok) && tok in rev' && rev'[tok] == v
    requires KnownAndSafe(a + v + b, rev, rev')
    ensures Closed(a + tok + b)
    ensures Substitute(a + tok + b, rev') == Substitute(a + v + b, rev)
    ensures forall m :: m in FindAll(a + tok + b) ==> m in rev' && Safe(rev'[m])
  {
    ClosedAround(a, v, b);
    TokenIsClosed(tok);
    ClosedConcat(tok, b);
    ClosedConcat(a, tok + b);
    StringAssoc(a, tok, b);
    ReplacePiece(a, v, b, tok, rev, rev');
  }

  /** Replacing an occurrence of a safe value by a token that maps back to it. */
  lemma ReplaceKeepsRestores(rev: map<string, string>, rev': map<string, string>, masked: string, original: string, v: string, tok: string, i: nat)
    requires Restores(rev, masked, original) && Extends(rev, rev')
    requires Safe(v) && OccursAt(masked, v, i)
    requires IsToken(tok) && tok in rev' && rev'[tok] == v
    ensures Restores(rev', masked[..i] + tok + masked[i + |v|..], original)
  {
    assert KnownAndSafe(masked, rev, rev');
    SplitAtOccurrence(masked, v, i);
    ReplaceAt(masked[..i], v, masked[i + |v|..], tok, rev, rev');
  }

  /** The first occurrence of a safe value, if any, replaced by a token that maps back to it. */
  lemma ReplaceFirstKeepsRestores(rev: map<string, string>, rev': map<string, string>, masked: string, w: string, original: string, v: string, tok: string)
    requires Restores(rev, masked, original) && Extends(rev, rev')
    requires Safe(v) && IsToken(tok) && tok in rev' && rev'[tok] == v
    requires match IndexOf(masked, v)
      case None => w == masked
      case Some(i) => w == masked[..i] + tok + masked[i + |v|..]
    ensures Restores(rev', w, original)
  {
    match IndexOf(masked, v)
    case None =>
      GrowthKeepsRestores(rev, rev', masked, original);
      RestoresSame(rev', masked, w, original);
    case Some(i) =>
      ReplaceKeepsRestores(rev, rev', masked, original, v, tok, i);
      RestoresSame(rev', masked[..i] + tok + masked[i + |v|..], w, original);
  }

  lemma RestoresSame(rev: map<string, string>, masked: string, w: string, original: string)
    requires Restores(rev, masked, original) && w == masked
    ensures Restores(rev, w, original)
  {
  }

  /** One hit with a safe value keeps the text restorable. */
  lemma MaskHitKeepsRestorable(t: Table, masked: string, original: string, h: Hit)
    requires Restorable(t, masked, original) && ValidTypeName(h.typ) && Safe(h.value)
    ensures Restorable(MaskHit(t, masked, h).0, MaskHit(t, masked, h).1, original)
  {
    MaskHitKeepsConsistent(t, masked, h);
    MaskHitRestores(t, masked, original, h);
  }

  /** One hit with a safe value keeps the text restoring under the grown reverse map. */
  lemma MaskHitRestores(t: Table, masked: string, original: string, h: Hit)
    requires Consistent(t) && Restores(Reverse(t), masked, original) && ValidTypeName(h.typ) && Safe(h.value)
    ensures Restores(Reverse(MaskHit(t, masked, h).0), MaskHit(t, masked, h).1, original)
  {
    var r := MaskHit(t, masked, h);
    MaskHitStep(t, masked, h);
    ReplaceFirstKeepsRestores(Reverse(t), Reverse(r.0), masked, r.1, original, h.value, Forward(r.0)[h.value]);
  }

  /**
   One hit only adds reverse entries, its token is a token of the grammar
   that maps back to the hit's value, and it replaces the first occurrence
   of the value, if any, by that token.
   */
  lemma MaskHitStep(t: Table, masked: string, h: Hit)
    requires Consistent(t) && ValidTypeName(h.typ)
    ensures var r := MaskHit(t, masked, h);
      var tok := Forward(r.0)[h.value];
      && Extends(Reverse(t), Reverse(r.0))
      && IsToken(tok) && tok in Reverse(r.0) && Reverse(r.0)[tok] == h.value
      && match IndexOf(masked, h.value)
         case None => r.1 == masked
         case Some(i) => r.1 == masked[..i] + tok + masked[i + |h.value|..]
  {
    MaskHitKeepsConsistent(t, masked, h);
    MaskHitToken(t, masked, h);
    MaskHitText(t, masked, h);
  }

  /** Hits of valid types whose values are all safe. */
  ghost predicate SafeHits(hits: seq<Hit>) {
    ValidHits(hits) && forall i :: 0 <= i < |hits| ==> Safe(hits[i].value)
  }

  /** The whole fold keeps the text restorable. */
  lemma {:induction false} MaskAllKeepsRestorable(t: Table, masked: string, original: string, hits: seq<Hit>)
    requires Restorable(t, masked, original) && SafeHits(hits)
    ensures Restorable(MaskAll(t, masked, hits).0, MaskAll(t, masked, hits).1, original)
    decreases |hits|
  {
    if |hits| > 0 {
      var step := MaskHit(t, masked, hits[0]);
      MaskHitKeepsRestorable(t, masked, original, hits[0]);
      SafeHitsTail(hits);
      MaskAllKeepsRestorable(step.0, step.1, original, hits[1..]);
      MaskAllStep(t, masked, hits);
    }
  }

  lemma SafeHitsTail(hits: seq<Hit>)
    requires |hits| > 0 && SafeHits(hits)
    ensures ValidTypeName(hits[0].typ) && Safe(hits[0].value) && SafeHits(hits[1..])
  {
    assert forall i :: 0 <= i < |hits| - 1 ==> hits[1..][i] == hits[i + 1];
  }

  /** A restorable text is what restoration gives back. */
  lemma RestorableRestores(t: Table, masked: string, original: string)
    requires Restorable(t, masked, original)
    ensures RestoreFromPlaceholders(t, masked) == original
  {
    RestoreIsSubstitution(t, masked);
  }

  // ---------------------------------------------------------------------
  // The round trip

  /** What the round trip asks of a message: no `[` of its own, and only safe values detected in it. */
  ghost predicate Maskable(det: Detectors, text: string) {
    '[' !in text && forall h :: h in HitStream(det, text) ==> Safe(h.value)
  }

  lemma MaskableHits(det: Detectors, text: string)
    requires Maskable(det, text)
    ensures SafeHits(HitStream(det, text))
  {
    HitStreamIsValid(det, text);
    var hits := HitStream(det, text);
    assert forall i :: 0 <= i < |hits| ==> hits[i] in hits;
  }

  /**
   With the counters kept, a masked message restores to itself under the
   table masking left, and the table stays consistent.
   */
  lemma MaskThenRestore(t: Table, text: string, det: Detectors)
    requires Consistent(t) && Maskable(det, text)
    ensures var r := MaskPIIKeepingCounters(t, text, det);
      Restorable(r.0, r.1, text) && RestoreFromPlaceholders(r.0, r.1) == text
  {
    StartIsRestorable(t, text);
    if !IsBlank(text) {
      MaskableHits(det, text);
      MaskAllKeepsRestorable(t, text, text, HitStream(det, text));
    }
    var r := MaskPIIKeepingCounters(t, text, det);
    RestorableRestores(r.0, r.1, text);
  }

  /**
   As written, the round trip holds for one call on a table whose maps are
   still empty (the first message, or the first after `resetCounters`).
   */
  lemma MaskPIIThenRestore(t: Table, text: string, det: Detectors)
    requires t.forward == [] && t.reverse == [] && Maskable(det, text)
    ensures var r := MaskPII(t, text, det);
      RestoreFromPlaceholders(r.0, r.1) == text
  {
    var t0 := t.(counters := map[]);
    EmptyMapsAfterReset(t);
    StartIsRestorable(t0, text);
    if !IsBlank(text) {
      MaskableHits(det, text);
      MaskAllKeepsRestorable(t0, text, text, HitStream(det, text));
      var r := MaskPII(t, text, det);
      RestorableRestores(r.0, r.1, text);
    } else {
      StartIsRestorable(t, text);
      RestorableRestores(t, text, text);
    }
  }

  /**
   Masking a later message with the counters kept leaves every earlier
   masked message restorable.
   */
  lemma LaterMaskingKeepsRestorable(t: Table, masked: string, original: string, text: string, det: Detectors)
    requires Restorable(t, masked, original)
    ensures Restorable(MaskPIIKeepingCounters(t, text, det).0, masked, original)
  {
    MaskPIIKeepingCountersKeepsConsistent(t, text, det);
    GrowthKeepsRestorable(t, MaskPIIKeepingCounters(t, text, det).0, masked, original);
  }

  /** A conversation: each message masked in turn, the table threaded through. */
  function MaskConversation(t: Table, texts: seq<string>, det: Detectors): (r: (Table, seq<string>))
    ensures |r.1| == |texts|
    decreases |texts|
  {
    if |texts| == 0 then (t, [])
    else
      var first := MaskPIIKeepingCounters(t, texts[0], det);
      var rest := MaskConversation(first.0, texts[1..], det);
      (rest.0, [first.1] + rest.1)
  }

  /** Every message of a conversation restores under the final table. */
  lemma {:induction false} ConversationRestores(t: Table, texts: seq<string>, det: Detectors)
    requires Consistent(t)
    requires forall i :: 0 <= i < |texts| ==> Maskable(det, texts[i])
    ensures var r := MaskConversation(t, texts, det);
      Consistent(r.0) && forall i :: 0 <= i < |texts| ==> Restorable(r.0, r.1[i], texts[i])
    decreases |texts|
  {
    if |texts| > 0 {
      var first := MaskPIIKeepingCounters(t, texts[0], det);
      MaskThenRestore(t, texts[0], det);
      ConversationRestores(first.0, texts[1..], det);
      var rest := MaskConversation(first.0, texts[1..], det);
      var r := MaskConversation(t, texts, det);
      assert r.0 == rest.0 && r.1 == [first.1] + rest.1;
      ConversationGrows(first.0, texts[1..], det);
      GrowthKeepsRestorable(first.0, rest.0, first.1, texts[0]);
      forall i | 0 <= i < |texts|
        ensures Restorable(r.0, r.1[i], texts[i])
      {
        if i > 0 {
          assert r.1[i] == rest.1[i - 1] && texts[i] == texts[1..][i - 1];
        }
      }
    }
  }

  /** A conversation only adds reverse entries to a consistent table. */
  lemma {:induction false} ConversationGrows(t: Table, texts: seq<string>, det: Detectors)
    requires Consistent(t)
    ensures ReverseExtends(t, MaskConversation(t, texts, det).0)
    decreases |texts|
  {
    if |texts| > 0 {
      var first := MaskPIIKeepingCounters(t, texts[0], det);
      MaskPIIKeepingCountersKeepsConsistent(t, texts[0], det);
      ConversationGrows(first.0, texts[1..], det);
    }
  }
}
