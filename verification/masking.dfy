/**
 `maskPII`: every detector hit, in the order the hit stream lists them,
 reuses the token its value already has or mints the next token of its
 type, and the first occurrence of the value in the text masked so far is
 replaced by that token. The counters are reset at the start of every call
 while both maps are kept; `MaskPIIKeepingCounters` is the same fold
 without that reset.
 */
module Masking {
  import opened Strings
  import JsMap
  import opened Placeholder
  import opened MappingTable
  import opened Detectors

  /** The distinct values of a list of hits. */
  function ValuesOf(hits: seq<Hit>): (r: set<string>)
    ensures forall v :: v in r <==> exists i :: 0 <= i < |hits| && hits[i].value == v
  {
    set i | 0 <= i < |hits| :: hits[i].value
  }

  /** A token holds no `$`, so no `$`-pattern. */
  lemma TokenIsLiteral(token: string)
    ensures IsToken(token) ==> TakenLiterally(token)
  {
    TokenShapeIf(token);
    if IsToken(token) {
      assert '$' !in token by {
        assert forall i :: 0 < i < |token| - 1 ==> token[i] != '$';
      }
      NoDollarIsLiteral(token);
    }
  }

  /** Replacing by a token inserts the token as it is. */
  lemma ReplaceFirstWithToken(text: string, pat: string, token: string)
    ensures IsToken(token) ==>
              forall i :: FirstOccurrence(text, pat, i) ==> ReplaceFirst(text, pat, token) == text[..i] + token + text[i + |pat|..]
  {
    TokenIsLiteral(token);
    ReplaceFirstAt(text, pat, token);
    if IsToken(token) {
      forall i | FirstOccurrence(text, pat, i)
        ensures ReplaceFirst(text, pat, token) == text[..i] + token + text[i + |pat|..]
      {
        ExpandLiteral(token, pat, text[..i], text[i + |pat|..]);
      }
    }
  }

  /**
   One hit: the value gets its token (the one it has, or a fresh one of the
   hit's type), and the first occurrence of the value in `masked` is
   replaced by the token, which is inserted as written because a token holds
   no `$`.
   */
  function MaskHit(t: Table, masked: string, h: Hit): (r: (Table, string))
    ensures h.value in Forward(r.0)
    ensures (forall j :: !OccursAt(masked, h.value, j)) ==> r.1 == masked
  {
    var t' := GetOrAssign(t, h.typ, h.value);
    (t', ReplaceFirst(masked, h.value, Forward(t')[h.value]))
  }

  /** When the value's token is in the grammar, it replaces the first occurrence of the value as written. */
  lemma MaskHitReplacesFirst(t: Table, masked: string, h: Hit)
    ensures var r := MaskHit(t, masked, h);
      IsToken(Forward(r.0)[h.value]) ==>
        forall i :: FirstOccurrence(masked, h.value, i) ==> r.1 == masked[..i] + Forward(r.0)[h.value] + masked[i + |h.value|..]
  {
    var t' := GetOrAssign(t, h.typ, h.value);
    ReplaceFirstWithToken(masked, h.value, Forward(t')[h.value]);
  }

  /**
   The `forEach` over all hits. A value that had a token keeps it; every hit
   value ends up with one; no reverse entry is dropped.
   */
  function MaskAll(t: Table, masked: string, hits: seq<Hit>): (r: (Table, string))
    ensures Forward(r.0).Keys == Forward(t).Keys + ValuesOf(hits)
    ensures forall o :: o in Forward(t) ==> o in Forward(r.0) && Forward(r.0)[o] == Forward(t)[o]
    ensures Reverse(t).Keys <= Reverse(r.0).Keys
    ensures |hits| == 0 ==> r == (t, masked)
    decreases |hits|
  {
    if |hits| == 0 then (t, masked)
    else
      var step := MaskHit(t, masked, hits[0]);
      ValuesOfCons(hits);
      MaskAll(step.0, step.1, hits[1..])
  }

  /** The values of a list of hits, one at a time. */
  lemma ValuesOfCons(hits: seq<Hit>)
    requires |hits| > 0
    ensures ValuesOf(hits) == {hits[0].value} + ValuesOf(hits[1..])
  {
    assert forall i :: 0 < i < |hits| ==> hits[i] == hits[1..][i - 1];
    assert forall i :: 0 <= i < |hits| - 1 ==> hits[1..][i] == hits[i + 1];
  }

  /**
   `maskPII(text)` as written: a blank text comes back as it is and the
   table is untouched; otherwise the counters restart from zero, both maps
   are kept, and every hit of the original text is masked in turn.
   */
  function MaskPII(t: Table, text: string, det: Detectors): (r: (Table, string))
    ensures IsBlank(text) ==> r == (t, text)
    ensures !IsBlank(text) ==> Forward(r.0).Keys == Forward(t).Keys + ValuesOf(HitStream(det, text))
    ensures forall o :: o in Forward(t) ==> o in Forward(r.0) && Forward(r.0)[o] == Forward(t)[o]
    ensures Reverse(t).Keys <= Reverse(r.0).Keys
  {
    if IsBlank(text) then (t, text)
    else MaskAll(t.(counters := map[]), text, HitStream(det, text))
  }

  /** `maskPII` with the counters kept from one call to the next. */
  function MaskPIIKeepingCounters(t: Table, text: string, det: Detectors): (r: (Table, string))
    ensures IsBlank(text) ==> r == (t, text)
    ensures !IsBlank(text) ==> Forward(r.0).Keys == Forward(t).Keys + ValuesOf(HitStream(det, text))
    ensures forall o :: o in Forward(t) ==> o in Forward(r.0) && Forward(r.0)[o] == Forward(t)[o]
    ensures Reverse(t).Keys <= Reverse(r.0).Keys
  {
    if IsBlank(text) then (t, text)
    else MaskAll(t, text, HitStream(det, text))
  }

  /** A text in which `containsPII` finds nothing comes back from `maskPII` as it is. */
  lemma MaskPIIWithoutPII(t: Table, text: string, det: Detectors)
    ensures !ContainsPII(det, text) ==> MaskPII(t, text, det).1 == text
    ensures !ContainsPII(det, text) ==> MaskPIIKeepingCounters(t, text, det).1 == text
  {
    ContainsPIIIffHits(det, text);
  }

  // ---------------------------------------------------------------------
  // The consistency invariant across masking

  /** Every hit has a type the token grammar accepts. */
  predicate ValidHits(hits: seq<Hit>) {
    forall i :: 0 <= i < |hits| ==> ValidTypeName(hits[i].typ)
  }

  /** The reverse entries of `t` are all still in `r`, with the same values. */
  ghost predicate ReverseExtends(t: Table, r: Table) {
    forall p :: p in Reverse(t) ==> p in Reverse(r) && Reverse(r)[p] == Reverse(t)[p]
  }

  /** One hit keeps a consistent table consistent and only adds reverse entries. */
  lemma MaskHitKeepsConsistent(t: Table, masked: string, h: Hit)
    requires Consistent(t) && ValidTypeName(h.typ)
    ensures Consistent(MaskHit(t, masked, h).0)
    ensures ReverseExtends(t, MaskHit(t, masked, h).0)
  {
    GetOrAssignKeepsConsistent(t, h.typ, h.value);
    GetOrAssignExtendsReverse(t, h.typ, h.value);
  }

  /** On a consistent table, the token a hit gets is a token of the grammar that maps back to the hit's value. */
  lemma MaskHitToken(t: Table, masked: string, h: Hit)
    requires Consistent(t) && ValidTypeName(h.typ)
    ensures var r := MaskHit(t, masked, h).0;
      IsToken(Forward(r)[h.value]) && Forward(r)[h.value] in Reverse(r) && Reverse(r)[Forward(r)[h.value]] == h.value
  {
    MaskHitKeepsConsistent(t, masked, h);
  }

  /** On a consistent table, a hit replaces the first occurrence of its value, if any, by its token. */
  lemma MaskHitText(t: Table, masked: string, h: Hit)
    requires Consistent(t) && ValidTypeName(h.typ)
    ensures var r := MaskHit(t, masked, h);
      match IndexOf(masked, h.value)
      case None => r.1 == masked
      case Some(i) => r.1 == masked[..i] + Forward(r.0)[h.value] + masked[i + |h.value|..]
  {
    MaskHitToken(t, masked, h);
    MaskHitReplacesFirst(t, masked, h);
    match IndexOf(masked, h.value)
    case None =>
    case Some(i) =>
      assert FirstOccurrence(masked, h.value, i);
  }

  /** A value the table does not know gets the next token of the hit's type, recorded both ways. */
  lemma MaskHitFresh(t: Table, masked: string, h: Hit)
    requires h.value !in Forward(t)
    ensures var r := MaskHit(t, masked, h).0;
      var tok := MakeToken(h.typ, Count(t.counters, h.typ) + 1);
      && Forward(r)[h.value] == tok && Reverse(r)[tok] == h.value
      && Count(r.counters, h.typ) == Count(t.counters, h.typ) + 1
      && Forward(r).Keys == Forward(t).Keys + {h.value}
  {
    assert MaskHit(t, masked, h).0 == GetOrAssign(t, h.typ, h.value);
  }

  /** A message that is exactly a value the table does not know becomes that value's new token. */
  lemma MaskWholeFreshValue(t: Table, h: Hit)
    requires h.value !in Forward(t) && ValidTypeName(h.typ)
    ensures MaskHit(t, h.value, h).1 == MakeToken(h.typ, Count(t.counters, h.typ) + 1)
  {
    var v := h.value;
    MaskHitFresh(t, v, h);
    MaskHitReplacesFirst(t, v, h);
    MakeTokenIsToken(h.typ, Count(t.counters, h.typ) + 1);
    WholeIsFirstOccurrence(v, Forward(MaskHit(t, v, h).0)[v]);
  }

  /** The whole fold keeps a consistent table consistent and only adds reverse entries. */
  lemma {:induction false} MaskAllKeepsConsistent(t: Table, masked: string, hits: seq<Hit>)
    requires Consistent(t) && ValidHits(hits)
    ensures Consistent(MaskAll(t, masked, hits).0)
    ensures ReverseExtends(t, MaskAll(t, masked, hits).0)
    decreases |hits|
  {
    if |hits| > 0 {
      var step := MaskHit(t, masked, hits[0]);
      MaskHitKeepsConsistent(t, masked, hits[0]);
      ValidHitsTail(hits);
      MaskAllKeepsConsistent(step.0, step.1, hits[1..]);
      MaskAllStep(t, masked, hits);
      ReverseExtendsTrans(t, step.0, MaskAll(step.0, step.1, hits[1..]).0);
    }
  }

  /** The fold, one hit at a time. */
  lemma MaskAllStep(t: Table, masked: string, hits: seq<Hit>)
    requires |hits| > 0
    ensures var step := MaskHit(t, masked, hits[0]);
      MaskAll(t, masked, hits) == MaskAll(step.0, step.1, hits[1..])
  {
  }

  lemma ValidHitsTail(hits: seq<Hit>)
    requires |hits| > 0 && ValidHits(hits)
    ensures ValidHits(hits[1..])
  {
    assert forall i :: 0 <= i < |hits| - 1 ==> hits[1..][i] == hits[i + 1];
  }

  lemma ReverseExtendsTrans(a: Table, b: Table, c: Table)
    requires ReverseExtends(a, b) && ReverseExtends(b, c)
    ensures ReverseExtends(a, c)
  {
  }

  /** The hit stream has only valid types. */
  lemma HitStreamIsValid(det: Detectors, text: string)
    ensures ValidHits(HitStream(det, text))
  {
    HitTypesAreKnown(det, text);
    var hits := HitStream(det, text);
    assert forall i :: 0 <= i < |hits| ==> hits[i] in hits;
  }

  /** With the counters kept, masking keeps a consistent table consistent and only adds reverse entries. */
  lemma MaskPIIKeepingCountersKeepsConsistent(t: Table, text: string, det: Detectors)
    requires Consistent(t)
    ensures Consistent(MaskPIIKeepingCounters(t, text, det).0)
    ensures ReverseExtends(t, MaskPIIKeepingCounters(t, text, det).0)
  {
    if !IsBlank(text) {
      HitStreamIsValid(det, text);
      MaskAllKeepsConsistent(t, text, HitStream(det, text));
    }
  }

  /**
   As written, masking keeps the table consistent only when restarting the
   counters does not already break it, which is when no token of the grammar
   is in use yet.
   */
  lemma MaskPIIKeepsConsistent(t: Table, text: string, det: Detectors)
    requires Consistent(t.(counters := map[]))
    ensures Consistent(MaskPII(t, text, det).0)
    ensures ReverseExtends(t, MaskPII(t, text, det).0)
  {
    if !IsBlank(text) {
      HitStreamIsValid(det, text);
      MaskAllKeepsConsistent(t.(counters := map[]), text, HitStream(det, text));
    }
  }

  /** The fold over valid hits records only tokens. */
  lemma {:induction false} MaskAllKeepsTokenValues(t: Table, masked: string, hits: seq<Hit>)
    requires TokenValues(t) && ValidHits(hits)
    ensures TokenValues(MaskAll(t, masked, hits).0)
    decreases |hits|
  {
    if |hits| > 0 {
      var step := MaskHit(t, masked, hits[0]);
      GetOrAssignKeepsTokenValues(t, hits[0].typ, hits[0].value);
      ValidHitsTail(hits);
      MaskAllKeepsTokenValues(step.0, step.1, hits[1..]);
      MaskAllStep(t, masked, hits);
    }
  }

  /**
   Masking, as written or with the counters kept, records only tokens, even
   on a table that is not consistent; so the instruction prompt of any table
   built by masking lists its tokens.
   */
  lemma MaskPIIKeepsTokenValues(t: Table, text: string, det: Detectors)
    requires TokenValues(t)
    ensures TokenValues(MaskPII(t, text, det).0)
    ensures TokenValues(MaskPIIKeepingCounters(t, text, det).0)
  {
    if !IsBlank(text) {
      HitStreamIsValid(det, text);
      MaskAllKeepsTokenValues(t.(counters := map[]), text, HitStream(det, text));
      MaskAllKeepsTokenValues(t, text, HitStream(det, text));
    }
  }

  /** A table that maps nothing, whatever its counters, becomes consistent once the counters restart. */
  lemma EmptyMapsAfterReset(t: Table)
    requires t.forward == [] && t.reverse == []
    ensures Consistent(t.(counters := map[]))
  {
  }
}
