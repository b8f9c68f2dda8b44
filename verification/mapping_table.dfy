/**
 The mapping table: the forward map (original value to token), the reverse
 map (token to original value) and the per-type counters, with the
 operations that change it (`updateMappings`, `resetCounters`,
 `setMappings`, and the reuse-or-mint step of `maskPII`) and those that read
 it (`getReplacements`, `getReverseMappings`, `getInstructionPrompt`).
 The source keeps these as module-level variables; here the table is a
 value threaded through the operations.
 */
module MappingTable {
  import opened Wrappers
  import opened Strings
  import JsMap
  import opened Placeholder

  datatype Table = Table(forward: JsMap.StringMap, reverse: JsMap.StringMap, counters: map<string, nat>)

  /** The table at module load: empty maps, no counters. */
  const Empty: Table := Table([], [], map[])

  /** The forward mapping, original value to token. */
  function Forward(t: Table): map<string, string> {
    JsMap.ToMap(t.forward)
  }

  /** The reverse mapping, token to original value. */
  function Reverse(t: Table): map<string, string> {
    JsMap.ToMap(t.reverse)
  }

  /** `resetCounters()`: clears the counters and both maps. */
  function ResetCounters(t: Table): (r: Table)
    ensures r.counters == map[] && Forward(r) == map[] && Reverse(r) == map[]
    ensures Consistent(r)
  {
    Empty
  }

  /** `updateMappings(original, placeholder)`: records the pair in both directions and touches nothing else. */
  function UpdateMappings(t: Table, original: string, placeholder: string): (r: Table)
    ensures Forward(r) == Forward(t)[original := placeholder]
    ensures Reverse(r) == Reverse(t)[placeholder := original]
    ensures r.counters == t.counters
    ensures JsMap.Keys(r.forward) ==
              if original in Forward(t) then JsMap.Keys(t.forward) else JsMap.Keys(t.forward) + [original]
    ensures JsMap.DistinctKeys(t.forward) ==> JsMap.DistinctKeys(r.forward)
    ensures JsMap.DistinctKeys(t.reverse) ==> JsMap.DistinctKeys(r.reverse)
  {
    JsMap.SetToMap(t.forward, original, placeholder);
    JsMap.SetToMap(t.reverse, placeholder, original);
    JsMap.SetKeys(t.forward, original, placeholder);
    JsMap.SetKeepsDistinct(t.forward, original, placeholder);
    JsMap.SetKeepsDistinct(t.reverse, placeholder, original);
    t.(forward := JsMap.Set(t.forward, original, placeholder),
       reverse := JsMap.Set(t.reverse, placeholder, original))
  }

  /**
   The reuse-or-mint step `maskPII` performs for every detector hit: a value
   already in the forward map keeps its token, whatever type detected it now,
   and no counter moves; a new value gets the next token of `typ`, recorded
   both ways.
   */
  function GetOrAssign(t: Table, typ: string, original: string): (r: Table)
    ensures original in Forward(r)
    ensures original in Forward(t) ==> r == t
    ensures Forward(r).Keys == Forward(t).Keys + {original}
    ensures forall o :: o in Forward(t) ==> o in Forward(r) && Forward(r)[o] == Forward(t)[o]
    ensures Reverse(t).Keys <= Reverse(r).Keys
    ensures original !in Forward(t) ==>
              && Count(r.counters, typ) == Count(t.counters, typ) + 1
              && (forall other :: other != typ ==> Count(r.counters, other) == Count(t.counters, other))
              && Forward(r)[original] == MakeToken(typ, Count(r.counters, typ))
    ensures original !in Forward(t) && ValidTypeName(typ) ==> IsToken(Forward(r)[original])
    ensures original !in Forward(t) ==> Reverse(r) == Reverse(t)[Forward(r)[original] := original]
    ensures original !in Forward(t) ==> r.counters == t.counters[typ := Count(t.counters, typ) + 1]
  {
    if original in Forward(t) then t
    else
      var minted := GetNextPlaceholder(t.counters, typ);
      var r := UpdateMappings(t.(counters := minted.0), original, minted.1);
      assert Forward(r) == Forward(t)[original := minted.1];
      assert Reverse(r) == Reverse(t)[minted.1 := original];
      r
  }

  // ---------------------------------------------------------------------
  // The consistency invariant

  /** The forward and reverse mappings are exact inverses of each other. */
  ghost predicate Inverse(f: map<string, string>, r: map<string, string>) {
    && (forall o :: o in f ==> f[o] in r && r[f[o]] == o)
    && (forall p :: p in r ==> r[p] in f && f[r[p]] == p)
  }

  /** No token the counters can still mint is already in the reverse map. */
  ghost predicate CountersAhead(counters: map<string, nat>, r: map<string, string>) {
    forall typ: string, n: nat :: ValidTypeName(typ) && n > Count(counters, typ) ==> MakeToken(typ, n) !in r
  }

  /**
   The table is consistent: both maps are proper JavaScript maps, forward and
   reverse are inverses, every reverse key is a token of the grammar, and
   the counters are ahead of every token in use.
   */
  ghost predicate Consistent(t: Table) {
    && JsMap.DistinctKeys(t.forward)
    && JsMap.DistinctKeys(t.reverse)
    && Inverse(Forward(t), Reverse(t))
    && (forall p :: p in Reverse(t) ==> IsToken(p))
    && CountersAhead(t.counters, Reverse(t))
  }

  /** In a consistent table distinct originals have distinct tokens. */
  lemma ConsistentIsInjective(t: Table, o1: string, o2: string)
    requires Consistent(t) && o1 in Forward(t) && o2 in Forward(t) && o1 != o2
    ensures Forward(t)[o1] != Forward(t)[o2]
  {
  }

  /** The reuse-or-mint step keeps a consistent table consistent. */
  lemma GetOrAssignKeepsConsistent(t: Table, typ: string, original: string)
    requires Consistent(t) && ValidTypeName(typ)
    ensures Consistent(GetOrAssign(t, typ, original))
  {
    if original !in Forward(t) {
      var r := GetOrAssign(t, typ, original);
      MintKeepsDistinct(t, typ, original);
      MintKeepsInverse(t, typ, original);
      MintKeepsAhead(t, typ, original);
      assert forall p :: p in Reverse(r) ==> IsToken(p);
    }
  }

  /** The token minted for a new value is the next one of its type, and no entry holds it yet. */
  lemma MintIsUnused(t: Table, typ: string, original: string)
    requires Consistent(t) && ValidTypeName(typ) && original !in Forward(t)
    ensures var r := GetOrAssign(t, typ, original);
      Forward(r)[original] == MakeToken(typ, Count(r.counters, typ)) && Forward(r)[original] !in Reverse(t)
  {
  }

  /** Minting keeps both maps free of repeated keys. */
  lemma MintKeepsDistinct(t: Table, typ: string, original: string)
    requires Consistent(t) && original !in Forward(t)
    ensures JsMap.DistinctKeys(GetOrAssign(t, typ, original).forward)
    ensures JsMap.DistinctKeys(GetOrAssign(t, typ, original).reverse)
  {
    var minted := GetNextPlaceholder(t.counters, typ);
    assert GetOrAssign(t, typ, original) == UpdateMappings(t.(counters := minted.0), original, minted.1);
  }

  /** Minting keeps the forward and reverse maps inverse to each other. */
  lemma MintKeepsInverse(t: Table, typ: string, original: string)
    requires Consistent(t) && ValidTypeName(typ) && original !in Forward(t)
    ensures var r := GetOrAssign(t, typ, original);
      Inverse(Forward(r), Reverse(r))
  {
    MintForwardInverse(t, typ, original);
    MintReverseInverse(t, typ, original);
  }

  /** After minting, every forward entry is undone by the reverse map. */
  lemma MintForwardInverse(t: Table, typ: string, original: string)
    requires Consistent(t) && ValidTypeName(typ) && original !in Forward(t)
    ensures var r := GetOrAssign(t, typ, original);
      forall o :: o in Forward(r) ==> Forward(r)[o] in Reverse(r) && Reverse(r)[Forward(r)[o]] == o
  {
    MintIsUnused(t, typ, original);
  }

  /** After minting, every reverse entry is undone by the forward map. */
  lemma MintReverseInverse(t: Table, typ: string, original: string)
    requires Consistent(t) && ValidTypeName(typ) && original !in Forward(t)
    ensures var r := GetOrAssign(t, typ, original);
      forall p :: p in Reverse(r) ==> Reverse(r)[p] in Forward(r) && Forward(r)[Reverse(r)[p]] == p
  {
    MintIsUnused(t, typ, original);
  }

  /** Minting keeps the counters ahead of every token in use. */
  lemma MintKeepsAhead(t: Table, typ: string, original: string)
    requires Consistent(t) && ValidTypeName(typ) && original !in Forward(t)
    ensures var r := GetOrAssign(t, typ, original);
      CountersAhead(r.counters, Reverse(r))
  {
    var r := GetOrAssign(t, typ, original);
    AheadAfterMint(t.counters, Reverse(t), typ, Count(r.counters, typ), original);
  }

  /** Raising a counter by one and recording the token it mints keeps the counters ahead. */
  lemma AheadAfterMint(counters: map<string, nat>, rev: map<string, string>, typ: string, n: nat, original: string)
    requires CountersAhead(counters, rev) && ValidTypeName(typ) && n == Count(counters, typ) + 1
    ensures CountersAhead(counters[typ := n], rev[MakeToken(typ, n) := original])
  {
    forall typ': string, n': nat | ValidTypeName(typ') && n' > Count(counters[typ := n], typ')
      ensures MakeToken(typ', n') !in rev[MakeToken(typ, n) := original]
    {
      if MakeToken(typ', n') == MakeToken(typ, n) {
        MakeTokenInjective(typ', n', typ, n);
      }
    }
  }

  /** On a consistent table the reuse-or-mint step never overwrites a reverse entry: a minted token is new. */
  lemma GetOrAssignExtendsReverse(t: Table, typ: string, original: string)
    requires Consistent(t) && ValidTypeName(typ)
    ensures forall p :: p in Reverse(t) ==>
              p in Reverse(GetOrAssign(t, typ, original)) && Reverse(GetOrAssign(t, typ, original))[p] == Reverse(t)[p]
  {
    if original !in Forward(t) {
      var minted := GetNextPlaceholder(t.counters, typ);
      assert minted.1 == MakeToken(typ, Count(minted.0, typ));
      assert minted.1 !in Reverse(t);
      assert Reverse(GetOrAssign(t, typ, original)) == Reverse(t)[minted.1 := original];
    }
  }

  // ---------------------------------------------------------------------
  // Reading and loading the table

  /** `getReplacements()`: the forward map's entries, in insertion order. */
  function GetReplacements(t: Table): JsMap.StringMap {
    t.forward
  }

  /** `getReverseMappings()`: the reverse map's entries, in insertion order. */
  function GetReverseMappings(t: Table): JsMap.StringMap {
    t.reverse
  }

  /** The argument of `setMappings`: either side may be missing. */
  datatype Stored = Stored(forward: Option<seq<(string, string)>>, reverse: Option<seq<(string, string)>>)

  /**
   `setMappings(stored)`: each side that is present replaces the
   corresponding map wholesale; a missing side and the counters stay.
   */
  function SetMappings(t: Table, stored: Stored): (r: Table)
    ensures r.counters == t.counters
    ensures stored.forward.None? ==> r.forward == t.forward
    ensures stored.reverse.None? ==> r.reverse == t.reverse
    ensures stored.forward.Some? ==>
              JsMap.DistinctKeys(r.forward) && forall o :: o in Forward(r) <==> o in JsMap.Keys(stored.forward.value)
    ensures stored.reverse.Some? ==>
              JsMap.DistinctKeys(r.reverse) && forall p :: p in Reverse(r) <==> p in JsMap.Keys(stored.reverse.value)
    ensures stored.forward.Some? && JsMap.DistinctKeys(stored.forward.value) ==> Forward(r) == JsMap.ToMap(stored.forward.value)
    ensures stored.reverse.Some? && JsMap.DistinctKeys(stored.reverse.value) ==> Reverse(r) == JsMap.ToMap(stored.reverse.value)
  {
    var forward := if stored.forward.Some? then JsMap.FromEntries(stored.forward.value) else t.forward;
    var reverse := if stored.reverse.Some? then JsMap.FromEntries(stored.reverse.value) else t.reverse;
    t.(forward := forward, reverse := reverse)
  }

  /**
   Loading what `getReplacements` and `getReverseMappings` returned into any
   table reproduces both mappings and keeps that table's counters.
   */
  lemma SnapshotRoundTrip(t: Table, into: Table)
    requires JsMap.DistinctKeys(t.forward) && JsMap.DistinctKeys(t.reverse)
    ensures var r := SetMappings(into, Stored(Some(GetReplacements(t)), Some(GetReverseMappings(t))));
      Forward(r) == Forward(t) && Reverse(r) == Reverse(t) && r.counters == into.counters
  {
    JsMap.FromEntriesOfDistinct(t.forward);
    JsMap.FromEntriesOfDistinct(t.reverse);
  }

  // ---------------------------------------------------------------------
  // The instruction prompt

  const PromptHead: string := "\n\nIMPORTANT: This prompt contains masked PII placeholders ("
  const PromptTail: string := "). Please maintain these exact placeholders in your response and do not attempt to replace or modify them. Treat them as specific identifiers that must remain unchanged."

  /** `getInstructionPrompt()`: empty without forward entries, else the tokens joined by ", " inside the fixed text. */
  function GetInstructionPrompt(t: Table): (r: string)
    ensures r == "" <==> |t.forward| == 0
  {
    if |t.forward| == 0 then "" else PromptHead + Join(JsMap.Values(t.forward), ", ") + PromptTail
  }

  /** Reads the placeholder list back out of an instruction prompt. */
  function ListedPlaceholders(prompt: string): Option<seq<string>> {
    if |prompt| >= |PromptHead| + |PromptTail|
       && prompt[..|PromptHead|] == PromptHead
       && prompt[|prompt| - |PromptTail|..] == PromptTail
    then Some(Unjoin(prompt[|PromptHead|..|prompt| - |PromptTail|]))
    else None
  }

  /** A token holds no comma. */
  lemma TokenHasNoComma(p: string)
    requires IsToken(p)
    ensures NoComma(p)
  {
    TokenShape(p);
  }

  /**
   The prompt of a non-empty table whose values hold no comma lists exactly
   the forward map's values, in insertion order.
   */
  lemma InstructionPromptListsTokens(t: Table)
    requires |t.forward| > 0 && forall v :: v in JsMap.Values(t.forward) ==> NoComma(v)
    ensures ListedPlaceholders(GetInstructionPrompt(t)) == Some(JsMap.Values(t.forward))
  {
    var vs := JsMap.Values(t.forward);
    assert forall i :: 0 <= i < |vs| ==> vs[i] in vs;
    UnjoinJoin(vs);
    ListedOfWrapped(Join(vs, ", "));
  }

  /** Every value the forward map lists is a token, as every value masking records is. */
  predicate TokenValues(t: Table) {
    forall v :: v in JsMap.Values(t.forward) ==> IsToken(v)
  }

  /** The prompt of a non-empty table whose values are tokens lists exactly those tokens. */
  lemma TokenPromptListsTokens(t: Table)
    requires |t.forward| > 0 && TokenValues(t)
    ensures ListedPlaceholders(GetInstructionPrompt(t)) == Some(JsMap.Values(t.forward))
  {
    forall v | v in JsMap.Values(t.forward)
      ensures NoComma(v)
    {
      TokenHasNoComma(v);
    }
    InstructionPromptListsTokens(t);
  }

  /** The reuse-or-mint step records only tokens, on any table. */
  lemma GetOrAssignKeepsTokenValues(t: Table, typ: string, original: string)
    requires TokenValues(t) && ValidTypeName(typ)
    ensures TokenValues(GetOrAssign(t, typ, original))
  {
    if original !in Forward(t) {
      var minted := GetNextPlaceholder(t.counters, typ);
      assert GetOrAssign(t, typ, original).forward == JsMap.Set(t.forward, original, minted.1);
      JsMap.SetValues(t.forward, original, minted.1);
    }
  }

  /** No token of a consistent table's forward map holds a comma. */
  lemma TokensHaveNoComma(t: Table)
    requires Consistent(t)
    ensures forall i :: 0 <= i < |JsMap.Values(t.forward)| ==> NoComma(JsMap.Values(t.forward)[i])
  {
    var vs := JsMap.Values(t.forward);
    forall i | 0 <= i < |vs|
      ensures NoComma(vs[i])
    {
      JsMap.ToMapAt(t.forward, i);
      TokenHasNoComma(vs[i]);
    }
  }

  /** The fixed text around a list is recognised and the list is split back out. */
  lemma ListedOfWrapped(body: string)
    ensures ListedPlaceholders(PromptHead + body + PromptTail) == Some(Unjoin(body))
  {
    var r := PromptHead + body + PromptTail;
    assert r[..|PromptHead|] == PromptHead;
    assert r[|r| - |PromptTail|..] == PromptTail;
    assert r[|PromptHead|..|r| - |PromptTail|] == body;
  }
}
