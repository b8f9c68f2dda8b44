# PII filter: masking and restoration engine

This project models the engine of a browser extension's PII filter in Dafny:
`maskPII`, `containsPII`, `restoreFromPlaceholders`, and the mapping table behind them.

**Masking.** `maskPII` replaces personal data in a prompt by placeholder tokens of the shape
`[PII_<TYPE>_<n>]`. It remembers which original value each token stands for.

**Restoration.** `restoreFromPlaceholders` puts the originals back into a reply.

**Mapping table.** The table holds three things:
- a forward map (original to token);
- a reverse map (token to original);
- one counter per type.

It is read and loaded through `getReplacements`, `getReverseMappings`, `setMappings` and
`getInstructionPrompt`.

The source keeps the table in module-level variables. Here it is a value (`MappingTable.Table`)
threaded through pure functions. A JavaScript `Map` becomes an association list in insertion
order (`JsMap`), because `getInstructionPrompt` lists the tokens in that order.

**Detectors.** The two detectors are oracles, passed in as a `Detectors.Detectors` value:
- `recognize` stands for the compromise NLP library. For each entity category it gives the texts
  `doc.match('#Tag+')` returns, or None when the library throws.
- `patterns` stands for the `BASIC_PATTERNS` regular expressions. For each key it gives the
  whole matches over the original text of a search that starts at position 0, that is, with
  the pattern's `lastIndex` at 0.

**Shared pattern state.** The patterns are global (`/g`) objects shared by both functions, and
their `lastIndex` carries over from call to call:
- `pattern.test` in `containsPII` (src/pii-filter.js:258, 266) searches from `lastIndex`. It
  leaves `lastIndex` at the end of a match, or at 0 when it finds nothing.
- `text.matchAll(pattern)` in `maskPII` (src/pii-filter.js:214) searches with a copy that starts
  at the pattern's `lastIndex`, and leaves the pattern alone.

`LastIndex` models this state with a positional oracle `exec(key, text, from)`. It proves two
things:
- With every pattern at 0, the stateful functions are the `Detectors` model above
  (`Fresh`).
- As written, the state breaks the agreement between `containsPII` and `maskPII`, in both
  directions (see "Findings").

`Detectors.HitStream` puts the hits in the order `maskPII` processes them:
- PERSON, ORG, LOCATION, DATE, MONEY;
- then the pattern keys in declaration order.

**What is proved.**
- Every minted token is in the grammar `\[PII_[A-Z_]+_\d+\]` that restoration scans for.
- No token occurs inside another token.
- The reuse-or-mint step keeps forward and reverse exact inverses, and keeps the counters ahead
  of every token in use.
- Restoration equals a one-pass substitution, whatever order the matches are applied in, as long
  as the values put back cannot form a placeholder.
- Masking followed by restoration gives the text back. This needs a message without `[`
  whose detected values are safe (see "Left out"), and either the counters kept or, as written,
  a table with empty maps. The counter reset breaks it for a second message (see "Findings").
- With the counters kept, under the same conditions, every earlier message of a conversation
  keeps restoring.
- Masking records only tokens, so the instruction prompt of any table built by masking lists
  exactly its tokens.

**Counters.** A token is meant never to be reused within a session, and forward and reverse are
meant to stay exact inverses after every operation. The code instead
resets the counters at every `maskPII` call while keeping both maps (src/pii-filter.js:136). The
model follows the code:
- `Masking.MaskPII` performs the reset.
- `Masking.MaskPIIKeepingCounters` is the corrected fold, without the reset.
- The consequence is recorded under "Findings".

Modules, one per file:
- `wrappers.dfy`: `Option`.
- `strings.dfy`: `indexOf`, `replace` with a string pattern, `replace` with a global regular
  expression and `$`-patterns, decimal rendering, join and split, `toUpperCase`, `trim`.
- `jsmap.dfy`: JavaScript `Map`.
- `placeholder.dfy`: tokens and `getNextPlaceholder`.
- `mapping_table.dfy`: the table and its operations.
- `detectors.dfy`: the oracles, the hit stream and `containsPII`.
- `scan.dfy`: how the placeholder pattern reads a text.
- `restoration.dfy`: `escapeRegExp`, the sort and `restoreFromPlaceholders`.
- `masking.dfy`: `maskPII`.
- `roundtrip.dfy`: the round trips.
- `counter_reuse.dfy`: the counter reset, as written and corrected.
- `last_index.dfy`: the patterns' shared `lastIndex`, as written and corrected.

## Model

Some operations have no row of their own, because the lemmas listed for them state their
contracts:
- `Masking.MaskPIIKeepingCounters`: `maskPII` without the counter reset.
- `Detectors.ContainsPII`: `containsPII` over the fresh detectors.
- `MappingTable.GetReplacements` and `MappingTable.GetReverseMappings`: the two snapshots.

| member | source | states |
|---|---|---|
| Placeholder.GetNextPlaceholder | src/pii-filter.js:43-46 | Only the counter of the given type moves, by one and from 0 when absent; every other counter stays. The token is rendered with the new count and is in the restoration grammar when the type name is. |
| Placeholder.MakeTokenIsToken | src/pii-filter.js:45 | Every token `[PII_${type}_${n}]` of a type name in `[A-Z_]+` is matched in full by the restoration pattern of line 86. |
| Placeholder.MakeTokenInjective | src/pii-filter.js:45 | Two tokens are equal only when type and count are equal, so distinct counts never collide. |
| Placeholder.NoTokenInsideAnother | src/pii-filter.js:96-97 | A token found inside another token is that token at offset 0. Replacing a shorter placeholder can therefore never break a longer one, which is what the longest-first sort guards against. |
| MappingTable.ResetCounters | src/pii-filter.js:49-53 | Afterwards the counters, the forward map and the reverse map are all empty, and the table is consistent. |
| MappingTable.UpdateMappings | src/pii-filter.js:69-72 | Forward gains original to placeholder and reverse gains placeholder to original; all other entries and the counters stay. A new key goes last in iteration order, an existing key keeps its place, and keys stay distinct. |
| MappingTable.GetOrAssign | src/pii-filter.js:147-153 | A value already mapped leaves the table unchanged, whatever type detected it now. A new value gets the next token of its type, recorded both ways. Only that type's counter moves, and the forward keys grow by the value alone. |
| MappingTable.GetOrAssignKeepsConsistent | src/pii-filter.js:147-153 | Starting from a consistent table, the step keeps it consistent: both maps keep distinct keys, forward and reverse stay exact inverses, reverse holds only tokens, and no token the counters can still mint is in use. |
| MappingTable.GetOrAssignExtendsReverse | src/pii-filter.js:147-153 | On a consistent table a minted token is new, so no reverse entry is overwritten. |
| MappingTable.ConsistentIsInjective | src/pii-filter.js:69-72 | In a consistent table, distinct originals have distinct tokens. |
| MappingTable.SetMappings | src/pii-filter.js:295-304 | A side that is present replaces that map wholesale. The new map has exactly the stored keys, each with its stored value, for the distinct keys `Object.entries` yields. A missing side stays, and the counters always stay. |
| MappingTable.SnapshotRoundTrip | src/pii-filter.js:290-304 | Loading what `getReplacements` and `getReverseMappings` returned into any table reproduces both mappings and keeps that table's counters. |
| MappingTable.GetInstructionPrompt | src/pii-filter.js:56-61 | The prompt is empty exactly when the forward map is. |
| MappingTable.InstructionPromptListsTokens | src/pii-filter.js:56-61 | For any non-empty table whose values hold no comma, the list read back out of the prompt is exactly the forward map's values, in insertion order. |
| MappingTable.TokenPromptListsTokens | src/pii-filter.js:56-61 | The same holds for any non-empty table whose values are all tokens. |
| MappingTable.GetOrAssignKeepsTokenValues | src/pii-filter.js:147-153 | On any table, consistent or not, the reuse-or-mint step records only tokens of valid types. |
| JsMap.SetToMap | src/pii-filter.js:70-71 | After `Map.set` the key maps to the new value and every other key keeps its value. |
| JsMap.SetKeys | src/pii-filter.js:70-71 | `Map.set` keeps the key order and appends a new key at the end. |
| JsMap.Get | src/pii-filter.js:101-102 | `has`/`get`: the result is present exactly when the key is mapped, and it is the mapped value. |
| JsMap.FromEntries | src/pii-filter.js:297-300 | `new Map(entries)` has distinct keys and exactly the keys listed. For entries with distinct keys, each key maps to its listed value. |
| JsMap.FromEntriesOfDistinct | src/pii-filter.js:297-300 | `new Map(entries)` of a map's own entries is that map, order included. |
| JsMap.ValuesAreMapValues | src/pii-filter.js:59 | The values a map lists are exactly the values of the mapping it denotes. |
| Detectors.EntityHitsEmpty | src/pii-filter.js:145-207 | The recognizer contributes no hit exactly when no category has a match. |
| Detectors.PatternHitsEmpty | src/pii-filter.js:213-225 | The patterns contribute no hit exactly when no pattern matches. |
| Detectors.PatternTypes | src/pii-filter.js:213-219 | Each upper-cased pattern key is one of the known placeholder types. |
| Detectors.KnownTypesAreValid | src/pii-filter.js:150-220 | Every type `maskPII` mints under is a type name the restoration grammar accepts. |
| Detectors.HitTypesAreKnown | src/pii-filter.js:145-224 | Every hit `maskPII` processes is typed after an entity category or an upper-cased pattern key. |
| Detectors.ContainsPIIIffHits | src/pii-filter.js:239-273 | `containsPII` says yes exactly when the text is not blank and `maskPII` has at least one hit to process. This holds also when the recognizer throws and only the patterns are consulted. |
| Strings.ReplaceFirst | src/pii-filter.js:153 | `replace` with a string pattern leaves a text without an occurrence unchanged. |
| Strings.ReplaceFirstAt | src/pii-filter.js:153 | `replace` with a string pattern rewrites exactly the first occurrence, by the expanded replacement. |
| Strings.ExpandLiteral | src/pii-filter.js:106 | A replacement in which no `$` starts a substitution pattern is inserted as written. |
| Strings.RegexReplaceLiteral | src/pii-filter.js:105-106 | Replacing through a global regular expression that denotes a literal, with a literal replacement, is the left-to-right non-overlapping replace-all. |
| Strings.NatToStringRoundTrip | src/pii-filter.js:45 | The decimal rendering of the counter reads back to the counter. |
| Strings.UnjoinJoin | src/pii-filter.js:59 | Strings without commas joined by ", " split back into the same list. |
| Scanning.Scan | src/pii-filter.js:86-87 | The scan cuts a text into the placeholders the global match finds and the characters between them. Spelled out again they give the text, and every placeholder is in the grammar. |
| Scanning.TokenPrefixUnique | src/pii-filter.js:86 | A token at the start of a text is the match the pattern finds there. |
| Scanning.FoundIsToken | src/pii-filter.js:87 | Every match `text.match` returns is a non-empty token. |
| Restoration.EscapeRegExp | src/pii-filter.js:124-126 | The escaped string, read as a regular-expression source, denotes exactly the input string. |
| Restoration.SortByLengthDesc | src/pii-filter.js:97 | The sort is a permutation of the matches, longest first. |
| Restoration.ApplyMatch | src/pii-filter.js:100-110 | A placeholder the reverse map does not know leaves the text unchanged. A known one is replaced at every occurrence by its original value. The global pattern built from `escapeRegExp(placeholder)` matches exactly the placeholder's own text. |
| Restoration.RestoreFromPlaceholders | src/pii-filter.js:75-121 | An empty text, an empty reverse map, a text without placeholder matches, or one whose matches are all unknown, comes back unchanged. |
| Restoration.ApplyMatchesIsSubstitution | src/pii-filter.js:96-110 | Applying the global replaces in any order that covers all matches gives the one-pass substitution. This needs inert values, and either all values safe or every `[` of the text opening a placeholder. |
| Restoration.RestoreIsSubstitution | src/pii-filter.js:75-121 | Under the same conditions, `restoreFromPlaceholders` computes the one-pass substitution. |
| Masking.MaskHit | src/pii-filter.js:147-154 | After one hit its value is mapped, and a text without an occurrence of the value is unchanged. |
| Masking.MaskHitReplacesFirst | src/pii-filter.js:153 | A hit replaces the first occurrence of its value by its token, inserted as written. |
| Masking.MaskAll | src/pii-filter.js:145-224 | The fold adds exactly the hit values to the forward keys, keeps every earlier forward entry, and drops no reverse key. With no hits, nothing changes. |
| Masking.MaskPII | src/pii-filter.js:129-236 | `maskPII` with every pattern's `lastIndex` at 0. A blank text comes back as is and the table is untouched. Otherwise the forward keys grow by exactly the values hit, and earlier entries keep their tokens. No reverse key is dropped, on any table. |
| Masking.MaskPIIWithoutPII | src/pii-filter.js:129-273 | A text in which `containsPII` finds nothing comes back from `maskPII` unchanged. |
| Masking.MaskAllKeepsConsistent | src/pii-filter.js:145-224 | The fold over valid hits keeps a consistent table consistent and only adds reverse entries. |
| Masking.MaskPIIKeepsConsistent | src/pii-filter.js:136 | As written, masking keeps the table consistent when restarting the counters does not already break it. |
| Masking.MaskPIIKeepingCountersKeepsConsistent | src/pii-filter.js:129-236 | With the counters kept, masking keeps every consistent table consistent and only adds reverse entries. |
| Masking.MaskPIIKeepsTokenValues | src/pii-filter.js:129-236 | Masking, as written and with the counters kept, records only tokens, also on a table that is not consistent. So the prompt of every table built from the empty one by masking lists its tokens. |
| Masking.EmptyMapsAfterReset | src/pii-filter.js:136 | A table with empty maps is consistent once the counters restart. |
| RoundTrip.MaskPIIThenRestore | src/pii-filter.js:129-236 | As written, a message masked on a table with empty maps restores to itself. This needs a message without `[` whose detected values are safe. |
| RoundTrip.MaskThenRestore | src/pii-filter.js:129-236 | With the counters kept, a message masked on any consistent table restores to itself, and the table stays consistent. |
| RoundTrip.LaterMaskingKeepsRestorable | src/pii-filter.js:129-236 | With the counters kept, masking a later message leaves every earlier masked message restorable. |
| RoundTrip.ConversationRestores | src/pii-filter.js:129-236 | With the counters kept, every message of a conversation restores under the final table, which stays consistent. |
| CounterReuse.ResetMasksAsFirst | src/pii-filter.js:136 | As written, a new value found as a whole message becomes the first token of its type, whatever the table held before. |
| CounterReuse.ResetOverwritesFirst | src/pii-filter.js:136 | As written, the first token of the type then restores to that value, whatever it restored to before. |
| CounterReuse.CounterResetReusesToken | src/pii-filter.js:136 | As written, two different names in two messages both become `[PII_<TYPE>_1]`. The forward map sends both to it, and the first message then restores to the second name. |
| CounterReuse.KeepMasksAsNext | src/pii-filter.js:43-46 | With the counters kept, a new whole-message value becomes the next token of its type. |
| CounterReuse.KeptCountersMintFreshToken | src/pii-filter.js:136 | Corrected: the second name gets `[PII_<TYPE>_2]`, and both messages restore to what they were. |
| CounterReuse.NameOnlyHits | src/pii-filter.js:145-155 | A recognizer that reads a whole message as one person's name, with no pattern matching, meets the premise of the two lemmas above. |
| LastIndex.MatchAllFrom | src/pii-filter.js:214 | `matchAll` started at `from` finds something exactly when the pattern has a match in the text at or after `from`. |
| LastIndex.Test | src/pii-filter.js:258 | `test` succeeds exactly when the `matchAll` started at the pattern's `lastIndex` would find something. A success leaves that `lastIndex` at the end of the match, a failure puts it back to 0, and no other pattern moves. |
| LastIndex.TestPatterns | src/pii-filter.js:257-269 | Over distinct patterns, the loop answers yes exactly when one of them matches from its own `lastIndex`. A yes comes from a pattern where the loop stopped. The patterns tested before it are back at 0, and the patterns after it are where they were. A no leaves every pattern tested at 0. Patterns outside the loop never move. |
| LastIndex.ContainsPIIAt | src/pii-filter.js:239-273 | A blank text gives no and moves nothing. A category the recognizer finds gives yes and moves nothing. Otherwise, also when the recognizer throws, the answer is yes exactly when some pattern matches from its own `lastIndex`. A no for a non-blank text leaves every pattern at 0. Only `BASIC_PATTERNS` state moves. |
| LastIndex.MaskPIIAt | src/pii-filter.js:129-236 | `maskPII` from any pattern state: a blank text comes back as is, otherwise the forward keys grow by exactly the values of the hits found from that state. |
| LastIndex.ContainsPIIAtRest | src/pii-filter.js:239-273 | With every pattern at 0, `containsPII` answers as `Detectors.ContainsPII` over the fresh patterns. |
| LastIndex.MaskPIIAtRest | src/pii-filter.js:129-236 | With every pattern at 0, `maskPII` is `Masking.MaskPII` over the fresh patterns. |
| LastIndex.CheckedEmailLeaks | src/pii-filter.js:213-269 | As written, for a message that is one e-mail address, `containsPII` says yes. The `maskPII` that follows then leaves the address in the text and out of the table, where `maskPII` from rest masks it as `[PII_EMAIL_1]`. |
| LastIndex.RecheckedEmailMissed | src/pii-filter.js:213-269 | As written, a second `containsPII` of that message says no, yet `maskPII` from the state it leaves masks the address. |
| LastIndex.EmailExample | src/pii-filter.js:23 | `a@b.com` is such a message: checked and then masked, it goes out unmasked. |
| LastIndex.CheckingFirstChangesNothing | src/pii-filter.js:213-269 | Corrected, with every pattern set to 0 before each `test` and `matchAll`: checking first does not change the masked text or the forward map, and the check says yes exactly when masking has a hit. |

## Left out

- Logging (src/pii-filter.js:80-81, 90, 94, 103, 108, 112-118, 227-233, 302-303): it only writes to the console. That includes the check for placeholders left after restoration.
- The compromise library and its `nlp.extend` vocabulary (src/pii-filter.js:1, 142, 275-287): foreign code. `Detectors.recognize` stands in for it. `doc.match('#Tag')`, used by `containsPII`, and `doc.match('#Tag+')`, used by `maskPII`, are non-empty under the same condition, so one oracle serves both.
- A recognizer that throws part-way through `maskPII`'s five categories: hits processed before the throw stay masked in the source. The model knows only "no recognizer hits" (None), because the oracle either answers or throws.
- The regular expressions of `BASIC_PATTERNS` (src/pii-filter.js:22-33): their `\b`, lookahead and backtracking are left to the `patterns` oracle.
- Detectors.ContainsPIIIffHits: holds for detectors whose patterns search from position 0. That is the source's behaviour only while every pattern's `lastIndex` is 0. The shared state is modelled in `LastIndex`, and `LastIndex.RecheckedEmailMissed` shows the two functions disagreeing as written.
- Masking.MaskPIIWithoutPII: holds for the same fresh detectors only. As written, `containsPII` can say no while `maskPII` masks a value (`LastIndex.RecheckedEmailMissed`).
- The regular-expression oracle `exec`: an answer that does not lie in the text at or after the starting position is read as no match.
- `!text` for `null` or `undefined` (src/pii-filter.js:76, 131, 241): a text is always a string here.
- Strings are sequences of Unicode characters, not UTF-16 code units. Lengths (the sort key at line 97) and `trim` of unpaired surrogates are not modelled at the code-unit level.
- MappingTable.GetReplacements and MappingTable.GetReverseMappings: `Object.fromEntries` is modelled as keeping insertion order. JavaScript lists array-index keys, such as an all-digit original, first and in ascending order. This changes only the order of entries, never the mapping.
- MappingTable.SnapshotRoundTrip: states mapping equality rather than identical entry lists, because of that ordering.
- RoundTrip.MaskThenRestore: assumes a message without `[` and detected values that are safe. A safe value holds no bracket and no `$`-pattern, and has at least one character a token cannot hold.
  - A value made only of `[A-Z0-9_]` can be found inside a token inserted earlier, and `replace` would then rewrite part of that token.
  - A value holding `$&` is expanded by restoration's `replace`.
- RoundTrip.MaskPIIThenRestore: assumes the same message without `[` and safe detected values, for the same two reasons.
- RoundTrip.ConversationRestores: assumes every message of the conversation is without `[` and has safe detected values, for the same two reasons.
- Restoration.RestoreIsSubstitution: its conditions (inert values, and safe values or a text whose every `[` opens a placeholder) are needed for the sequence of global replaces to equal the one-pass substitution. Outside them, a value put back can complete a placeholder that a later replace then rewrites.
- RoundTrip.MaskConversation: its own contract states only that there is one masked text per message. What it computes is stated by RoundTrip.ConversationRestores.
- `src/content.js` and `webpack.config.js`: DOM handling and build configuration, outside the engine.

## Findings

| source | as written | input that shows it | evidently intended | confidence | as-written member | corrected member |
|---|---|---|---|---|---|---|
| src/pii-filter.js:136 | `maskPII` sets `piiCounters = {}` at every call but keeps the forward and reverse maps | Two messages, "Alice" then "Bob", each found as a whole as a person: both are masked as `[PII_PERSON_1]`. The reverse map then sends that token to "Bob", so the first masked message restores to "Bob" | Counters that persist with the maps, so each new value gets a fresh token of its type and earlier messages keep restoring | not executed | CounterReuse.CounterResetReusesToken | CounterReuse.KeptCountersMintFreshToken |
| src/pii-filter.js:213-269 | The global `BASIC_PATTERNS` are shared. `test` in `containsPII` leaves a pattern's `lastIndex` at the end of its match, and `matchAll` in `maskPII` starts from there | The message `a@b.com`, with no entity found, goes through `containsPII` and then `maskPII`, as `src/content.js:179-181` does. `containsPII` says yes and leaves the e-mail pattern at 7, so `maskPII` finds no e-mail and sends the address out unmasked. A second `containsPII` of the same message then says no | Every `test` and `matchAll` starting at 0, for example `pattern.lastIndex = 0` before each use, so that the check and the masking see the same matches | not executed | LastIndex.CheckedEmailLeaks | LastIndex.CheckingFirstChangesNothing |
