/**
 `restoreFromPlaceholders`: finds the placeholder matches of a text, sorts
 them longest first, and for each one the reverse map knows replaces every
 occurrence (a global regular expression built with `escapeRegExp`) by the
 original value. The main result: when the values put back cannot contain
 or complete a placeholder, this sequence of global replaces is the one-pass
 `Substitute`, whatever the order of the matches.
 */
module Restoration {
  import opened Wrappers
  import opened Strings
  import JsMap
  import opened Placeholder
  import opened Scanning
  import opened MappingTable

  // ---------------------------------------------------------------------
  // escapeRegExp

  /** The characters `escapeRegExp` puts a backslash before: `.*+?^${}()|[]\`. */
  predicate IsRegExpSpecial(c: char) {
    c in ".*+?^${}()|[]\\"
  }

  /**
   The literal text a regular-expression source denotes when it is made of
   ordinary characters and backslash-escaped special characters; None for
   any other source (a metacharacter, or an escape this model does not read).
   */
  function LiteralOf(src: string): Option<string>
    decreases |src|
  {
    if |src| == 0 then Some("")
    else if src[0] == '\\' then
      if |src| >= 2 && IsRegExpSpecial(src[1]) then
        match LiteralOf(src[2..])
        case None => None
        case Some(rest) => Some([src[1]] + rest)
      else None
    else if IsRegExpSpecial(src[0]) then None
    else
      match LiteralOf(src[1..])
      case None => None
      case Some(rest) => Some([src[0]] + rest)
  }

  /** `escapeRegExp(string)`: the source of a regular expression matching exactly `s`. */
  function EscapeRegExp(s: string): (r: string)
    ensures LiteralOf(r) == Some(s)
    decreases |s|
  {
    if |s| == 0 then ""
    else
      var rest := EscapeRegExp(s[1..]);
      var r := if IsRegExpSpecial(s[0]) then ['\\', s[0]] + rest else [s[0]] + rest;
      assert IsRegExpSpecial(s[0]) ==> r[2..] == rest;
      assert !IsRegExpSpecial(s[0]) ==> r[1..] == rest;
      assert [s[0]] + s[1..] == s;
      r
  }

  // ---------------------------------------------------------------------
  // matches.sort((a, b) => b.length - a.length)

  /** No element is shorter than the one after it. */
  predicate LongestFirst(ms: seq<string>) {
    forall i :: 0 <= i < |ms| - 1 ==> |ms[i]| >= |ms[i + 1]|
  }

  /** Puts `x` before the first element not longer than it, which keeps equal lengths in their order. */
  function InsertByLength(x: string, sorted: seq<string>): (r: seq<string>)
    ensures multiset(r) == multiset(sorted) + multiset{x}
    ensures r[0] == x || (|sorted| > 0 && r[0] == sorted[0])
    ensures LongestFirst(sorted) ==> LongestFirst(r)
    decreases |sorted|
  {
    if |sorted| == 0 || |sorted[0]| <= |x| then [x] + sorted
    else
      var rest := InsertByLength(x, sorted[1..]);
      assert sorted == [sorted[0]] + sorted[1..];
      [sorted[0]] + rest
  }

  /** The stable sort by decreasing length. */
  function SortByLengthDesc(ms: seq<string>): (r: seq<string>)
    ensures multiset(r) == multiset(ms)
    ensures LongestFirst(r)
    decreases |ms|
  {
    if |ms| == 0 then []
    else
      assert ms == [ms[0]] + ms[1..];
      InsertByLength(ms[0], SortByLengthDesc(ms[1..]))
  }

  // ---------------------------------------------------------------------
  // The restoration loop

  /**
   The `forEach` over the matches: a match the reverse map knows is replaced
   everywhere by its original value, through the global regular expression
   `escapeRegExp` builds for it (which matches exactly the match's text); a
   match it does not know leaves the text alone.
   */
  function ApplyMatches(text: string, ms: seq<string>, reverse: JsMap.StringMap): (r: string)
    requires forall i :: 0 <= i < |ms| ==> |ms[i]| > 0
    ensures (forall i :: 0 <= i < |ms| ==> ms[i] !in JsMap.ToMap(reverse)) ==> r == text
    decreases |ms|
  {
    if |ms| == 0 then text
    else ApplyMatches(ApplyMatch(text, ms[0], reverse), ms[1..], reverse)
  }

  /**
   One iteration of the `forEach`. The pattern is built from the escaped
   placeholder, and it matches exactly the placeholder's own text.
   */
  function ApplyMatch(text: string, m: string, reverse: JsMap.StringMap): (r: string)
    requires |m| > 0
    ensures m !in JsMap.ToMap(reverse) ==> r == text
    ensures m in JsMap.ToMap(reverse) ==> r == RegexReplaceAll(text, m, JsMap.ToMap(reverse)[m])
  {
    match JsMap.Get(reverse, m)
    case None => text
    case Some(original) => RegexReplaceAll(text, LiteralOf(EscapeRegExp(m)).value, original)
  }

  /**
   `restoreFromPlaceholders(text)`: an empty text, an empty reverse map or a
   text without placeholder matches comes back unchanged; otherwise the
   matches, longest first, are put back one after another.
   */
  function RestoreFromPlaceholders(t: Table, text: string): (r: string)
    ensures |text| == 0 || |t.reverse| == 0 || |FindAll(text)| == 0 ==> r == text
    ensures (forall m :: m in FindAll(text) ==> m !in Reverse(t)) ==> r == text
  {
    if |text| == 0 || |t.reverse| == 0 then text
    else
      var ms := FindAll(text);
      if |ms| == 0 then text
      else
        var sorted := SortByLengthDesc(ms);
        assert forall i :: 0 <= i < |sorted| ==> sorted[i] in ms by {
          forall i | 0 <= i < |sorted| ensures sorted[i] in ms {
            assert sorted[i] in multiset(sorted);
          }
        }
        ApplyMatches(text, sorted, t.reverse)
  }

  // ---------------------------------------------------------------------
  // Values that can be put back safely

  /**
   A value holding no bracket and no `$`-pattern: putting it back neither
   opens nor closes a placeholder, and it is inserted as written.
   */
  predicate Inert(v: string) {
    '[' !in v && ']' !in v && TakenLiterally(v)
  }

  /** An inert value with a character no placeholder can hold, so no placeholder can form around it. */
  predicate Safe(v: string) {
    Inert(v) && exists i | 0 <= i < |v| :: !IsTokenChar(v[i])
  }

  /**
   The segments are as the scan of a text leaves them after marking: every
   literal `[` is one at which no match starts.
   */
  predicate NoMatchAtLiteralBracket(segs: seq<Segment>)
    decreases |segs|
  {
    |segs| == 0 ||
    ((segs[0] == Lit('[') ==> TokenPrefixLen(Render(segs)).None?) && NoMatchAtLiteralBracket(segs[1..]))
  }

  /** Placeholders are tokens and values put back hold no `[`. */
  predicate WellFormedSegments(segs: seq<Segment>) {
    forall i :: 0 <= i < |segs| ==>
      (segs[i].Tok? ==> IsToken(segs[i].t)) && (segs[i].Done? ==> '[' !in segs[i].v)
  }

  lemma RenderCons(g: Segment, rest: seq<Segment>)
    ensures Render([g] + rest) == RenderSegment(g) + Render(rest)
  {
    assert ([g] + rest)[1..] == rest;
  }

  lemma MarkCons(segs: seq<Segment>, rev: map<string, string>)
    requires |segs| > 0
    ensures Mark(segs, rev) == Mark([segs[0]], rev) + Mark(segs[1..], rev)
    ensures Mark(segs, rev)[1..] == Mark(segs[1..], rev)
  {
    assert segs == [segs[0]] + segs[1..];
    MarkConcat([segs[0]], segs[1..], rev);
  }

  lemma StringAssoc(x: string, y: string, z: string)
    ensures x + (y + z) == (x + y) + z
  {
  }

  /** The scan leaves no literal `[` at which a match starts. */
  lemma {:induction false} ScanHasNoMatchAtLiteral(s: string)
    ensures NoMatchAtLiteralBracket(Scan(s))
    decreases |s|
  {
    if |s| > 0 {
      match TokenPrefixLen(s)
      case None =>
        ScanLit(s);
        assert Scan(s)[1..] == Scan(s[1..]);
        ScanHasNoMatchAtLiteral(s[1..]);
      case Some(n) =>
        ScanTok(s, n);
        assert Scan(s)[1..] == Scan(s[n..]);
        ScanHasNoMatchAtLiteral(s[n..]);
    }
  }

  /** Segments without a literal `[` trivially have no match at one. */
  lemma {:induction false} NoLitOpenHasNoMatchAtLiteral(segs: seq<Segment>)
    requires NoLitOpen(segs)
    ensures NoMatchAtLiteralBracket(segs)
    decreases |segs|
  {
    if |segs| > 0 {
      assert segs[0] != Lit('[');
      NoLitOpenHasNoMatchAtLiteral(segs[1..]);
    }
  }

  /**
   No match starting at the head of `p + v + tail`, with `v` safe, reaches
   into `v`: `v` holds no `[` or `]` and some character no placeholder holds.
   */
  lemma SafeValueBlocksMatch(p: string, v: string, tail: string, n: nat)
    requires Safe(v) && n <= |p + (v + tail)|
    ensures |p| < n ==> !IsToken((p + (v + tail))[..n])
  {
    if |p| < n {
      var s := p + (v + tail);
      var tok := s[..n];
      TokenShapeIf(tok);
      var j :| 0 <= j < |v| && !IsTokenChar(v[j]);
      var q := |p| + j;
      assert s[q] == v[j];
      if q < n {
        assert tok[q] == s[q];
      }
      assert tok[0] == s[0];
      if |p| == 0 {
        assert s[0] == v[0] && v[0] in v;
      }
      assert tok[n - 1] == s[n - 1];
      if n - 1 < |p| + |v| {
        assert s[n - 1] == v[n - 1 - |p|] && v[n - 1 - |p|] in v;
      }
    }
  }

  /** A match at the start of `p + v + tail`, with `v` safe, ends within `p`. */
  lemma MatchStopsBeforeSafeValue(p: string, v: string, tail: string, n: nat)
    requires Safe(v) && TokenPrefixLen(p + (v + tail)) == Some(n)
    ensures n <= |p|
  {
    SafeValueBlocksMatch(p, v, tail, n);
  }

  /**
   Marking placeholders with safe values creates no new match: if a match
   starts at the head of `p` followed by the marked segments, one started
   there before marking.
   */
  lemma {:induction false} MarkCreatesNoMatch(p: string, segs: seq<Segment>, rev: map<string, string>)
    requires forall t :: Tok(t) in segs && t in rev ==> Safe(rev[t])
    ensures TokenPrefixLen(p + Render(Mark(segs, rev))).Some? ==> TokenPrefixLen(p + Render(segs)).Some?
    decreases |segs|
  {
    if |segs| > 0 {
      var g, rest := segs[0], segs[1..];
      MarkCons(segs, rev);
      assert segs == [g] + rest;
      RenderCons(g, rest);
      var g' := Mark([g], rev)[0];
      assert Mark([g], rev) == [g'];
      RenderCons(g', Mark(rest, rev));
      var after := p + Render(Mark(segs, rev));
      var before := p + Render(segs);
      assert after == p + (RenderSegment(g') + Render(Mark(rest, rev)));
      assert before == p + (RenderSegment(g) + Render(rest));
      if g.Tok? && g.t in rev {
        assert Tok(g.t) in segs;
        match TokenPrefixLen(after)
        case None =>
        case Some(n) =>
          MatchStopsBeforeSafeValue(p, rev[g.t], Render(Mark(rest, rev)), n);
          assert after[..n] == p[..n] == before[..n];
          TokenPrefixUnique(before, n);
      } else {
        assert g' == g;
        forall t | Tok(t) in rest && t in rev ensures Safe(rev[t]) {
          assert Tok(t) in segs;
        }
        MarkCreatesNoMatch(p + RenderSegment(g), rest, rev);
        StringAssoc(p, RenderSegment(g), Render(rest));
        StringAssoc(p, RenderSegment(g), Render(Mark(rest, rev)));
      }
    } else {
      assert Mark(segs, rev) == segs;
    }
  }

  /** Marking with safe values keeps every literal `[` free of matches. */
  lemma {:induction false} MarkKeepsNoMatchAtLiteral(segs: seq<Segment>, rev: map<string, string>)
    requires NoMatchAtLiteralBracket(segs)
    requires forall t :: Tok(t) in segs && t in rev ==> Safe(rev[t])
    ensures NoMatchAtLiteralBracket(Mark(segs, rev))
    decreases |segs|
  {
    if |segs| > 0 {
      MarkCons(segs, rev);
      MarkCreatesNoMatch("", segs, rev);
      assert "" + Render(segs) == Render(segs);
      assert "" + Render(Mark(segs, rev)) == Render(Mark(segs, rev));
      forall t | Tok(t) in segs[1..] && t in rev ensures Safe(rev[t]) {
        assert Tok(t) in segs;
      }
      MarkKeepsNoMatchAtLiteral(segs[1..], rev);
    }
  }

  /** Replacing a placeholder everywhere, on well-formed segments, marks exactly its segments. */
  lemma {:induction false} ReplaceAllMarks(segs: seq<Segment>, m: string, v: string)
    requires IsToken(m) && NoMatchAtLiteralBracket(segs) && WellFormedSegments(segs)
    ensures ReplaceAll(Render(segs), m, v) == Render(Mark(segs, map[m := v]))
    decreases |segs|
  {
    TokenShape(m);
    var rev := map[m := v];
    if |segs| == 0 {
      assert Mark(segs, rev) == [];
    } else {
      var g, rest := segs[0], segs[1..];
      assert segs == [g] + rest;
      RenderCons(g, rest);
      MarkCons(segs, rev);
      var g' := Mark([g], rev)[0];
      assert Mark([g], rev) == [g'];
      RenderCons(g', Mark(rest, rev));
      ReplaceAllMarks(rest, m, v);
      var head, tail := RenderSegment(g), Render(rest);
      if g == Tok(m) {
        ReplaceAllAtStart(m, tail, v);
      } else {
        assert g' == g;
        forall k | 0 <= k < |head|
          ensures !OccursAt(head + tail, m, k)
        {
          OccursAtFirstChar(head + tail, m, k);
          assert (head + tail)[k] == head[k];
          if g.Tok? {
            TokenOccurrence(g.t, tail, m, k);
          } else if g.Done? {
            assert head[k] in g.v;
          } else {
            assert k == 0;
            assert OccursAt(head + tail, m, 0) ==> TokenPrefixLen(head + tail) == Some(|m|) by {
              if OccursAt(head + tail, m, 0) {
                assert (head + tail)[..|m|] == m;
                TokenPrefixUnique(head + tail, |m|);
              }
            }
          }
        }
        ReplaceAllSkipsPrefix(head, tail, m, v);
      }
    }
  }

  function ElementsOf(ms: seq<string>): (r: set<string>)
    ensures forall m :: m in r <==> m in ms
  {
    set m | m in ms
  }

  /** The set of placeholders a map restricted to `done` knows. */
  function Restrict(rev: map<string, string>, done: set<string>): (r: map<string, string>)
    ensures forall t :: t in r <==> t in done && t in rev
    ensures forall t :: t in r ==> r[t] == rev[t]
  {
    map t | t in done && t in rev :: rev[t]
  }

  /**
   One step of the loop: replacing every occurrence of a placeholder of the
   scan by its inert value, after some placeholders were put back, puts that
   one back as well.
   */
  lemma ReplaceStep(s: string, cur: map<string, string>, m: string, v: string)
    requires IsToken(m) && Inert(v) && (m in cur ==> cur[m] == v)
    requires forall t :: Tok(t) in Scan(s) && t in cur ==> Inert(cur[t])
    requires (forall t :: Tok(t) in Scan(s) && t in cur ==> Safe(cur[t])) || Closed(s)
    ensures RegexReplaceAll(Render(Mark(Scan(s), cur)), m, v) == Render(Mark(Scan(s), cur[m := v]))
  {
    var segs := Scan(s);
    var marked := Mark(segs, cur);
    var w := Render(marked);
    TokenShape(m);
    RegexReplaceLiteral(w, m, v, 0);
    assert w[0..] == w;
    ScanHasNoMatchAtLiteral(s);
    if Closed(s) {
      ClosedScan(s);
      assert NoLitOpen(marked);
      NoLitOpenHasNoMatchAtLiteral(marked);
    } else {
      MarkKeepsNoMatchAtLiteral(segs, cur);
    }
    forall i | 0 <= i < |marked| && marked[i].Done?
      ensures '[' !in marked[i].v
    {
      assert Tok(segs[i].t) in segs;
    }
    ReplaceAllMarks(marked, m, v);
    MarkTwice(segs, cur, m, v);
  }

  /** One iteration of the loop, on a text some of whose placeholders were put back. */
  lemma ApplyMatchMarks(s: string, reverse: JsMap.StringMap, done: set<string>, m: string)
    requires m in FindAll(s)
    requires forall m :: m in FindAll(s) && m in JsMap.ToMap(reverse) ==> Inert(JsMap.ToMap(reverse)[m])
    requires (forall m :: m in FindAll(s) && m in JsMap.ToMap(reverse) ==> Safe(JsMap.ToMap(reverse)[m])) || Closed(s)
    ensures |m| > 0
    ensures ApplyMatch(Render(Mark(Scan(s), Restrict(JsMap.ToMap(reverse), done))), m, reverse)
            == Render(Mark(Scan(s), Restrict(JsMap.ToMap(reverse), done + {m})))
  {
    FoundIsToken(s, m);
    var rev := JsMap.ToMap(reverse);
    if m in rev {
      ApplyKnownMatch(s, reverse, done, m);
    } else {
      assert Restrict(rev, done + {m}) == Restrict(rev, done);
    }
  }

  /** One iteration of the loop for a match the reverse map knows. */
  lemma ApplyKnownMatch(s: string, reverse: JsMap.StringMap, done: set<string>, m: string)
    requires m in FindAll(s) && m in JsMap.ToMap(reverse) && |m| > 0
    requires forall m :: m in FindAll(s) && m in JsMap.ToMap(reverse) ==> Inert(JsMap.ToMap(reverse)[m])
    requires (forall m :: m in FindAll(s) && m in JsMap.ToMap(reverse) ==> Safe(JsMap.ToMap(reverse)[m])) || Closed(s)
    ensures ApplyMatch(Render(Mark(Scan(s), Restrict(JsMap.ToMap(reverse), done))), m, reverse)
            == Render(Mark(Scan(s), Restrict(JsMap.ToMap(reverse), done + {m})))
  {
    var rev := JsMap.ToMap(reverse);
    var cur := Restrict(rev, done);
    var v := rev[m];
    RestrictAdd(rev, done, m);
    RestrictOfFound(s, rev, done);
    FoundIsToken(s, m);
    ReplaceStep(s, cur, m, v);
  }

  /** Putting back one more placeholder adds its entry to the restricted map. */
  lemma RestrictAdd(rev: map<string, string>, done: set<string>, m: string)
    requires m in rev
    ensures Restrict(rev, done + {m}) == Restrict(rev, done)[m := rev[m]]
  {
  }

  /** What holds of the values of the matches holds of the restricted map on the scan's placeholders. */
  lemma RestrictOfFound(s: string, rev: map<string, string>, done: set<string>)
    requires forall m :: m in FindAll(s) && m in rev ==> Inert(rev[m])
    requires (forall m :: m in FindAll(s) && m in rev ==> Safe(rev[m])) || Closed(s)
    ensures forall t :: Tok(t) in Scan(s) && t in Restrict(rev, done) ==> Inert(Restrict(rev, done)[t])
    ensures (forall t :: Tok(t) in Scan(s) && t in Restrict(rev, done) ==> Safe(Restrict(rev, done)[t])) || Closed(s)
  {
    assert forall t :: Tok(t) in Scan(s) ==> t in FindAll(s);
  }

  /** The elements of a list, one at a time. */
  lemma ElementsOfCons(done: set<string>, ms: seq<string>)
    requires |ms| > 0
    ensures (done + {ms[0]}) + ElementsOf(ms[1..]) == done + ElementsOf(ms)
  {
    assert ms == [ms[0]] + ms[1..];
  }

  /**
   The loop invariant of the restoration: with the placeholders of `done`
   already put back, applying the remaining matches `ms` puts back those of
   `ms` as well, whatever their order.
   */
  lemma {:induction false} ApplyMatchesMarks(s: string, reverse: JsMap.StringMap, done: set<string>, ms: seq<string>)
    requires forall i :: 0 <= i < |ms| ==> ms[i] in FindAll(s)
    requires forall m :: m in FindAll(s) && m in JsMap.ToMap(reverse) ==> Inert(JsMap.ToMap(reverse)[m])
    requires (forall m :: m in FindAll(s) && m in JsMap.ToMap(reverse) ==> Safe(JsMap.ToMap(reverse)[m])) || Closed(s)
    ensures forall i :: 0 <= i < |ms| ==> |ms[i]| > 0
    ensures ApplyMatches(Render(Mark(Scan(s), Restrict(JsMap.ToMap(reverse), done))), ms, reverse)
            == Render(Mark(Scan(s), Restrict(JsMap.ToMap(reverse), done + ElementsOf(ms))))
    decreases |ms|
  {
    if |ms| == 0 {
      assert done + ElementsOf(ms) == done;
    } else {
      ElementsOfCons(done, ms);
      ApplyMatchMarks(s, reverse, done, ms[0]);
      ApplyMatchesMarks(s, reverse, done + {ms[0]}, ms[1..]);
    }
  }

  /**
   Restoration is substitution: for a text whose known placeholders map to
   inert values, and either all those values are safe or every `[` of the
   text opens a placeholder, applying the matches in any order that covers
   them all gives the one-pass `Substitute`.
   */
  lemma ApplyMatchesIsSubstitution(t: Table, text: string, ms: seq<string>)
    requires forall m :: m in ms <==> m in FindAll(text)
    requires forall m :: m in FindAll(text) && m in Reverse(t) ==> Inert(Reverse(t)[m])
    requires (forall m :: m in FindAll(text) && m in Reverse(t) ==> Safe(Reverse(t)[m])) || Closed(text)
    ensures forall i :: 0 <= i < |ms| ==> |ms[i]| > 0
    ensures ApplyMatches(text, ms, t.reverse) == Substitute(text, Reverse(t))
  {
    var rev := Reverse(t);
    var segs := Scan(text);
    assert Restrict(rev, {}) == map[];
    assert Mark(segs, map[]) == segs;
    ApplyMatchesMarks(text, t.reverse, {}, ms);
    assert forall x :: Tok(x) in segs ==> x in FindAll(text);
    MarkAgree(segs, Restrict(rev, {} + ElementsOf(ms)), rev);
  }

  /** `restoreFromPlaceholders` computes `Substitute` under the same conditions. */
  lemma RestoreIsSubstitution(t: Table, text: string)
    requires forall m :: m in FindAll(text) && m in Reverse(t) ==> Inert(Reverse(t)[m])
    requires (forall m :: m in FindAll(text) && m in Reverse(t) ==> Safe(Reverse(t)[m])) || Closed(text)
    ensures RestoreFromPlaceholders(t, text) == Substitute(text, Reverse(t))
  {
    if |text| == 0 || |t.reverse| == 0 || |FindAll(text)| == 0 {
      SubstituteWithoutMatches(text, Reverse(t));
    } else {
      var sorted := SortByLengthDesc(FindAll(text));
      forall m ensures m in sorted <==> m in FindAll(text) {
        assert m in sorted <==> m in multiset(sorted);
      }
      ApplyMatchesIsSubstitution(t, text, sorted);
    }
  }
}
