/**
 The JavaScript string primitives the PII filter is built on, over Dafny's
 `string` (a sequence of characters): `indexOf`, `replace` with a string
 pattern (first occurrence only), `replace` with a global literal pattern,
 decimal rendering of a counter, `Array.prototype.join`, `toUpperCase` on
 ASCII keys and the `trim()`-is-empty test.
 */
module Strings {
  import opened Wrappers

  /** `pat` occurs in `text` starting at position `i`. */
  predicate OccursAt(text: string, pat: string, i: int) {
    0 <= i && i + |pat| <= |text| && text[i..i + |pat|] == pat
  }

  /** `pat` occurs at `i` and nowhere before. */
  predicate FirstOccurrence(text: string, pat: string, i: int) {
    OccursAt(text, pat, i) && forall j :: 0 <= j < i ==> !OccursAt(text, pat, j)
  }

  /** There is at most one first occurrence. */
  lemma FirstOccurrenceUnique(text: string, pat: string, i: int, k: int)
    requires FirstOccurrence(text, pat, i) && FirstOccurrence(text, pat, k)
    ensures i == k
  {
  }

  /** A text occurs in itself first at position zero, and replacing that occurrence leaves only the replacement. */
  lemma WholeIsFirstOccurrence(v: string, x: string)
    ensures FirstOccurrence(v, v, 0) && v[..0] + x + v[|v|..] == x
  {
    assert v[0..|v|] == v;
  }

  /** `text.indexOf(pat, from)`: the first occurrence at or after `from`. */
  function IndexOfFrom(text: string, pat: string, from: nat): (r: Option<nat>)
    ensures r.Some? ==> from <= r.value && OccursAt(text, pat, r.value)
    ensures r.Some? ==> forall j :: from <= j < r.value ==> !OccursAt(text, pat, j)
    ensures r.None? ==> forall j :: from <= j ==> !OccursAt(text, pat, j)
    decreases |text| - from
  {
    if from + |pat| > |text| then None
    else if OccursAt(text, pat, from) then Some(from)
    else IndexOfFrom(text, pat, from + 1)
  }

  /** `text.indexOf(pat)`: the first position at which `pat` occurs, if any. */
  function IndexOf(text: string, pat: string): (r: Option<nat>)
    ensures r.Some? ==> OccursAt(text, pat, r.value)
    ensures r.Some? ==> forall j :: 0 <= j < r.value ==> !OccursAt(text, pat, j)
    ensures r.None? <==> forall j :: !OccursAt(text, pat, j)
  {
    IndexOfFrom(text, pat, 0)
  }

  /**
   The replacement text `String.prototype.replace` inserts for one match
   (GetSubstitution, for a pattern without capture groups): `$$` stands for
   `$`, `$&` for the matched text, `` $` `` for the text before the match and
   `$'` for the text after it; every other `$` is kept as it is.
   */
  function ExpandReplacement(rep: string, matched: string, before: string, after: string): string
    decreases |rep|
  {
    if |rep| == 0 then ""
    else if rep[0] == '$' && |rep| >= 2 && rep[1] in "$&`'" then
      var sub := if rep[1] == '$' then "$" else if rep[1] == '&' then matched else if rep[1] == '`' then before else after;
      sub + ExpandReplacement(rep[2..], matched, before, after)
    else [rep[0]] + ExpandReplacement(rep[1..], matched, before, after)
  }

  /** No `$` in `rep` starts one of the four substitution patterns. */
  predicate TakenLiterally(rep: string)
    decreases |rep|
  {
    |rep| < 2 || ((rep[0] == '$' ==> rep[1] !in "$&`'") && TakenLiterally(rep[1..]))
  }

  /** A replacement without `$` is taken literally. */
  lemma {:induction false} NoDollarIsLiteral(rep: string)
    requires '$' !in rep
    ensures TakenLiterally(rep)
    decreases |rep|
  {
    if |rep| >= 2 {
      assert rep[0] in rep;
      assert '$' !in rep[1..] by {
        forall i | 0 <= i < |rep| - 1 ensures rep[1..][i] != '$' {
          assert rep[1..][i] == rep[i + 1] && rep[i + 1] in rep;
        }
      }
      NoDollarIsLiteral(rep[1..]);
    }
  }

  /** A replacement in which no `$` starts a pattern is inserted as written. */
  lemma {:induction false} ExpandLiteral(rep: string, matched: string, before: string, after: string)
    requires TakenLiterally(rep)
    ensures ExpandReplacement(rep, matched, before, after) == rep
    decreases |rep|
  {
    if |rep| > 0 {
      if |rep| >= 2 {
        ExpandLiteral(rep[1..], matched, before, after);
      }
      assert [rep[0]] + rep[1..] == rep;
    }
  }

  /**
   `text.replace(pat, rep)` with a string pattern: only the first occurrence
   of `pat` is replaced, by `rep` with its `$`-patterns expanded.
   */
  function ReplaceFirst(text: string, pat: string, rep: string): (r: string)
    ensures (forall j :: !OccursAt(text, pat, j)) ==> r == text
  {
    match IndexOf(text, pat)
    case None => text
    case Some(i) => text[..i] + ExpandReplacement(rep, pat, text[..i], text[i + |pat|..]) + text[i + |pat|..]
  }

  /** The occurrence `replace` rewrites is the first one, whichever it is. */
  lemma ReplaceFirstAt(text: string, pat: string, rep: string)
    ensures forall i :: FirstOccurrence(text, pat, i) ==>
              ReplaceFirst(text, pat, rep) == text[..i] + ExpandReplacement(rep, pat, text[..i], text[i + |pat|..]) + text[i + |pat|..]
  {
    IndexOfIsFirst(text, pat);
  }

  /** `indexOf` finds the first occurrence, whichever it is. */
  lemma IndexOfIsFirst(text: string, pat: string)
    ensures forall i :: FirstOccurrence(text, pat, i) ==> IndexOf(text, pat) == Some(i)
  {
    forall i | FirstOccurrence(text, pat, i)
      ensures IndexOf(text, pat) == Some(i)
    {
      FirstOccurrenceUnique(text, pat, i, IndexOf(text, pat).value);
    }
  }

  /**
   `text.replace(re, rep)` for a global regular expression `re` that denotes
   the literal `pat`, from position `from` on: the scan finds the leftmost
   occurrence, replaces it by `rep` expanded against the whole text, and
   resumes after it.
   */
  function RegexReplaceFrom(text: string, pat: string, rep: string, from: nat): string
    requires |pat| > 0 && from <= |text|
    decreases |text| - from
  {
    if from + |pat| > |text| then text[from..]
    else if OccursAt(text, pat, from) then
      ExpandReplacement(rep, pat, text[..from], text[from + |pat|..]) + RegexReplaceFrom(text, pat, rep, from + |pat|)
    else [text[from]] + RegexReplaceFrom(text, pat, rep, from + 1)
  }

  /** `text.replace(re, rep)` for a global regular expression denoting the literal `pat`. */
  function RegexReplaceAll(text: string, pat: string, rep: string): string
    requires |pat| > 0
  {
    RegexReplaceFrom(text, pat, rep, 0)
  }

  /**
   `text.replace(/pat/g, rep)` for a replacement taken literally: scanning
   left to right, every non-overlapping occurrence is replaced and the scan
   resumes after it.
   */
  function ReplaceAll(text: string, pat: string, rep: string): string
    requires |pat| > 0
    decreases |text|
  {
    if |text| < |pat| then text
    else if OccursAt(text, pat, 0) then rep + ReplaceAll(text[|pat|..], pat, rep)
    else [text[0]] + ReplaceAll(text[1..], pat, rep)
  }

  /** At an occurrence, the regular-expression replace inserts a literal replacement as written and skips the occurrence. */
  lemma RegexStepAtOccurrence(text: string, pat: string, rep: string, from: nat)
    requires |pat| > 0 && from + |pat| <= |text| && OccursAt(text, pat, from) && TakenLiterally(rep)
    ensures RegexReplaceFrom(text, pat, rep, from) == rep + RegexReplaceFrom(text, pat, rep, from + |pat|)
  {
    ExpandLiteral(rep, pat, text[..from], text[from + |pat|..]);
  }

  /** At an occurrence in a suffix, the global replace inserts the replacement and skips the occurrence. */
  lemma ReplaceAllStepAtOccurrence(text: string, pat: string, rep: string, from: nat)
    requires |pat| > 0 && from + |pat| <= |text| && OccursAt(text, pat, from)
    ensures ReplaceAll(text[from..], pat, rep) == rep + ReplaceAll(text[from + |pat|..], pat, rep)
  {
    var s := text[from..];
    OccursInSuffix(text, from, pat, 0);
    assert s[|pat|..] == text[from + |pat|..];
  }

  /** Where no occurrence starts in a suffix, the global replace keeps its first character. */
  lemma ReplaceAllStepElsewhere(text: string, pat: string, rep: string, from: nat)
    requires |pat| > 0 && from + |pat| <= |text| && !OccursAt(text, pat, from)
    ensures ReplaceAll(text[from..], pat, rep) == [text[from]] + ReplaceAll(text[from + 1..], pat, rep)
  {
    var s := text[from..];
    OccursInSuffix(text, from, pat, 0);
    assert s[1..] == text[from + 1..];
  }

  /** With a replacement taken literally, the regular-expression replace is the literal global replace. */
  lemma {:induction false} RegexReplaceLiteral(text: string, pat: string, rep: string, from: nat)
    requires |pat| > 0 && from <= |text| && TakenLiterally(rep)
    ensures RegexReplaceFrom(text, pat, rep, from) == ReplaceAll(text[from..], pat, rep)
    decreases |text| - from
  {
    if from + |pat| <= |text| {
      if OccursAt(text, pat, from) {
        RegexStepAtOccurrence(text, pat, rep, from);
        ReplaceAllStepAtOccurrence(text, pat, rep, from);
        RegexReplaceLiteral(text, pat, rep, from + |pat|);
      } else {
        ReplaceAllStepElsewhere(text, pat, rep, from);
        RegexReplaceLiteral(text, pat, rep, from + 1);
      }
    } else {
      RegexReplaceShortTail(text, pat, rep, from);
    }
  }

  /** A tail shorter than the pattern is kept as it is by both replaces. */
  lemma RegexReplaceShortTail(text: string, pat: string, rep: string, from: nat)
    requires |pat| > 0 && from <= |text| && from + |pat| > |text|
    ensures RegexReplaceFrom(text, pat, rep, from) == text[from..]
    ensures ReplaceAll(text[from..], pat, rep) == text[from..]
  {
  }

  /** A global replace leaves a text without occurrences of the pattern unchanged. */
  lemma {:induction false} ReplaceAllWithoutOccurrence(text: string, pat: string, rep: string)
    requires |pat| > 0
    requires forall j :: !OccursAt(text, pat, j)
    ensures ReplaceAll(text, pat, rep) == text
    decreases |text|
  {
    if |text| >= |pat| {
      assert !OccursAt(text, pat, 0);
      forall j ensures !OccursAt(text[1..], pat, j) {
        if 0 <= j {
          OccursInSuffix(text, 1, pat, j);
        }
      }
      ReplaceAllWithoutOccurrence(text[1..], pat, rep);
      assert [text[0]] + text[1..] == text;
    }
  }

  /** An occurrence starts with the pattern's first character. */
  lemma OccursAtFirstChar(text: string, pat: string, i: int)
    requires |pat| > 0
    ensures OccursAt(text, pat, i) ==> text[i] == pat[0]
  {
    if OccursAt(text, pat, i) {
      assert text[i..i + |pat|][0] == text[i];
    }
  }

  /** Occurrences in a suffix are occurrences in the whole text, shifted. */
  lemma OccursInSuffix(text: string, d: nat, pat: string, k: int)
    requires d <= |text| && 0 <= k
    ensures OccursAt(text[d..], pat, k) <==> OccursAt(text, pat, k + d)
  {
    if 0 <= k && k + |pat| <= |text| - d {
      assert text[d..][k..k + |pat|] == text[k + d..k + d + |pat|];
    }
  }

  /** Where no occurrence starts at the head, the global replace keeps the first character. */
  lemma ReplaceAllKeepsHead(s: string, pat: string, rep: string)
    requires |pat| > 0 && |s| > 0 && !OccursAt(s, pat, 0)
    ensures ReplaceAll(s, pat, rep) == [s[0]] + ReplaceAll(s[1..], pat, rep)
  {
    if |s| < |pat| {
      assert ReplaceAll(s[1..], pat, rep) == s[1..];
    }
  }

  /** If no occurrence of `pat` starts inside the prefix `p`, the global replace passes over `p` unchanged. */
  lemma {:induction false} ReplaceAllSkipsPrefix(p: string, rest: string, pat: string, rep: string)
    requires |pat| > 0
    requires forall k :: 0 <= k < |p| ==> !OccursAt(p + rest, pat, k)
    ensures ReplaceAll(p + rest, pat, rep) == p + ReplaceAll(rest, pat, rep)
    decreases |p|
  {
    if |p| > 0 {
      var s := p + rest;
      assert s[1..] == p[1..] + rest;
      forall k | 0 <= k < |p| - 1
        ensures !OccursAt(p[1..] + rest, pat, k)
      {
        OccursInSuffix(s, 1, pat, k);
      }
      ReplaceAllSkipsPrefix(p[1..], rest, pat, rep);
      ReplaceAllKeepsHead(s, pat, rep);
      var x := ReplaceAll(rest, pat, rep);
      assert ReplaceAll(s, pat, rep) == [p[0]] + (p[1..] + x);
      assert [p[0]] + (p[1..] + x) == p + x;
    } else {
      assert p + rest == rest;
    }
  }

  /** A global replace consumes an occurrence at the very start. */
  lemma ReplaceAllAtStart(pat: string, rest: string, rep: string)
    requires |pat| > 0
    ensures ReplaceAll(pat + rest, pat, rep) == rep + ReplaceAll(rest, pat, rep)
  {
    var s := pat + rest;
    assert OccursAt(s, pat, 0);
    assert s[|pat|..] == rest;
  }

  // ---------------------------------------------------------------------
  // Decimal rendering of a counter (template literal `${n}`)

  predicate IsDigit(c: char) {
    '0' <= c <= '9'
  }

  predicate AllDigits(s: string) {
    forall i :: 0 <= i < |s| ==> IsDigit(s[i])
  }

  function DigitValue(c: char): nat
    requires IsDigit(c)
  {
    c as int - '0' as int
  }

  function DigitChar(d: nat): (c: char)
    requires d < 10
    ensures IsDigit(c) && DigitValue(c) == d
  {
    ('0' as int + d) as char
  }

  /** The decimal numeral of `n`, without leading zeros. */
  function NatToString(n: nat): (r: string)
    ensures |r| > 0 && AllDigits(r)
    ensures r[0] == '0' <==> n == 0
    decreases n
  {
    if n < 10 then [DigitChar(n)] else NatToString(n / 10) + [DigitChar(n % 10)]
  }

  /** The value of a decimal numeral. */
  function StringToNat(s: string): nat
    requires AllDigits(s)
    decreases |s|
  {
    if |s| == 0 then 0 else StringToNat(s[..|s| - 1]) * 10 + DigitValue(s[|s| - 1])
  }

  /** Reading back a rendered counter gives the counter: rendering is injective. */
  lemma {:induction false} NatToStringRoundTrip(n: nat)
    ensures StringToNat(NatToString(n)) == n
    decreases n
  {
    if n >= 10 {
      var s := NatToString(n);
      NatToStringRoundTrip(n / 10);
      assert s[..|s| - 1] == NatToString(n / 10);
    }
  }

  // ---------------------------------------------------------------------
  // Array.prototype.join and its inverse

  /** `xs.join(sep)` */
  function Join(xs: seq<string>, sep: string): string
    decreases |xs|
  {
    if |xs| == 0 then ""
    else if |xs| == 1 then xs[0]
    else xs[0] + sep + Join(xs[1..], sep)
  }

  /** Splits a string at every ", " (the separator the instruction prompt uses). */
  function Unjoin(s: string): (r: seq<string>)
    ensures |r| > 0
    decreases |s|
  {
    match IndexOf(s, ", ")
    case None => [s]
    case Some(i) => [s[..i]] + Unjoin(s[i + 2..])
  }

  predicate NoComma(s: string) {
    forall i :: 0 <= i < |s| ==> s[i] != ','
  }

  /** A comma-free string holds no separator, so splitting it gives it back whole. */
  lemma UnjoinSingle(x: string)
    requires NoComma(x)
    ensures Unjoin(x) == [x]
  {
    forall j | 0 <= j && j + 2 <= |x|
      ensures !OccursAt(x, ", ", j)
    {
      assert x[j..j + 2][0] == x[j];
    }
  }

  /** Splitting stops at the first separator, which follows a comma-free head. */
  lemma UnjoinStep(x: string, rest: string)
    requires NoComma(x)
    ensures Unjoin(x + ", " + rest) == [x] + Unjoin(rest)
  {
    var s := x + ", " + rest;
    forall j | 0 <= j < |x|
      ensures !OccursAt(s, ", ", j)
    {
      assert s[j..j + 2][0] == s[j] == x[j];
    }
    assert s[|x|..|x| + 2] == ", ";
    IndexOfIsFirst(s, ", ");
    assert IndexOf(s, ", ") == Some(|x|);
    assert s[..|x|] == x;
    assert s[|x| + 2..] == rest;
  }

  /** Splitting a non-empty ", "-joined list of comma-free items gives the items back. */
  lemma {:induction false} UnjoinJoin(xs: seq<string>)
    requires |xs| > 0
    requires forall i :: 0 <= i < |xs| ==> NoComma(xs[i])
    ensures Unjoin(Join(xs, ", ")) == xs
    decreases |xs|
  {
    if |xs| == 1 {
      UnjoinSingle(xs[0]);
    } else {
      UnjoinJoin(xs[1..]);
      UnjoinStep(xs[0], Join(xs[1..], ", "));
      assert [xs[0]] + xs[1..] == xs;
    }
  }

  // ---------------------------------------------------------------------
  // String.prototype.toUpperCase on ASCII text

  function UpperChar(c: char): char {
    if 'a' <= c <= 'z' then (c as int - 32) as char else c
  }

  /** `s.toUpperCase()` for the ASCII pattern keys. */
  function ToUpperAscii(s: string): (r: string)
    ensures |r| == |s|
    ensures forall i :: 0 <= i < |s| ==> r[i] == UpperChar(s[i])
  {
    seq(|s|, i requires 0 <= i < |s| => UpperChar(s[i]))
  }

  // ---------------------------------------------------------------------
  // `!text || text.trim().length === 0`

  /** The characters `String.prototype.trim` removes (WhiteSpace and LineTerminator). */
  predicate IsJsWhitespace(c: char) {
    var n := c as int;
    n == 0x09 || n == 0x0A || n == 0x0B || n == 0x0C || n == 0x0D || n == 0x20
    || n == 0xA0 || n == 0x1680 || (0x2000 <= n <= 0x200A) || n == 0x2028
    || n == 0x2029 || n == 0x202F || n == 0x205F || n == 0x3000 || n == 0xFEFF
  }

  /** The text is empty or trims to the empty string. */
  predicate IsBlank(s: string) {
    forall i :: 0 <= i < |s| ==> IsJsWhitespace(s[i])
  }
}
