/**
 How the placeholder pattern `/\[PII_[A-Z_]+_\d+\]/g` reads a text. A match
 can start only at a `[`, and since no character of `[A-Z_0-9]` is a `]`, a
 match starting there ends at the first `]` after it; the global scan takes
 the leftmost match and resumes after it. `Scan` cuts a text into the
 placeholders it finds and the single characters between them. On that view
 rest `FindAll` (what `text.match` returns) and `Substitute`, the one-pass
 reading of a restoration: every placeholder found and known to the reverse
 map is replaced by its original value, everything else stays.
 */
module Scanning {
  import opened Wrappers
  import opened Strings
  import opened Placeholder

  /**
   The length of the placeholder match at the very start of `s`, if there
   is one: the text up to the first `]` must be a token.
   */
  function TokenPrefixLen(s: string): (r: Option<nat>)
    ensures r.Some? ==> 0 < r.value <= |s| && IsToken(s[..r.value])
    ensures r.Some? ==> s[0] == '['
  {
    match IndexOf(s, "]")
    case None => None
    case Some(j) =>
      if IsToken(s[..j + 1]) then
        TokenShape(s[..j + 1]);
        assert s[..j + 1][0] == s[0];
        Some(j + 1)
      else None
  }

  /** A token at the start of `s` is the match the scan finds there. */
  lemma TokenPrefixUnique(s: string, n: nat)
    requires 0 < n <= |s| && IsToken(s[..n])
    ensures TokenPrefixLen(s) == Some(n)
  {
    var t := s[..n];
    TokenShape(t);
    assert s[n - 1] == t[n - 1];
    assert OccursAt(s, "]", n - 1) by {
      assert s[n - 1..n] == [s[n - 1]];
    }
    forall j | 0 <= j < n - 1
      ensures !OccursAt(s, "]", j)
    {
      assert s[j..j + 1][0] == s[j] == t[j];
    }
    assert IndexOf(s, "]") == Some(n - 1);
    assert s[..n - 1 + 1] == t;
  }

  /** A match at the start of `s` stays the match whatever follows `s`. */
  lemma TokenPrefixExtend(s: string, tail: string)
    requires TokenPrefixLen(s).Some?
    ensures TokenPrefixLen(s + tail) == TokenPrefixLen(s)
  {
    var n := TokenPrefixLen(s).value;
    assert (s + tail)[..n] == s[..n];
    TokenPrefixUnique(s + tail, n);
  }

  /** Inside `t + rest`, where `t` is a token, a token can start before the end of `t` only as `t` itself. */
  lemma TokenOccurrence(t: string, rest: string, m: string, k: int)
    requires IsToken(t) && IsToken(m) && 0 <= k < |t|
    ensures OccursAt(t + rest, m, k) ==> k == 0 && m == t
  {
    if OccursAt(t + rest, m, k) {
      var s := t + rest;
      TokenShape(t);
      TokenShape(m);
      assert t[k] == s[k] == m[0];
      assert k == 0;
      assert s[..|m|] == m;
      TokenPrefixUnique(s, |m|);
      assert s[..|t|] == t;
      TokenPrefixUnique(s, |t|);
    }
  }

  // ---------------------------------------------------------------------
  // Segments

  /**
   A piece of a text: a literal character, a placeholder the scan found,
   or an original value a restoration has already put back.
   */
  datatype Segment = Lit(c: char) | Tok(t: string) | Done(v: string)

  function RenderSegment(g: Segment): string {
    match g
    case Lit(c) => [c]
    case Tok(t) => t
    case Done(v) => v
  }

  /** The text a list of segments spells. */
  function Render(segs: seq<Segment>): string
    decreases |segs|
  {
    if |segs| == 0 then "" else RenderSegment(segs[0]) + Render(segs[1..])
  }

  lemma {:induction false} RenderConcat(a: seq<Segment>, b: seq<Segment>)
    ensures Render(a + b) == Render(a) + Render(b)
    decreases |a|
  {
    if |a| == 0 {
      assert a + b == b;
    } else {
      assert (a + b)[1..] == a[1..] + b;
      RenderConcat(a[1..], b);
    }
  }

  /** Cuts `s` into the placeholders the global match finds and the single characters between them. */
  function Scan(s: string): (r: seq<Segment>)
    ensures Render(r) == s
    ensures forall i :: 0 <= i < |r| ==> !r[i].Done? && (r[i].Tok? ==> IsToken(r[i].t) && |r[i].t| > 0)
    decreases |s|
  {
    if |s| == 0 then []
    else
      match TokenPrefixLen(s)
      case Some(n) =>
        assert s[..n] + s[n..] == s;
        [Tok(s[..n])] + Scan(s[n..])
      case None =>
        assert [s[0]] + s[1..] == s;
        [Lit(s[0])] + Scan(s[1..])
  }

  /** The placeholders among the segments, in order. */
  function TokensOf(segs: seq<Segment>): (r: seq<string>)
    ensures forall t :: t in r <==> Tok(t) in segs
    decreases |segs|
  {
    if |segs| == 0 then []
    else if segs[0].Tok? then [segs[0].t] + TokensOf(segs[1..])
    else TokensOf(segs[1..])
  }

  /** `text.match(/\[PII_[A-Z_]+_\d+\]/g)`, with no match as the empty list. */
  function FindAll(s: string): (r: seq<string>)
    ensures forall i :: 0 <= i < |r| ==> IsToken(r[i]) && |r[i]| > 0
  {
    var segs := Scan(s);
    var r := TokensOf(segs);
    assert forall i :: 0 <= i < |r| ==> IsToken(r[i]) && |r[i]| > 0 by {
      forall i | 0 <= i < |r|
        ensures IsToken(r[i]) && |r[i]| > 0
      {
        assert r[i] in r;
        var j :| 0 <= j < |segs| && segs[j] == Tok(r[i]);
      }
    }
    r
  }

  /** Every match found is a non-empty token. */
  lemma FoundIsToken(s: string, m: string)
    requires m in FindAll(s)
    ensures IsToken(m) && |m| > 0
  {
    var i :| 0 <= i < |FindAll(s)| && FindAll(s)[i] == m;
  }

  /** Replaces every placeholder the map knows by a segment holding its value. */
  function Mark(segs: seq<Segment>, rev: map<string, string>): (r: seq<Segment>)
    ensures |r| == |segs|
  {
    seq(|segs|, i requires 0 <= i < |segs| =>
      if segs[i].Tok? && segs[i].t in rev then Done(rev[segs[i].t]) else segs[i])
  }

  /**
   The one-pass reading of a restoration: each placeholder the scan finds
   in `s` and `rev` knows becomes its value; all else is kept.
   */
  function Substitute(s: string, rev: map<string, string>): string {
    Render(Mark(Scan(s), rev))
  }

  lemma MarkConcat(a: seq<Segment>, b: seq<Segment>, rev: map<string, string>)
    ensures Mark(a + b, rev) == Mark(a, rev) + Mark(b, rev)
  {
  }

  /** Marking twice is marking once with the union, when the two maps agree on their common placeholders. */
  lemma MarkTwice(segs: seq<Segment>, first: map<string, string>, m: string, v: string)
    requires forall i :: 0 <= i < |segs| ==> !segs[i].Done?
    requires m in first ==> first[m] == v
    ensures Mark(Mark(segs, first), map[m := v]) == Mark(segs, first[m := v])
  {
  }

  /** Marking depends only on what the map says about the placeholders present. */
  lemma MarkAgree(segs: seq<Segment>, a: map<string, string>, b: map<string, string>)
    requires forall t :: Tok(t) in segs ==> (t in a <==> t in b) && (t in a ==> a[t] == b[t])
    ensures Mark(segs, a) == Mark(segs, b)
  {
    forall i | 0 <= i < |segs|
      ensures Mark(segs, a)[i] == Mark(segs, b)[i]
    {
      if segs[i].Tok? {
        assert Tok(segs[i].t) in segs;
      }
    }
  }

  /** A text without placeholders substitutes to itself. */
  lemma SubstituteWithoutMatches(s: string, rev: map<string, string>)
    requires forall m :: m in FindAll(s) ==> m !in rev
    ensures Substitute(s, rev) == s
  {
    var segs := Scan(s);
    assert forall t :: Tok(t) in segs ==> t in TokensOf(segs);
    MarkAgree(segs, rev, map[]);
    assert Mark(segs, map[]) == segs;
  }

  // ---------------------------------------------------------------------
  // Texts in which every `[` opens a placeholder

  /** A `[` at position `p` of `s` opens a placeholder match that lies within `s`. */
  predicate OpensAt(s: string, p: nat)
    requires p < |s|
  {
    s[p] == '[' ==> TokenPrefixLen(s[p..]).Some?
  }

  /** Every `[` of `s` opens a placeholder match that lies within `s`. */
  predicate Closed(s: string) {
    forall p :: 0 <= p < |s| ==> OpensAt(s, p)
  }

  lemma ClosedSuffix(s: string, d: nat)
    requires Closed(s) && d <= |s|
    ensures Closed(s[d..])
  {
    forall p | 0 <= p < |s| - d
      ensures OpensAt(s[d..], p)
    {
      assert OpensAt(s, d + p);
      assert s[d..][p..] == s[d + p..];
    }
  }

  lemma ClosedConcat(a: string, b: string)
    requires Closed(a) && Closed(b)
    ensures Closed(a + b)
  {
    var s := a + b;
    forall p | 0 <= p < |s|
      ensures OpensAt(s, p)
    {
      if p < |a| {
        assert OpensAt(a, p);
        assert s[p..] == a[p..] + b;
        assert a[p] == s[p];
        if s[p] == '[' {
          TokenPrefixExtend(a[p..], b);
        }
      } else {
        assert OpensAt(b, p - |a|);
        assert s[p..] == b[p - |a|..];
        assert b[p - |a|] == s[p];
      }
    }
  }

  /** A token is closed: its only `[` opens itself. */
  lemma TokenIsClosed(t: string)
    requires IsToken(t)
    ensures Closed(t)
  {
    TokenShape(t);
    forall p | 0 <= p < |t|
      ensures OpensAt(t, p)
    {
      if t[p] == '[' {
        assert p == 0;
        assert t[0..] == t && t[..|t|] == t;
        TokenPrefixUnique(t, |t|);
      }
    }
  }

  /** A text without `[` is closed. */
  lemma NoBracketIsClosed(s: string)
    requires '[' !in s
    ensures Closed(s)
  {
    forall p | 0 <= p < |s|
      ensures OpensAt(s, p)
    {
      assert s[p] in s;
    }
  }

  /** In a closed text the scan never reports a `[` as a literal. */
  predicate NoLitOpen(segs: seq<Segment>) {
    forall i :: 0 <= i < |segs| ==> segs[i] != Lit('[')
  }

  lemma ConcatAssoc(x: seq<Segment>, y: seq<Segment>, z: seq<Segment>)
    ensures x + (y + z) == (x + y) + z
  {
  }

  /** One step of the scan where no match starts. */
  lemma ScanLit(s: string)
    requires |s| > 0 && TokenPrefixLen(s).None?
    ensures Scan(s) == [Lit(s[0])] + Scan(s[1..])
  {
  }

  /** One step of the scan over a match. */
  lemma ScanTok(s: string, n: nat)
    requires TokenPrefixLen(s) == Some(n)
    ensures Scan(s) == [Tok(s[..n])] + Scan(s[n..])
  {
  }

  /** The first step of the scan of a closed text: a literal other than `[`, or a match that stays within it. */
  lemma ClosedHead(a: string)
    requires Closed(a) && |a| > 0
    ensures a[0] != '[' ==> TokenPrefixLen(a).None?
    ensures a[0] == '[' ==> TokenPrefixLen(a).Some?
  {
    assert OpensAt(a, 0);
    assert a[0..] == a;
  }

  /** Cutting a concatenation inside its first part. */
  lemma SliceConcat(a: string, b: string, n: nat)
    requires n <= |a|
    ensures (a + b)[n..] == a[n..] + b && (a + b)[..n] == a[..n]
  {
  }

  /** The literal step of `ScanConcat`. */
  lemma ScanConcatLit(a: string, b: string)
    requires |a| > 0 && TokenPrefixLen(a).None? && TokenPrefixLen(a + b).None?
    requires Scan(a[1..] + b) == Scan(a[1..]) + Scan(b)
    ensures Scan(a + b) == Scan(a) + Scan(b)
  {
    SliceConcat(a, b, 1);
    assert (a + b)[0] == a[0];
    ScanLit(a);
    ScanLit(a + b);
    ConcatAssoc([Lit(a[0])], Scan(a[1..]), Scan(b));
  }

  /** The match step of `ScanConcat`. */
  lemma ScanConcatTok(a: string, b: string, n: nat)
    requires TokenPrefixLen(a) == Some(n)
    requires Scan(a[n..] + b) == Scan(a[n..]) + Scan(b)
    ensures Scan(a + b) == Scan(a) + Scan(b)
  {
    SliceConcat(a, b, n);
    TokenPrefixExtend(a, b);
    ScanTok(a, n);
    ScanTok(a + b, n);
    ConcatAssoc([Tok(a[..n])], Scan(a[n..]), Scan(b));
  }

  /** The scan of a closed text `a` followed by anything is the scan of `a` followed by the scan of the rest. */
  lemma {:induction false} ScanConcat(a: string, b: string)
    requires Closed(a)
    ensures Scan(a + b) == Scan(a) + Scan(b)
    decreases |a|
  {
    if |a| == 0 {
      assert a + b == b;
    } else {
      ClosedHead(a);
      match TokenPrefixLen(a)
      case None =>
        ClosedSuffix(a, 1);
        ScanConcat(a[1..], b);
        assert (a + b)[0] == a[0];
        ScanConcatLit(a, b);
      case Some(n) =>
        ClosedSuffix(a, n);
        ScanConcat(a[n..], b);
        ScanConcatTok(a, b, n);
    }
  }

  /** The scan of a closed text has no literal `[`. */
  lemma {:induction false} ClosedScan(s: string)
    requires Closed(s)
    ensures NoLitOpen(Scan(s))
    decreases |s|
  {
    if |s| > 0 {
      ClosedHead(s);
      match TokenPrefixLen(s)
      case None =>
        ScanLit(s);
        ClosedSuffix(s, 1);
        ClosedScan(s[1..]);
      case Some(n) =>
        ScanTok(s, n);
        ClosedSuffix(s, n);
        ClosedScan(s[n..]);
    }
  }

  /** A text without `[` scans to its characters, one literal each. */
  lemma {:induction false} ScanWithoutBracket(s: string)
    requires '[' !in s
    ensures Scan(s) == seq(|s|, i requires 0 <= i < |s| => Lit(s[i]))
    decreases |s|
  {
    if |s| > 0 {
      assert TokenPrefixLen(s).None?;
      assert '[' !in s[1..] by {
        forall i | 0 <= i < |s| - 1 ensures s[1..][i] != '[' {
          assert s[1..][i] == s[i + 1];
        }
      }
      ScanWithoutBracket(s[1..]);
    }
  }

  /** The single placeholder a token scans to. */
  lemma ScanToken(t: string)
    requires IsToken(t)
    ensures Scan(t) == [Tok(t)]
  {
    assert t[..|t|] == t;
    TokenPrefixUnique(t, |t|);
    assert t[|t|..] == [];
  }
}
