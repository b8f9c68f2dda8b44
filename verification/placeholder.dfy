/**
 Placeholder tokens. A token reads `[PII_<TYPE>_<n>]`; the restoration scan
 recognises the grammar `\[PII_[A-Z_]+_\d+\]`. Each type has its own counter,
 and `getNextPlaceholder` raises that counter by one and renders the token
 with the new value.
 */
module Placeholder {
  import opened Strings

  const TokenPrefix: string := "[PII_"

  predicate IsTypeChar(c: char) {
    'A' <= c <= 'Z' || c == '_'
  }

  /** A type name the grammar accepts: `[A-Z_]+`. */
  predicate ValidTypeName(t: string) {
    |t| > 0 && forall i :: 0 <= i < |t| ==> IsTypeChar(t[i])
  }

  /** The characters a token may hold strictly between its brackets. */
  predicate IsTokenChar(c: char) {
    IsTypeChar(c) || IsDigit(c)
  }

  /** `s` reads "[PII_" + type + "_" + digits + "]", the separating underscore at index `k`. */
  predicate SplitsAt(s: string, k: int) {
    && 6 <= k && k + 2 < |s|
    && s[..5] == TokenPrefix
    && ValidTypeName(s[5..k])
    && s[k] == '_'
    && AllDigits(s[k + 1..|s| - 1])
    && s[|s| - 1] == ']'
  }

  /** `s` is matched in full by `\[PII_[A-Z_]+_\d+\]`. */
  predicate IsToken(s: string) {
    exists k | 6 <= k < |s| :: SplitsAt(s, k)
  }

  /** The template `[PII_${type}_${n}]`. */
  function MakeToken(typ: string, n: nat): string {
    TokenPrefix + typ + "_" + NatToString(n) + "]"
  }

  /** Where each part of a rendered token sits. */
  lemma MakeTokenParts(typ: string, n: nat)
    ensures var s := MakeToken(typ, n);
      && |s| == 7 + |typ| + |NatToString(n)|
      && s[..5] == TokenPrefix
      && s[5..5 + |typ|] == typ
      && s[5 + |typ|] == '_'
      && s[6 + |typ|..|s| - 1] == NatToString(n)
      && s[|s| - 1] == ']'
  {
  }

  /** Every rendered token of a valid type is in the grammar the restoration scan uses. */
  lemma MakeTokenIsToken(typ: string, n: nat)
    requires ValidTypeName(typ)
    ensures IsToken(MakeToken(typ, n))
  {
    MakeTokenParts(typ, n);
    assert SplitsAt(MakeToken(typ, n), 5 + |typ|);
  }

  /** A token opens with `[`, closes with `]`, and holds only `[A-Z_0-9]` in between. */
  lemma TokenShape(s: string)
    requires IsToken(s)
    ensures |s| >= 9 && s[0] == '[' && s[|s| - 1] == ']'
    ensures forall i :: 0 < i < |s| - 1 ==> IsTokenChar(s[i])
  {
    var k :| 6 <= k < |s| && SplitsAt(s, k);
    assert k + 2 < |s|;
    forall i | 0 < i < |s| - 1
      ensures IsTokenChar(s[i])
    {
      if i < 5 {
        assert s[i] == s[..5][i];
      } else if i < k {
        assert s[i] == s[5..k][i - 5];
      } else if i > k {
        assert s[i] == s[k + 1..|s| - 1][i - k - 1];
      }
    }
    assert s[0] == s[..5][0];
  }

  /** The shape of a token, for a string that may or may not be one. */
  lemma TokenShapeIf(s: string)
    ensures IsToken(s) ==> |s| >= 9 && s[0] == '[' && s[|s| - 1] == ']'
    ensures IsToken(s) ==> forall i :: 0 < i < |s| - 1 ==> IsTokenChar(s[i])
  {
    if IsToken(s) {
      TokenShape(s);
    }
  }

  /**
   No token occurs strictly inside another token: brackets appear only at a
   token's two ends, so a token found inside a token is that token.
   */
  lemma NoTokenInsideAnother(t: string, u: string, k: int)
    requires IsToken(t) && IsToken(u) && OccursAt(u, t, k)
    ensures k == 0 && t == u
  {
    TokenShape(t);
    TokenShape(u);
    assert u[k] == t[0];
    assert k == 0;
    assert u[|t| - 1] == t[|t| - 1];
    assert |t| == |u|;
    assert u == u[0..|t|];
  }

  /** Distinct (type, counter) pairs render distinct tokens. */
  lemma MakeTokenInjective(a: string, n: nat, b: string, m: nat)
    requires ValidTypeName(a) && ValidTypeName(b)
    requires MakeToken(a, n) == MakeToken(b, m)
    ensures a == b && n == m
  {
    var s := MakeToken(a, n);
    var da, db := NatToString(n), NatToString(m);
    MakeTokenParts(a, n);
    MakeTokenParts(b, m);
    if |da| != |db| {
      assert false;
    }
    assert |a| == |b|;
    assert da == db;
    NatToStringRoundTrip(n);
    NatToStringRoundTrip(m);
  }

  /** `piiCounters[type] || 0` */
  function Count(counters: map<string, nat>, typ: string): nat {
    if typ in counters then counters[typ] else 0
  }

  /**
   `getNextPlaceholder(type)`: raises the counter of `type` by one (from 0
   when absent) and renders the token with the new value.
   */
  function GetNextPlaceholder(counters: map<string, nat>, typ: string): (r: (map<string, nat>, string))
    ensures r.0.Keys == counters.Keys + {typ}
    ensures Count(r.0, typ) == Count(counters, typ) + 1
    ensures forall other :: other != typ ==> Count(r.0, other) == Count(counters, other)
    ensures r.1 == MakeToken(typ, Count(r.0, typ))
    ensures ValidTypeName(typ) ==> IsToken(r.1)
  {
    var n := Count(counters, typ) + 1;
    assert ValidTypeName(typ) ==> IsToken(MakeToken(typ, n)) by {
      if ValidTypeName(typ) {
        MakeTokenIsToken(typ, n);
      }
    }
    (counters[typ := n], MakeToken(typ, n))
  }
}
