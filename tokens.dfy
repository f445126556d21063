/** The placeholder tokens of prepareItemOutput (texotip.js:144, texotip.js:160)
    and the decimal rendering of numbers they are built from. */
module Tokens {
  import opened Strings
  import opened RegExp

  predicate AllDigits(s: string) {
    forall i :: 0 <= i < |s| ==> IsDigit(s[i])
  }

  function DigitChar(d: nat): (c: char)
    requires d < 10
    ensures IsDigit(c)
  {
    ('0' as int + d) as char
  }

  function DigitValue(c: char): (d: nat)
    requires IsDigit(c)
    ensures d < 10 && DigitChar(d) == c
  {
    c as int - '0' as int
  }

  /** JavaScript's rendering of a non-negative integer in a string
      concatenation: decimal digits, no leading zeros. */
  function NatToString(n: nat): (r: string)
    ensures |r| >= 1 && AllDigits(r)
    decreases n
  {
    if n < 10 then [DigitChar(n)] else NatToString(n / 10) + [DigitChar(n % 10)]
  }

  /** Reads a string of decimal digits back as a number. */
  function ParseDecimal(s: string): nat
    requires AllDigits(s)
    decreases |s|
  {
    if s == [] then 0 else ParseDecimal(s[..|s| - 1]) * 10 + DigitValue(s[|s| - 1])
  }

  lemma {:induction false} ParseNatToString(n: nat)
    ensures ParseDecimal(NatToString(n)) == n
    decreases n
  {
    var s := NatToString(n);
    if n >= 10 {
      ParseNatToString(n / 10);
      assert s[..|s| - 1] == NatToString(n / 10);
    }
  }

  /** Different numbers are rendered differently. */
  lemma NatToStringInjective(m: nat, n: nat)
    requires NatToString(m) == NatToString(n)
    ensures m == n
  {
    ParseNatToString(m);
    ParseNatToString(n);
  }

  /** The two token shapes: the one texotip.js uses, "_=_" + n + "_=_", and a
      corrected one, "_=_" + n + "_", whose closing delimiter differs from its
      opening one. */
  datatype Scheme = Source | Corrected

  /** "_=_" + n + "_", the beginning both shapes share. */
  function Head(n: nat): string {
    "_=_" + NatToString(n) + "_"
  }

  lemma HeadShape(n: nat)
    ensures var h := Head(n);
      |h| == |NatToString(n)| + 4 &&
      h[0] == '_' && h[1] == '=' && h[2] == '_' && h[|h| - 1] == '_' &&
      forall i :: 3 <= i < |h| - 1 ==> h[i] == NatToString(n)[i - 3]
  {
  }

  function Token(sch: Scheme, n: nat): string {
    match sch
    case Source => Head(n) + "=_"
    case Corrected => Head(n)
  }

  /** The token numbered n: "_=_" + n + "_=_" as texotip.js:144 and
      texotip.js:160 build it, or "_=_" + n + "_" in the corrected shape. */
  lemma TokenText(n: nat)
    ensures Token(Source, n) == "_=_" + NatToString(n) + "_=_"
    ensures Token(Corrected, n) == "_=_" + NatToString(n) + "_"
  {
  }

  /** Both shapes begin with Head(n). */
  lemma TokenHead(sch: Scheme, n: nat)
    ensures |Head(n)| <= |Token(sch, n)| && Token(sch, n)[..|Head(n)|] == Head(n)
  {
  }

  predicate IsTokenChar(c: char) {
    c == '_' || c == '=' || IsDigit(c)
  }

  /** A pattern that can match only outside tokens: non-empty, no underscore,
      and at least one character that no token contains. The outerHTML of an
      element qualifies when it holds no '_' (it starts with '<'), and so does
      a glossary term without '_' that is not made of digits and '=' alone. */
  predicate Safe(s: string) {
    s != [] && NoUnderscore(s) && exists i :: 0 <= i < |s| && !IsTokenChar(s[i])
  }

  /** Every token starts with "_=", ends with '_' and holds only token characters. */
  lemma TokenShape(sch: Scheme, n: nat)
    ensures var t := Token(sch, n);
      |t| >= 5 && t[0] == '_' && t[1] == '=' && t[|t| - 1] == '_' &&
      forall i :: 0 <= i < |t| ==> IsTokenChar(t[i])
  {
    var t, h := Token(sch, n), Head(n);
    HeadShape(n);
    TokenHead(sch, n);
    forall i | 0 <= i < |t|
      ensures IsTokenChar(t[i])
    {
      if i < |h| {
        assert t[i] == h[i];
      }
    }
    assert t[0] == h[0] && t[1] == h[1];
  }

  /** If Head(m) starts inside the first |Head(n)| - 1 characters of a string
      beginning with Head(n), the two heads coincide: the digit strings are
      delimited on both sides by '_'. */
  lemma HeadAlignment(w: string, n: nat, t: string, m: nat, o: int)
    requires |Head(n)| <= |w| && w[..|Head(n)|] == Head(n)
    requires |Head(m)| <= |t| && t[..|Head(m)|] == Head(m)
    requires 0 <= o < |Head(n)| - 1
    requires OccursAt(w, t, o)
    ensures o == 0 && m == n
  {
    var hn, hm := Head(n), Head(m);
    HeadShape(n);
    HeadShape(m);
    var dn, dm := NatToString(n), NatToString(m);
    var a, b := |dn|, |dm|;
    assert forall i :: 0 <= i < |t| ==> w[o + i] == t[i] by {
      forall i | 0 <= i < |t| ensures w[o + i] == t[i] {
        assert w[o..o + |t|][i] == t[i];
      }
    }
    assert forall i :: 0 <= i < |hn| ==> w[i] == hn[i];
    assert forall i :: 0 <= i < |hm| ==> t[i] == hm[i];
    if o != 0 || a != b {
      // a '_' of one head would face a digit of the other
      assert false;
    } else {
      assert dn == dm by {
        forall i | 0 <= i < a ensures dn[i] == dm[i] {
          assert w[3 + i] == t[3 + i];
        }
      }
      NatToStringInjective(m, n);
    }
  }

  /** Tokens are pairwise distinct and none occurs inside another, in both shapes. */
  lemma TokensDistinct(sch: Scheme, m: nat, n: nat)
    requires m != n
    ensures Token(sch, m) != Token(sch, n)
    ensures !Contains(Token(sch, n), Token(sch, m))
  {
    var tn, tm := Token(sch, n), Token(sch, m);
    TokenHead(sch, n);
    TokenHead(sch, m);
    if Contains(tn, tm) {
      var o :| 0 <= o <= |tn| && OccursAt(tn, tm, o);
      assert |tn| - |Head(n)| == |tm| - |Head(m)|;
      HeadAlignment(tn, n, tm, m, o);
    }
    if tm == tn {
      assert OccursAt(tn, tm, 0);
    }
  }

  /** A Safe pattern never overlaps a token: whatever follows the token, no
      occurrence of the pattern starts inside it. */
  lemma TokenWindow(sch: Scheme, n: nat, rest: string, p: string)
    requires Safe(p)
    ensures forall o :: 0 <= o < |Token(sch, n)| ==> !OccursAt(Token(sch, n) + rest, p, o)
  {
    var t := Token(sch, n);
    var w := t + rest;
    TokenShape(sch, n);
    forall o | 0 <= o < |t|
      ensures !OccursAt(w, p, o)
    {
      // the character of p that no token holds, or else the token's
      // closing '_', lies inside the window and tells the two apart
      var q :| 0 <= q < |p| && !IsTokenChar(p[q]);
      if o + |p| <= |w| {
        if o + q < |t| {
          assert w[o..o + |p|][q] == t[o + q] != p[q];
        } else {
          assert w[o..o + |p|][|t| - 1 - o] == t[|t| - 1] != p[|t| - 1 - o];
        }
      }
    }
  }

  /** In the corrected shape, a token followed by anything that does not begin
      with '=', '_' and a digit contains no start of another token. */
  lemma CorrectedNoStraddle(n: nat, m: nat, rest: string)
    requires m != n
    requires !(|rest| >= 3 && rest[0] == '=' && rest[1] == '_' && IsDigit(rest[2]))
    ensures forall o :: 0 <= o < |Token(Corrected, n)| ==>
      !OccursAt(Token(Corrected, n) + rest, Token(Corrected, m), o)
  {
    var tn, tm := Token(Corrected, n), Token(Corrected, m);
    HeadShape(n);
    HeadShape(m);
    var w := tn + rest;
    forall o | 0 <= o < |tn|
      ensures !OccursAt(w, tm, o)
    {
      assert w[..|Head(n)|] == Head(n);
      if o < |tn| - 1 {
        if OccursAt(w, tm, o) {
          HeadAlignment(w, n, tm, m, o);
        }
      } else if o + |tm| <= |w| {
        // tm would need "=_" and a digit right after tn, at the start of rest
        assert w[o + 1] == rest[0] && w[o + 2] == rest[1] && w[o + 3] == rest[2];
        assert tm[1] == '=' && tm[2] == '_' && IsDigit(tm[3]) by {
          assert tm[3] == NatToString(m)[0];
        }
        if rest[0] == '=' && rest[1] == '_' {
          assert w[o..o + |tm|][3] == rest[2] != tm[3];
        } else if rest[0] != '=' {
          assert w[o..o + |tm|][1] == rest[0] != tm[1];
        } else {
          assert w[o..o + |tm|][2] == rest[1] != tm[2];
        }
      }
    }
  }

  /** Tokens contain no regular-expression metacharacter, so new RegExp(token, "g")
      matches the token literally. */
  lemma TokenIsLiteralPattern(sch: Scheme, n: nat)
    ensures RegExpLiteral(Token(sch, n)) == Some(Token(sch, n))
  {
    TokenShape(sch, n);
    var t := Token(sch, n);
    forall i | 0 <= i < |t| ensures !IsSpecial(t[i]) {
      assert IsTokenChar(t[i]);
    }
    PlainIsLiteral(t);
  }
}
