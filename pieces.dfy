/** The working string `edit` of prepareItemOutput (texotip.js:133-169) seen
    as a sequence of pieces: a character of the container's markup, or a
    token standing for a value recorded in `unique`. Every string the
    shield and substitute passes produce is the rendering of such a
    sequence; the lemmas below say how ReplaceAll on the string acts on the
    pieces. */
module Pieces {
  import opened Strings
  import opened Tokens

  datatype Piece = Chr(c: char) | Tok(n: nat)

  function PieceText(sch: Scheme, x: Piece): string {
    match x
    case Chr(c) => [c]
    case Tok(n) => Token(sch, n)
  }

  /** The string a piece sequence stands for. */
  function Render(sch: Scheme, ps: seq<Piece>): string
    decreases |ps|
  {
    if ps == [] then [] else PieceText(sch, ps[0]) + Render(sch, ps[1..])
  }

  function Chrs(s: string): (ps: seq<Piece>)
    ensures |ps| == |s| && forall i :: 0 <= i < |s| ==> ps[i] == Chr(s[i])
  {
    seq(|s|, i requires 0 <= i < |s| => Chr(s[i]))
  }

  /** No character piece is an underscore: every '_' of the rendering belongs to a token. */
  predicate Clean(ps: seq<Piece>) {
    forall i :: 0 <= i < |ps| ==> ps[i] != Chr('_')
  }

  predicate TokensBelow(ps: seq<Piece>, bound: nat) {
    forall i :: 0 <= i < |ps| && ps[i].Tok? ==> ps[i].n < bound
  }

  /** Every leftmost, non-overlapping run of character pieces spelling p becomes Tok(k). */
  function Replace(ps: seq<Piece>, p: string, k: nat): seq<Piece>
    decreases |ps|
  {
    if p != [] && |p| <= |ps| && ps[..|p|] == Chrs(p) then [Tok(k)] + Replace(ps[|p|..], p, k)
    else if ps == [] then []
    else [ps[0]] + Replace(ps[1..], p, k)
  }

  /** Replace for pats[0], pats[1], ... in order, pats[j] becoming Tok(j). */
  function ReplaceEach(ps: seq<Piece>, pats: seq<string>): seq<Piece>
    decreases |pats|
  {
    if pats == [] then ps
    else Replace(ReplaceEach(ps, pats[..|pats| - 1]), pats[|pats| - 1], |pats| - 1)
  }

  /** Every Tok(m) becomes the characters of v. */
  function Resolve(ps: seq<Piece>, m: nat, v: string): seq<Piece>
    decreases |ps|
  {
    if ps == [] then []
    else (if ps[0] == Tok(m) then Chrs(v) else [ps[0]]) + Resolve(ps[1..], m, v)
  }

  function PieceExpand(x: Piece, vals: seq<string>): seq<Piece> {
    if x.Tok? && x.n < |vals| then Chrs(vals[x.n]) else [x]
  }

  /** Every Tok(n) with n < |vals| becomes the characters of vals[n]. */
  function ExpandP(ps: seq<Piece>, vals: seq<string>): seq<Piece>
    decreases |ps|
  {
    if ps == [] then [] else PieceExpand(ps[0], vals) + ExpandP(ps[1..], vals)
  }

  function PieceValue(x: Piece, vals: seq<string>): string {
    match x
    case Chr(c) => [c]
    case Tok(n) => if n < |vals| then vals[n] else []
  }

  /** The intended output: each character kept, each token replaced by its value. */
  function Expand(ps: seq<Piece>, vals: seq<string>): string
    decreases |ps|
  {
    if ps == [] then [] else PieceValue(ps[0], vals) + Expand(ps[1..], vals)
  }

  // ---------------------------------------------------------------------
  // Structural facts

  lemma RenderCons(sch: Scheme, x: Piece, ys: seq<Piece>)
    ensures Render(sch, [x] + ys) == PieceText(sch, x) + Render(sch, ys)
  {
    ConsParts(x, ys);
  }

  lemma {:induction false} RenderConcat(sch: Scheme, a: seq<Piece>, b: seq<Piece>)
    ensures Render(sch, a + b) == Render(sch, a) + Render(sch, b)
    decreases |a|
  {
    if a == [] {
      assert a + b == b;
    } else {
      ConcatParts(a, b);
      RenderConcat(sch, a[1..], b);
      Assoc(PieceText(sch, a[0]), Render(sch, a[1..]), Render(sch, b));
    }
  }

  lemma {:induction false} RenderChrs(sch: Scheme, s: string)
    ensures Render(sch, Chrs(s)) == s
    decreases |s|
  {
    if s != [] {
      assert Chrs(s)[1..] == Chrs(s[1..]);
      RenderChrs(sch, s[1..]);
      assert s == [s[0]] + s[1..];
    }
  }

  lemma {:induction false} ExpandConcat(a: seq<Piece>, b: seq<Piece>, vals: seq<string>)
    ensures Expand(a + b, vals) == Expand(a, vals) + Expand(b, vals)
    decreases |a|
  {
    if a == [] {
      assert a + b == b;
    } else {
      ConcatParts(a, b);
      ExpandConcat(a[1..], b, vals);
      Assoc(PieceValue(a[0], vals), Expand(a[1..], vals), Expand(b, vals));
    }
  }

  lemma {:induction false} ExpandChrs(s: string, vals: seq<string>)
    ensures Expand(Chrs(s), vals) == s
    decreases |s|
  {
    if s != [] {
      assert Chrs(s)[1..] == Chrs(s[1..]);
      ExpandChrs(s[1..], vals);
      assert s == [s[0]] + s[1..];
    }
  }

  lemma {:induction false} ResolveConcat(a: seq<Piece>, b: seq<Piece>, m: nat, v: string)
    ensures Resolve(a + b, m, v) == Resolve(a, m, v) + Resolve(b, m, v)
    decreases |a|
  {
    if a == [] {
      assert a + b == b;
    } else {
      ConcatParts(a, b);
      ResolveConcat(a[1..], b, m, v);
      Assoc(if a[0] == Tok(m) then Chrs(v) else [a[0]], Resolve(a[1..], m, v), Resolve(b, m, v));
    }
  }

  lemma {:induction false} ResolveChrs(s: string, m: nat, v: string)
    ensures Resolve(Chrs(s), m, v) == Chrs(s)
    decreases |s|
  {
    if s != [] {
      assert Chrs(s)[1..] == Chrs(s[1..]);
      ResolveChrs(s[1..], m, v);
      assert Chrs(s) == [Chr(s[0])] + Chrs(s[1..]);
    }
  }

  lemma CleanChrs(s: string)
    requires NoUnderscore(s)
    ensures Clean(Chrs(s))
  {
  }

  lemma CleanConcat(a: seq<Piece>, b: seq<Piece>)
    requires Clean(a) && Clean(b)
    ensures Clean(a + b)
  {
    forall i | 0 <= i < |a + b| ensures (a + b)[i] != Chr('_') {
      if i >= |a| {
        assert (a + b)[i] == b[i - |a|];
      }
    }
  }

  // ---------------------------------------------------------------------
  // Reading the string back as pieces

  /** The first piece under a match of p is p's first character. */
  lemma FirstChr(sch: Scheme, ps: seq<Piece>, p: string)
    requires Clean(ps) && NoUnderscore(p) && p != []
    requires OccursAt(Render(sch, ps), p, 0)
    ensures ps != [] && ps[0] == Chr(p[0])
    ensures OccursAt(Render(sch, ps[1..]), p[1..], 0)
  {
    var w := Render(sch, ps);
    assert ps != [];
    assert w[0] == p[0];
    assert w == PieceText(sch, ps[0]) + Render(sch, ps[1..]);
    match ps[0]
    case Tok(n) =>
      // a token would put its '_' where p has none
      TokenShape(sch, n);
      assert false;
    case Chr(c) =>
      assert w[1..] == Render(sch, ps[1..]);
      assert w[1..][..|p| - 1] == w[..|p|][1..];
  }

  /** A string without '_' at the front of a clean rendering is spelled by
      character pieces: a token would put its '_' there. */
  lemma {:induction false} PrefixChrs(sch: Scheme, ps: seq<Piece>, p: string)
    requires Clean(ps) && NoUnderscore(p)
    requires OccursAt(Render(sch, ps), p, 0)
    ensures |p| <= |ps| && ps[..|p|] == Chrs(p)
    decreases |p|
  {
    if p != [] {
      FirstChr(sch, ps, p);
      PrefixChrs(sch, ps[1..], p[1..]);
      assert ps[..|p|] == [ps[0]] + ps[1..][..|p| - 1];
      assert Chrs(p) == [Chr(p[0])] + Chrs(p[1..]);
    }
  }

  /** A clean rendering never begins with '=', '_' and a digit: after a
      character '=', a '_' can only open a token, whose next character is '='. */
  lemma RenderHead(sch: Scheme, ps: seq<Piece>)
    requires Clean(ps)
    ensures var w := Render(sch, ps);
      !(|w| >= 3 && w[0] == '=' && w[1] == '_' && IsDigit(w[2]))
  {
    var w := Render(sch, ps);
    if ps != [] {
      assert w == PieceText(sch, ps[0]) + Render(sch, ps[1..]);
      match ps[0]
      case Tok(n) =>
        TokenShape(sch, n);
        assert w[0] == Token(sch, n)[0];
      case Chr(c) =>
        var u := Render(sch, ps[1..]);
        assert w == [c] + u;
        if c == '=' && |w| >= 3 && w[1] == '_' {
          assert u[0] == '_';
          var qs := ps[1..];
          assert u == PieceText(sch, qs[0]) + Render(sch, qs[1..]);
          assert qs[0] != Chr('_');
          match qs[0]
          case Chr(x) =>
            assert false;
          case Tok(m) =>
            TokenShape(sch, m);
            assert u[1] == Token(sch, m)[1] == '=';
        }
    }
  }

  // ---------------------------------------------------------------------
  // Shield and substitute passes

  lemma {:induction false} ReplaceStep(sch: Scheme, ps: seq<Piece>, p: string, k: nat)
    requires Clean(ps) && Safe(p)
    ensures ReplaceAll(Render(sch, ps), p, Token(sch, k)) == Render(sch, Replace(ps, p, k))
    ensures Clean(Replace(ps, p, k))
    decreases |ps|
  {
    var t := Token(sch, k);
    var w := Render(sch, ps);
    if |p| <= |ps| && ps[..|p|] == Chrs(p) {
      var rest := ps[|p|..];
      SplitAt(ps, |p|);
      RenderConcat(sch, ps[..|p|], rest);
      RenderChrs(sch, p);
      ReplaceAllHead(p, Render(sch, rest), t);
      ReplaceStep(sch, rest, p, k);
      RenderCons(sch, Tok(k), Replace(rest, p, k));
      CleanConcat([Tok(k)], Replace(rest, p, k));
    } else if ps != [] {
      var u := Render(sch, ps[1..]);
      assert w == PieceText(sch, ps[0]) + u;
      ReplaceStep(sch, ps[1..], p, k);
      RenderCons(sch, ps[0], Replace(ps[1..], p, k));
      CleanConcat([ps[0]], Replace(ps[1..], p, k));
      match ps[0]
      case Chr(c) =>
        if OccursAt(w, p, 0) {
          PrefixChrs(sch, ps, p);
          assert false;
        }
        ReplaceAllStep(w, p, t);
        ConsParts(c, u);
      case Tok(n) =>
        TokenWindow(sch, n, u, p);
        ReplaceAllSkip(Token(sch, n), u, p, t);
    }
  }

  lemma {:induction false} ReplaceTokens(ps: seq<Piece>, p: string, k: nat, bound: nat)
    requires TokensBelow(ps, bound) && k < bound
    ensures TokensBelow(Replace(ps, p, k), bound)
    decreases |ps|
  {
    if p != [] && |p| <= |ps| && ps[..|p|] == Chrs(p) {
      ReplaceTokens(ps[|p|..], p, k, bound);
    } else if ps != [] {
      ReplaceTokens(ps[1..], p, k, bound);
    }
  }

  /** Shielding p and then expanding Tok(k) to p gives back what expanding
      gave before: the replaced characters are exactly p. */
  lemma {:induction false} ExpandReplace(ps: seq<Piece>, p: string, k: nat, vals: seq<string>)
    requires k < |vals| && vals[k] == p
    ensures Expand(Replace(ps, p, k), vals) == Expand(ps, vals)
    decreases |ps|
  {
    if p != [] && |p| <= |ps| && ps[..|p|] == Chrs(p) {
      var rest := ps[|p|..];
      ExpandReplace(rest, p, k, vals);
      ConsParts(Tok(k), Replace(rest, p, k));
      SplitAt(ps, |p|);
      ExpandConcat(ps[..|p|], rest, vals);
      ExpandChrs(p, vals);
    } else if ps != [] {
      ExpandReplace(ps[1..], p, k, vals);
      ConsParts(ps[0], Replace(ps[1..], p, k));
    }
  }

  /** The leading character pieces of Replace(qs, p, k) come unchanged from qs. */
  lemma {:induction false} ReplaceChrPrefix(qs: seq<Piece>, p: string, k: nat, x: string)
    requires |x| <= |Replace(qs, p, k)| && Replace(qs, p, k)[..|x|] == Chrs(x)
    ensures |x| <= |qs| && qs[..|x|] == Chrs(x)
    decreases |x|
  {
    if x != [] {
      var r := Replace(qs, p, k);
      assert r[0] == Chr(x[0]);
      if p != [] && |p| <= |qs| && qs[..|p|] == Chrs(p) {
        ConsParts(Tok(k), Replace(qs[|p|..], p, k));
      } else {
        assert qs != [];
        ConsParts(qs[0], Replace(qs[1..], p, k));
        assert r[1..][..|x| - 1] == r[..|x|][1..];
        ReplaceChrPrefix(qs[1..], p, k, x[1..]);
        assert qs[..|x|] == [qs[0]] + qs[1..][..|x| - 1];
        assert Chrs(x) == [Chr(x[0])] + Chrs(x[1..]);
      }
    }
  }

  /** An occurrence in [c] + b starting at 0 gives the rest of the pattern at the front of b. */
  lemma OccursAfterHead(c: char, b: string, p: string)
    requires OccursAt([c] + b, p, 0) && p != []
    ensures p[0] == c && OccursAt(b, p[1..], 0)
  {
    assert ([c] + b)[1..] == b;
    assert ([c] + b)[..|p|][1..] == b[..|p| - 1];
  }

  /** An occurrence of p in [c] + b is at the front or inside b. */
  lemma ContainsAfterChar(c: char, b: string, p: string)
    requires Contains([c] + b, p)
    ensures OccursAt([c] + b, p, 0) || Contains(b, p)
  {
    var o :| 0 <= o <= |[c] + b| && OccursAt([c] + b, p, o);
    if o > 0 {
      OccursInSuffix([c], b, p, o);
    }
  }

  /** A Safe p occurs in token + b only where it occurs in b. */
  lemma AfterToken(sch: Scheme, n: nat, b: string, p: string)
    requires Safe(p)
    ensures Contains(Token(sch, n) + b, p) ==> Contains(b, p)
  {
    var t := Token(sch, n);
    TokenWindow(sch, n, b, p);
    if Contains(t + b, p) {
      var o :| 0 <= o <= |t + b| && OccursAt(t + b, p, o);
      OccursInSuffix(t, b, p, o);
      assert 0 <= o - |t| <= |b|;
    }
  }

  /** Character pieces spelling p render as an occurrence of p. */
  lemma PrefixOccurs(sch: Scheme, ps: seq<Piece>, p: string)
    requires |p| <= |ps| && ps[..|p|] == Chrs(p)
    ensures OccursAt(Render(sch, ps), p, 0)
  {
    SplitAt(ps, |p|);
    RenderConcat(sch, ps[..|p|], ps[|p|..]);
    RenderChrs(sch, p);
  }

  /** A front occurrence of p in c + Render(Replace(qs, q, k)) is spelled by
      character pieces of Chr(c) + qs already: Replace only adds tokens. */
  lemma FrontMatchLifts(sch: Scheme, c: char, qs: seq<Piece>, q: string, k: nat, p: string)
    requires Clean(Replace(qs, q, k)) && NoUnderscore(p) && p != []
    requires OccursAt([c] + Render(sch, Replace(qs, q, k)), p, 0)
    ensures |p| <= |qs| + 1 && ([Chr(c)] + qs)[..|p|] == Chrs(p)
  {
    var r := Replace(qs, q, k);
    OccursAfterHead(c, Render(sch, r), p);
    PrefixChrs(sch, r, p[1..]);
    ReplaceChrPrefix(qs, q, k, p[1..]);
    assert ([Chr(c)] + qs)[..|p|] == [Chr(c)] + qs[..|p| - 1];
    assert Chrs(p) == [Chr(p[0])] + Chrs(p[1..]);
  }

  /** After Replace(ps, p, k) the rendering holds no occurrence of p. */
  lemma {:induction false} ReplaceEliminates(sch: Scheme, ps: seq<Piece>, p: string, k: nat)
    requires Clean(ps) && Safe(p)
    ensures !Contains(Render(sch, Replace(ps, p, k)), p)
    decreases |ps|
  {
    if |p| <= |ps| && ps[..|p|] == Chrs(p) {
      var rest := ps[|p|..];
      ReplaceEliminates(sch, rest, p, k);
      RenderCons(sch, Tok(k), Replace(rest, p, k));
      AfterToken(sch, k, Render(sch, Replace(rest, p, k)), p);
    } else if ps != [] {
      var tail := Replace(ps[1..], p, k);
      ReplaceEliminates(sch, ps[1..], p, k);
      RenderCons(sch, ps[0], tail);
      match ps[0]
      case Tok(n) =>
        AfterToken(sch, n, Render(sch, tail), p);
      case Chr(c) =>
        var u := Render(sch, tail);
        if Contains([c] + u, p) {
          ContainsAfterChar(c, u, p);
          ReplaceStep(sch, ps[1..], p, k);
          assert [Chr(c)] + ps[1..] == ps;
          FrontMatchLifts(sch, c, ps[1..], p, k, p);
          assert false;
        }
    }
  }

  /** Replacing another Safe pattern never creates an occurrence of p. */
  lemma {:induction false} ReplaceKeepsAbsent(sch: Scheme, ps: seq<Piece>, q: string, k: nat, p: string)
    requires Clean(ps) && Safe(q) && Safe(p)
    requires !Contains(Render(sch, ps), p)
    ensures !Contains(Render(sch, Replace(ps, q, k)), p)
    decreases |ps|
  {
    if |q| <= |ps| && ps[..|q|] == Chrs(q) {
      var rest := ps[|q|..];
      SplitAt(ps, |q|);
      RenderConcat(sch, ps[..|q|], rest);
      if Contains(Render(sch, rest), p) {
        ContainsSuffix(Render(sch, ps[..|q|]), Render(sch, rest), p);
      }
      ReplaceKeepsAbsent(sch, rest, q, k, p);
      RenderCons(sch, Tok(k), Replace(rest, q, k));
      AfterToken(sch, k, Render(sch, Replace(rest, q, k)), p);
    } else if ps != [] {
      var tail := Replace(ps[1..], q, k);
      var w := Render(sch, ps);
      assert w == PieceText(sch, ps[0]) + Render(sch, ps[1..]);
      if Contains(Render(sch, ps[1..]), p) {
        ContainsSuffix(PieceText(sch, ps[0]), Render(sch, ps[1..]), p);
      }
      ReplaceKeepsAbsent(sch, ps[1..], q, k, p);
      RenderCons(sch, ps[0], tail);
      match ps[0]
      case Tok(n) =>
        AfterToken(sch, n, Render(sch, tail), p);
      case Chr(c) =>
        var u := Render(sch, tail);
        if Contains([c] + u, p) {
          ContainsAfterChar(c, u, p);
          ReplaceStep(sch, ps[1..], q, k);
          assert [Chr(c)] + ps[1..] == ps;
          FrontMatchLifts(sch, c, ps[1..], q, k, p);
          PrefixOccurs(sch, ps, p);
          assert false;
        }
    }
  }

  // ---------------------------------------------------------------------
  // Resolve pass, corrected token shape

  lemma {:induction false} ResolveStep(ps: seq<Piece>, m: nat, v: string)
    requires Clean(ps)
    ensures ReplaceAll(Render(Corrected, ps), Token(Corrected, m), v) ==
            Render(Corrected, Resolve(ps, m, v))
    decreases |ps|
  {
    var t := Token(Corrected, m);
    TokenShape(Corrected, m);
    if ps != [] {
      var u := Render(Corrected, ps[1..]);
      var w := Render(Corrected, ps);
      assert w == PieceText(Corrected, ps[0]) + u;
      ResolveStep(ps[1..], m, v);
      var tail := Resolve(ps[1..], m, v);
      assert Resolve(ps, m, v) == (if ps[0] == Tok(m) then Chrs(v) else [ps[0]]) + tail;
      if ps[0] == Tok(m) {
        ReplaceAllHead(t, u, v);
        RenderConcat(Corrected, Chrs(v), tail);
        RenderChrs(Corrected, v);
      } else {
        RenderCons(Corrected, ps[0], tail);
        match ps[0]
        case Chr(c) =>
          assert !OccursAt(w, t, 0) by {
            assert w[0] == c != t[0];
          }
          ReplaceAllStep(w, t, v);
          ConsParts(c, u);
        case Tok(n) =>
          RenderHead(Corrected, ps[1..]);
          CorrectedNoStraddle(n, m, u);
          ReplaceAllSkip(Token(Corrected, n), u, t, v);
      }
    }
  }

  lemma {:induction false} ResolveClean(ps: seq<Piece>, m: nat, v: string)
    requires Clean(ps) && NoUnderscore(v)
    ensures Clean(Resolve(ps, m, v))
    decreases |ps|
  {
    if ps != [] {
      ResolveClean(ps[1..], m, v);
      CleanConcat(if ps[0] == Tok(m) then Chrs(v) else [ps[0]], Resolve(ps[1..], m, v));
    }
  }

  /** Resolving Tok(k) after the tokens below k are expanded expands one more token. */
  lemma {:induction false} ResolveExpand(ps: seq<Piece>, vals: seq<string>, k: nat)
    requires k < |vals|
    ensures Resolve(ExpandP(ps, vals[..k]), k, vals[k]) == ExpandP(ps, vals[..k + 1])
    decreases |ps|
  {
    if ps != [] {
      ResolveExpand(ps[1..], vals, k);
      var head := PieceExpand(ps[0], vals[..k]);
      ResolveConcat(head, ExpandP(ps[1..], vals[..k]), k, vals[k]);
      match ps[0]
      case Chr(c) =>
        ConsParts(Chr(c), Resolve([], k, vals[k]));
      case Tok(n) =>
        if n < k {
          assert vals[..k][n] == vals[n] == vals[..k + 1][n];
          ResolveChrs(vals[n], k, vals[k]);
        } else {
          assert Resolve([Tok(n)], k, vals[k]) ==
                 (if n == k then Chrs(vals[k]) else [Tok(n)]) + Resolve([], k, vals[k]);
          assert vals[..k + 1][k] == vals[k];
        }
    }
  }

  lemma {:induction false} ExpandClean(ps: seq<Piece>, vals: seq<string>)
    requires Clean(ps) && forall j :: 0 <= j < |vals| ==> NoUnderscore(vals[j])
    ensures Clean(ExpandP(ps, vals))
    decreases |ps|
  {
    if ps != [] {
      ExpandClean(ps[1..], vals);
      CleanConcat(PieceExpand(ps[0], vals), ExpandP(ps[1..], vals));
    }
  }

  lemma ExpandNone(ps: seq<Piece>)
    ensures ExpandP(ps, []) == ps
    decreases |ps|
  {
    if ps != [] {
      ExpandNone(ps[1..]);
      ConsParts(ps[0], ps[1..]);
    }
  }

  /** Once every token is below |vals|, the expanded pieces render as Expand. */
  lemma {:induction false} RenderExpand(sch: Scheme, ps: seq<Piece>, vals: seq<string>)
    requires TokensBelow(ps, |vals|)
    ensures Render(sch, ExpandP(ps, vals)) == Expand(ps, vals)
    decreases |ps|
  {
    if ps != [] {
      RenderExpand(sch, ps[1..], vals);
      RenderConcat(sch, PieceExpand(ps[0], vals), ExpandP(ps[1..], vals));
      match ps[0]
      case Chr(c) =>
        RenderCons(sch, Chr(c), []);
      case Tok(n) =>
        RenderChrs(sch, vals[n]);
    }
  }

  // ---------------------------------------------------------------------
  // Several patterns

  /** Patterns and values that coincide expand back to what they shielded. */
  lemma {:induction false} ExpandReplaceEach(ps: seq<Piece>, pats: seq<string>, vals: seq<string>)
    requires |pats| <= |vals| && forall j :: 0 <= j < |pats| ==> vals[j] == pats[j]
    ensures Expand(ReplaceEach(ps, pats), vals) == Expand(ps, vals)
    decreases |pats|
  {
    if pats != [] {
      var n := |pats| - 1;
      ExpandReplaceEach(ps, pats[..n], vals);
      ExpandReplace(ReplaceEach(ps, pats[..n]), pats[n], n, vals);
    }
  }

  /** p occurs at the front of s exactly when the character pieces of s begin with those of p. */
  lemma ChrsPrefix(s: string, p: string)
    ensures OccursAt(s, p, 0) <==> |p| <= |s| && Chrs(s)[..|p|] == Chrs(p)
  {
    if |p| <= |s| && Chrs(s)[..|p|] == Chrs(p) {
      forall i | 0 <= i < |p| ensures s[i] == p[i] {
        assert Chrs(s)[..|p|][i] == Chrs(p)[i];
      }
      assert s[..|p|] == p;
    }
  }

  /** On plain characters, shielding one pattern and expanding its token
      is the plain replace-all. */
  lemma {:induction false} ReplaceChrs(s: string, p: string, r: string)
    requires p != []
    ensures Expand(Replace(Chrs(s), p, 0), [r]) == ReplaceAll(s, p, r)
    decreases |s|
  {
    var cs := Chrs(s);
    ChrsPrefix(s, p);
    if OccursAt(s, p, 0) {
      assert cs[|p|..] == Chrs(s[|p|..]);
      ReplaceChrs(s[|p|..], p, r);
      ConsParts(Tok(0), Replace(cs[|p|..], p, 0));
    } else if s != [] {
      ReplaceAllStep(s, p, r);
      assert cs[1..] == Chrs(s[1..]);
      ReplaceChrs(s[1..], p, r);
      ConsParts(Chr(s[0]), Replace(cs[1..], p, 0));
    }
  }

  lemma {:induction false} ExpandNoUnderscore(ps: seq<Piece>, vals: seq<string>)
    requires Clean(ps) && forall j :: 0 <= j < |vals| ==> NoUnderscore(vals[j])
    ensures NoUnderscore(Expand(ps, vals))
    decreases |ps|
  {
    if ps != [] {
      ExpandNoUnderscore(ps[1..], vals);
      var h, t := PieceValue(ps[0], vals), Expand(ps[1..], vals);
      assert NoUnderscore(h);
      forall i | 0 <= i < |h + t| ensures (h + t)[i] != '_' {
        if i >= |h| {
          assert (h + t)[i] == t[i - |h|];
        }
      }
    }
  }
}
