/** The token shape texotip.js uses, "_=_" + n + "_=_", opens and closes with the
    same three characters. When the text between two neighbouring tokens is a
    token number, the closing "_=_" of the first token, that number and the
    opening "_=_" of the second one spell a third token, which the resolve pass
    then replaces. The corrected shape "_=_" + n + "_" has no such overlap. */
module Findings {
  import opened Strings
  import opened Tokens
  import opened Pieces
  import opened Engine

  /** A string shorter than the pattern does not contain it. */
  lemma ShortNoMatch(s: string, p: string)
    requires |s| < |p|
    ensures !Contains(s, p)
  {
  }

  lemma SourceTokens()
    ensures Token(Source, 0) == "_=_0_=_"
    ensures Token(Source, 1) == "_=_1_=_"
    ensures Token(Source, 2) == "_=_2_=_"
  {
    assert NatToString(0) == "0" && NatToString(1) == "1" && NatToString(2) == "2";
  }

  /** The shield passes turn [y, '0', z] into token 1, "0", token 2: x does
      not occur, y and z are replaced by their tokens. */
  lemma SourceShield(x: char, y: char, z: char)
    requires !IsTokenChar(x) && !IsTokenChar(y) && !IsTokenChar(z) && x != y && x != z && y != z
    ensures ShieldAll(Source, [y, '0', z], [[x], [y], [z]]) == Token(Source, 1) + "0" + Token(Source, 2)
  {
    var pats, html := [[x], [y], [z]], [y, '0', z];
    var t0, t1, t2 := Token(Source, 0), Token(Source, 1), Token(Source, 2);
    assert pats[..2][..1][..0] == [] && pats[..2][..1] == [[x]] && pats[..2] == [[x], [y]];
    assert html + [] == html;
    assert [y] + ['0', z] == html && ['0', z] + [] == ['0', z];
    TokenShape(Source, 1);
    assert z !in t1 + "0";
    assert t1 + "0" + [z] == t1 + ['0', z] && [z] + [] == [z] && t2 + [] == t2;
    ReplaceAllSkipChars(html, [], [x], t0);
    assert ShieldAll(Source, html, [[x]]) == html;
    ReplaceAllHead([y], ['0', z], t1);
    ReplaceAllSkipChars(['0', z], [], [y], t1);
    assert ShieldAll(Source, html, [[x], [y]]) == t1 + ['0', z];
    ReplaceAllSkipChars(t1 + "0", [z], [z], t2);
    ReplaceAllHead([z], [], t2);
  }

  /** Token 1, "0", token 2 spells token 0 across the boundary. */
  lemma SourceSpuriousToken()
    ensures Token(Source, 1) + "0" + Token(Source, 2) == "_=_1" + Token(Source, 0) + "2_=_"
  {
    SourceTokens();
  }

  /** A single occurrence of t, after a prefix in which it does not start and
      before a suffix too short to hold it, is the only one replaced. */
  lemma ReplaceMiddle(a: string, t: string, b: string, v: string)
    requires t != [] && |b| < |t|
    requires forall o :: 0 <= o < |a| ==> !OccursAt(a + (t + b), t, o)
    ensures ReplaceAll(a + t + b, t, v) == a + v + b
  {
    assert a + t + b == a + (t + b);
    ReplaceAllSkip(a, t + b, t, v);
    ReplaceAllHead(t, b, v);
    ShortNoMatch(b, t);
  }

  /** Token 0 does not start inside "_=_1", in either shape. */
  lemma NoEarlyToken(sch: Scheme, rest: string)
    ensures forall o :: 0 <= o < 4 ==> !OccursAt("_=_1" + (Token(sch, 0) + rest), Token(sch, 0), o)
  {
    var t0 := Token(sch, 0);
    TokenText(0);
    assert NatToString(0) == "0";
    var w := "_=_1" + (t0 + rest);
    forall o | 0 <= o < 4
      ensures !OccursAt(w, t0, o)
    {
      assert w[o + 3] != t0[3];
    }
  }

  /** Resolving token 0 replaces the copy that straddles tokens 1 and 2. */
  lemma SourceResolveFirst(v: string)
    ensures ReplaceAll("_=_1" + Token(Source, 0) + "2_=_", Token(Source, 0), v) == "_=_1" + v + "2_=_"
  {
    TokenShape(Source, 0);
    NoEarlyToken(Source, "2_=_");
    ReplaceMiddle("_=_1", Token(Source, 0), "2_=_", v);
  }

  /** Neither token 1 nor token 2 is left after that. */
  /** The only underscores of "_=_1" + v + "2_=_", for v without '_', are
      the four outside v. */
  lemma ResolvedUnderscore(v: string, i: nat)
    requires NoUnderscore(v) && i < |v| + 8
    ensures ("_=_1" + v + "2_=_")[i] == '_' <==> i == 0 || i == 2 || i == |v| + 5 || i == |v| + 7
  {
    var out := "_=_1" + v + "2_=_";
    if 4 <= i < |v| + 4 {
      assert out[i] == v[i - 4];
    }
  }

  lemma SourceNoneLeft(v: string, n: nat)
    requires NoUnderscore(v) && 1 <= n <= 2
    ensures !Contains("_=_1" + v + "2_=_", Token(Source, n))
  {
    var out, t := "_=_1" + v + "2_=_", Token(Source, n);
    SourceTokens();
    assert |t| == 7 && t[0] == '_' && t[2] == '_' && t[4] == '_';
    assert |out| == |v| + 8;
    forall o | 0 <= o <= |out|
      ensures !OccursAt(out, t, o)
    {
      if o + 7 <= |out| {
        ResolvedUnderscore(v, o);
        ResolvedUnderscore(v, o + 2);
        ResolvedUnderscore(v, o + 4);
        var w := out[o..o + 7];
        assert w[0] == out[o] && w[2] == out[o + 2] && w[4] == out[o + 4];
      }
    }
  }

  lemma CharSafe(c: char)
    requires !IsTokenChar(c)
    ensures Safe([c]) && NoUnderscore([c])
  {
    assert [c][0] == c;
  }

  /** Three values are resolved one token after the other. */
  lemma ResolveThree(sch: Scheme, s: string, v0: string, v1: string, v2: string)
    ensures ResolveAll(sch, s, [v0, v1, v2]) ==
      ReplaceAll(ReplaceAll(ReplaceAll(s, Token(sch, 0), v0), Token(sch, 1), v1), Token(sch, 2), v2)
  {
    ResolveAllSnoc(sch, s, [], v0);
    ResolveAllSnoc(sch, s, [v0], v1);
    ResolveAllSnoc(sch, s, [v0, v1], v2);
    assert [] + [v0] == [v0] && [v0] + [v1] == [v0, v1] && [v0, v1] + [v2] == [v0, v1, v2];
  }

  /** The input of SourceCorruptsOutput meets every assumption of CorrectedPipeline. */
  lemma ExampleQualifies(x: char, y: char, z: char, vx: string, vy: string, vz: string)
    requires !IsTokenChar(x) && !IsTokenChar(y) && !IsTokenChar(z)
    requires NoUnderscore(vx) && NoUnderscore(vy) && NoUnderscore(vz)
    ensures NoUnderscore([y, '0', z]) && AllSafe([[x], [y], [z]]) && AllNoUnderscore([vx, vy, vz])
  {
    var pats, vals := [[x], [y], [z]], [vx, vy, vz];
    forall j | 0 <= j < 3 ensures Safe(pats[j]) && NoUnderscore(vals[j]) {
      var c := if j == 0 then x else if j == 1 then y else z;
      assert pats[j] == [c];
      CharSafe(c);
    }
  }

  /** The container's markup is [y, '0', z]: two glossary terms with a digit
      between them. The marks of the rows x, y and z are vx, vy and vz, any
      markup without '_'.
      The input meets every assumption of CorrectedPipeline (ExampleQualifies),
      whose result is free of '_'. With the tokens of texotip.js the result is
      "_=_1" + vx + "2_=_": y and z are lost, and the mark of x, a term that
      does not occur, appears between two fragments of tokens. */
  lemma SourceCorruptsOutput(x: char, y: char, z: char, vx: string, vy: string, vz: string)
    requires !IsTokenChar(x) && !IsTokenChar(y) && !IsTokenChar(z) && x != y && x != z && y != z
    requires NoUnderscore(vx)
    ensures Pipeline(Source, [y, '0', z], [[x], [y], [z]], [vx, vy, vz]) == "_=_1" + vx + "2_=_"
  {
    SourceShield(x, y, z);
    SourceSpuriousToken();
    SourceResolveFirst(vx);
    SourceNoneLeft(vx, 1);
    SourceNoneLeft(vx, 2);
    ResolveThree(Source, "_=_1" + Token(Source, 0) + "2_=_", vx, vy, vz);
  }

  /** The same input leaves '_' in the output of texotip.js's tokens, but none
      with the corrected tokens. */
  lemma SourceDiffersFromCorrected(x: char, y: char, z: char, vx: string, vy: string, vz: string)
    requires !IsTokenChar(x) && !IsTokenChar(y) && !IsTokenChar(z) && x != y && x != z && y != z
    requires NoUnderscore(vx) && NoUnderscore(vy) && NoUnderscore(vz)
    ensures !NoUnderscore(Pipeline(Source, [y, '0', z], [[x], [y], [z]], [vx, vy, vz]))
    ensures NoUnderscore(Pipeline(Corrected, [y, '0', z], [[x], [y], [z]], [vx, vy, vz]))
  {
    SourceCorruptsOutput(x, y, z, vx, vy, vz);
    ExampleQualifies(x, y, z, vx, vy, vz);
    CorrectedPipeline([y, '0', z], [[x], [y], [z]], [vx, vy, vz]);
    assert ("_=_1" + vx + "2_=_")[0] == '_';
  }

  /** The smallest instance: "b0c" with the terms "a", "b", "c". */
  lemma SourceExample()
    ensures Pipeline(Source, "b0c", ["a", "b", "c"], ["A", "B", "C"]) == "_=_1A2_=_"
  {
    SourceCorruptsOutput('a', 'b', 'c', "A", "B", "C");
  }

  /** A one-character pattern that occurs once is replaced there and nowhere else. */
  lemma ReplaceLoneChar(a: string, c: char, b: string, t: string)
    requires c !in a && c !in b
    ensures ReplaceAll(a + [c] + b, [c], t) == a + t + b
  {
    assert a + [c] + b == a + ([c] + b);
    ReplaceAllSkipChars(a, [c] + b, [c], t);
    ReplaceAllHead([c], b, t);
    ReplaceAllSkipChars(b, [], [c], t);
    assert b + [] == b;
  }

  /** Three patterns are shielded one after the other. */
  lemma ShieldThree(sch: Scheme, s: string, p0: string, p1: string, p2: string)
    ensures ShieldAll(sch, s, [p0, p1, p2]) ==
      ReplaceAll(ReplaceAll(ReplaceAll(s, p0, Token(sch, 0)), p1, Token(sch, 1)), p2, Token(sch, 2))
  {
    ShieldAllSnoc(sch, s, [], p0);
    ShieldAllSnoc(sch, s, [p0], p1);
    ShieldAllSnoc(sch, s, [p0, p1], p2);
    assert [] + [p0] == [p0] && [p0] + [p1] == [p0, p1] && [p0, p1] + [p2] == [p0, p1, p2];
  }

  /** A pattern that does not occur in the rest of the markup is replaced
      once, at the front. */
  lemma ShieldFront(p: string, rest: string, t: string)
    requires p != [] && !Contains(rest, p)
    ensures ReplaceAll(p + rest, p, t) == t + rest
  {
    ReplaceAllHead(p, rest, t);
  }

  /** Behind token 0 the second anchor y is replaced, and nothing after it. */
  lemma ShieldSecondAnchor(y: string, rest: string, t1: string)
    requires Safe(y) && !Contains(rest, y)
    ensures ReplaceAll(Token(Source, 0) + (y + rest), y, t1) == Token(Source, 0) + (t1 + rest)
  {
    TokenWindow(Source, 0, y + rest, y);
    ReplaceAllSkip(Token(Source, 0), y + rest, y, t1);
    ShieldFront(y, rest, t1);
  }

  /** Behind tokens 0, 1 and the digit the third anchor z is replaced. */
  lemma ShieldThirdAnchor(z: string, t2: string)
    requires Safe(z) && z[0] != '0'
    ensures ReplaceAll(Token(Source, 0) + (Token(Source, 1) + ("0" + z)), z, t2) ==
      Token(Source, 0) + (Token(Source, 1) + ("0" + t2))
  {
    var t0, t1 := Token(Source, 0), Token(Source, 1);
    assert z + [] == z && t2 + [] == t2;
    assert z[0] !in "0";
    ShortNoMatch([], z);
    TokenWindow(Source, 0, t1 + ("0" + z), z);
    TokenWindow(Source, 1, "0" + z, z);
    ReplaceAllSkip(t0, t1 + ("0" + z), z, t2);
    ReplaceAllSkip(t1, "0" + z, z, t2);
    ReplaceAllSkipChars("0", z, z, t2);
    ReplaceAllHead(z, [], t2);
  }

  /** The anchors x, y and z of x + y + "0" + z become tokens 0, 1 and 2. */
  lemma SourceLinksShield(x: string, y: string, z: string)
    requires Safe(x) && Safe(y) && Safe(z) && z[0] != '0'
    requires !Contains(y + "0" + z, x) && !Contains("0" + z, y)
    ensures ShieldAll(Source, x + y + "0" + z, [x, y, z]) ==
      Token(Source, 0) + (Token(Source, 1) + ("0" + Token(Source, 2)))
  {
    var t0, t1, t2 := Token(Source, 0), Token(Source, 1), Token(Source, 2);
    assert x + y + "0" + z == x + (y + ("0" + z)) && y + "0" + z == y + ("0" + z);
    ShieldThree(Source, x + y + "0" + z, x, y, z);
    ShieldFront(x, y + ("0" + z), t0);
    ShieldSecondAnchor(y, "0" + z, t1);
    ShieldThirdAnchor(z, t2);
  }

  /** The first copy of token 0 is the anchor x; the second is the spurious one. */
  lemma SourceLinksResolveFirst(v: string)
    ensures ReplaceAll(Token(Source, 0) + ("_=_1" + Token(Source, 0) + "2_=_"), Token(Source, 0), v) ==
      v + ("_=_1" + v + "2_=_")
  {
    TokenShape(Source, 0);
    ReplaceAllHead(Token(Source, 0), "_=_1" + Token(Source, 0) + "2_=_", v);
    SourceResolveFirst(v);
  }

  /** The only underscores of x + "_=_1" + x + "2_=_", for x without '_',
      are the four outside the copies of x. */
  lemma LinksOutputUnderscore(x: string, i: nat)
    requires NoUnderscore(x) && i < 2 * |x| + 8
    ensures (x + ("_=_1" + x + "2_=_"))[i] == '_' <==>
      i == |x| || i == |x| + 2 || i == 2 * |x| + 5 || i == 2 * |x| + 7
  {
    var m, mid := |x|, "_=_1" + x + "2_=_";
    var out := x + mid;
    if i < m {
      assert out[i] == x[i];
    } else {
      assert out[i] == mid[i - m];
      if i - m >= 4 && i - m < m + 4 {
        assert mid[i - m] == x[i - m - 4];
      }
    }
  }

  /** Neither token 1 nor token 2 is left once token 0 is resolved. */
  lemma LinksNoneLeft(x: string, n: nat)
    requires NoUnderscore(x) && x != [] && 1 <= n <= 2
    ensures !Contains(x + ("_=_1" + x + "2_=_"), Token(Source, n))
  {
    var out, t := x + ("_=_1" + x + "2_=_"), Token(Source, n);
    SourceTokens();
    assert |t| == 7 && t[0] == '_' && t[2] == '_' && t[4] == '_';
    assert |out| == 2 * |x| + 8;
    forall o | 0 <= o <= |out|
      ensures !OccursAt(out, t, o)
    {
      if o + 7 <= |out| {
        LinksOutputUnderscore(x, o);
        LinksOutputUnderscore(x, o + 2);
        LinksOutputUnderscore(x, o + 4);
        var w := out[o..o + 7];
        assert w[0] == out[o] && w[2] == out[o + 2] && w[4] == out[o + 4];
      }
    }
  }

  /** The three tokens resolve to x + "_=_1" + x + "2_=_": both copies of
      token 0 become x, and tokens 1 and 2 are gone. */
  lemma SourceLinksResolve(x: string, v1: string, v2: string)
    requires NoUnderscore(x) && x != []
    ensures ResolveAll(Source, Token(Source, 0) + ("_=_1" + Token(Source, 0) + "2_=_"), [x, v1, v2]) ==
      x + ("_=_1" + x + "2_=_")
  {
    var t0 := Token(Source, 0);
    LinksNoneLeft(x, 1);
    LinksNoneLeft(x, 2);
    ResolveThree(Source, t0 + ("_=_1" + t0 + "2_=_"), x, v1, v2);
    SourceLinksResolveFirst(x);
  }

  /** With texotip.js's tokens even anchors alone are not written back
      unchanged: three anchors x, y and z in the container, a digit between
      the last two, and no glossary rows. The anchors are any element markup
      without '_' (outerHTML starts with '<'), each absent from what follows
      it. */
  lemma SourceLinksNotRestored(x: string, y: string, z: string)
    requires Safe(x) && Safe(y) && Safe(z) && z[0] != '0'
    requires !Contains(y + "0" + z, x) && !Contains("0" + z, y)
    ensures Pipeline(Source, x + y + "0" + z, [x, y, z], [x, y, z]) == x + ("_=_1" + x + "2_=_")
    ensures Pipeline(Source, x + y + "0" + z, [x, y, z], [x, y, z]) != x + y + "0" + z
  {
    var t0 := Token(Source, 0);
    var out := x + ("_=_1" + x + "2_=_");
    assert out[|x|] == '_';
    assert (x + y + "0" + z)[|x|] == y[0];
    SourceSpuriousToken();
    assert Token(Source, 1) + ("0" + Token(Source, 2)) == "_=_1" + t0 + "2_=_";
    SourceLinksShield(x, y, z);
    SourceLinksResolve(x, y, z);
  }

  /** With corrected tokens the same anchors come through unchanged. */
  lemma CorrectedLinksRestored(x: string, y: string, z: string)
    requires Safe(x) && Safe(y) && Safe(z)
    ensures Pipeline(Corrected, x + y + "0" + z, [x, y, z], [x, y, z]) == x + y + "0" + z
  {
    var html := x + y + "0" + z;
    assert NoUnderscore(html) by {
      forall i | 0 <= i < |html|
        ensures html[i] != '_'
      {
        if i < |x| {
          assert html[i] == x[i];
        } else if i < |x| + |y| {
          assert html[i] == y[i - |x|];
        } else if i > |x| + |y| {
          assert html[i] == z[i - |x| - |y| - 1];
        }
      }
    }
    var links := [x, y, z];
    assert AllSafe(links) by {
      forall j | 0 <= j < 3
        ensures Safe(links[j])
      {
      }
    }
    LinksRestored(html, links);
  }

  /** In y + rest the absent x leaves the markup alone and y is replaced. */
  lemma ShieldUnderscoreChars(x: char, y: char, rest: string, t0: string, t1: string)
    requires x != y && x !in rest && y !in rest
    ensures ReplaceAll(ReplaceAll([y] + rest, [x], t0), [y], t1) == t1 + rest
  {
    assert x !in [y] + rest;
    assert [y] + rest + [] == [y] + rest;
    assert [] + [y] + rest == [y] + rest && [] + t1 + rest == t1 + rest;
    ReplaceAllSkipChars([y] + rest, [], [x], t0);
    ReplaceLoneChar([], y, rest, t1);
  }

  lemma CorrectedTokens()
    ensures Token(Corrected, 0) == "_=_0_" && Token(Corrected, 1) == "_=_1_"
  {
    TokenText(0);
    TokenText(1);
    assert NatToString(0) == "0" && NatToString(1) == "1";
  }

  /** Shielding x and then y in y + "=_0_" gives "_=_1" + token 0. */
  lemma UnderscoreShield(x: char, y: char)
    requires !IsTokenChar(x) && !IsTokenChar(y) && x != y
    ensures ShieldAll(Corrected, [y, '=', '_', '0', '_'], [[x], [y]]) == "_=_1" + Token(Corrected, 0)
  {
    var html := [y, '=', '_', '0', '_'];
    assert html == [y] + "=_0_";
    assert x !in "=_0_" && y !in "=_0_";
    assert [] + [[x]] == [[x]] && [[x]] + [[y]] == [[x], [y]];
    CorrectedTokens();
    assert Token(Corrected, 1) + "=_0_" == "_=_1" + Token(Corrected, 0);
    ShieldAllSnoc(Corrected, html, [], [x]);
    ShieldAllSnoc(Corrected, html, [[x]], [y]);
    ShieldUnderscoreChars(x, y, "=_0_", Token(Corrected, 0), Token(Corrected, 1));
  }

  /** Token 0 at the end of "_=_1" + token 0 is replaced. */
  lemma UnderscoreResolveFirst(v: string)
    ensures ReplaceAll("_=_1" + Token(Corrected, 0), Token(Corrected, 0), v) == "_=_1" + v
  {
    var t0 := Token(Corrected, 0);
    TokenShape(Corrected, 0);
    NoEarlyToken(Corrected, []);
    assert t0 + [] == t0 && "_=_1" + t0 + [] == "_=_1" + t0;
    ReplaceMiddle("_=_1", t0, [], v);
    assert "_=_1" + v + [] == "_=_1" + v;
  }

  /** Token 1 does not occur in what is left. */
  lemma UnderscoreNoneLeft(c: char)
    requires !IsTokenChar(c)
    ensures !Contains("_=_1" + [c], Token(Corrected, 1))
  {
    var out, t1 := "_=_1" + [c], Token(Corrected, 1);
    TokenShape(Corrected, 1);
    forall o | 0 <= o <= |out| ensures !OccursAt(out, t1, o) {
      if o + |t1| <= |out| {
        assert out[o..o + |t1|][|t1| - 1] == c;
      }
    }
  }

  /** Why the correctness theorems assume markup without '_': a token and the
      text after it can spell another token even in the corrected shape. The
      markup y + "=_0_" holds no token, but once y is token 1 it reads
      "_=_1_=_0_", which contains token 0; resolving that token loses y. */
  lemma UnderscoreDefeatsCorrected(x: char, y: char, vx: char, vy: char)
    requires !IsTokenChar(x) && !IsTokenChar(y) && x != y && !IsTokenChar(vx) && !IsTokenChar(vy)
    ensures Pipeline(Corrected, [y, '=', '_', '0', '_'], [[x], [y]], [[vx], [vy]]) == "_=_1" + [vx]
  {
    var shielded := "_=_1" + Token(Corrected, 0);
    UnderscoreShield(x, y);
    ResolveAllSnoc(Corrected, shielded, [], [vx]);
    ResolveAllSnoc(Corrected, shielded, [[vx]], [vy]);
    assert [] + [[vx]] == [[vx]] && [[vx]] + [[vy]] == [[vx], [vy]];
    UnderscoreResolveFirst([vx]);
    UnderscoreNoneLeft(vx);
  }

  /** A pattern of one character that no piece holds is not found. */
  lemma {:induction false} ReplaceAbsentChar(ps: seq<Piece>, c: char, k: nat)
    requires Chr(c) !in ps
    ensures Replace(ps, [c], k) == ps
    decreases |ps|
  {
    if ps != [] {
      assert ps[..1] != Chrs([c]) by {
        assert ps[..1][0] == ps[0] != Chr(c) == Chrs([c])[0];
      }
      ReplaceAbsentChar(ps[1..], c, k);
      assert ps == [ps[0]] + ps[1..];
    }
  }

  lemma ReplaceHitChar(c: char, rest: seq<Piece>, k: nat)
    ensures Replace([Chr(c)] + rest, [c], k) == [Tok(k)] + Replace(rest, [c], k)
  {
    var ps := [Chr(c)] + rest;
    assert ps[..1] == [Chr(c)] == Chrs([c]);
    assert ps[1..] == rest;
  }

  lemma ReplaceMissChar(x: Piece, rest: seq<Piece>, c: char, k: nat)
    requires x != Chr(c)
    ensures Replace([x] + rest, [c], k) == [x] + Replace(rest, [c], k)
  {
    var ps := [x] + rest;
    assert ps[..1] != Chrs([c]) by {
      assert ps[..1][0] == x;
    }
    assert ps[1..] == rest;
  }

  /** Three patterns are shielded one after the other. */
  lemma ReplaceThree(ps: seq<Piece>, p0: string, p1: string, p2: string)
    ensures ReplaceEach(ps, [p0, p1, p2]) == Replace(Replace(Replace(ps, p0, 0), p1, 1), p2, 2)
  {
    var pats := [p0, p1, p2];
    assert pats[..2] == [p0, p1] && [p0, p1][..1] == [p0] && [p0][..0] == [];
    assert ReplaceEach(ps, [p0]) == Replace(ps, p0, 0);
    assert ReplaceEach(ps, [p0, p1]) == Replace(ReplaceEach(ps, [p0]), p1, 1);
  }

  /** Each of the two terms becomes its token, the digit stays a character. */
  lemma ExampleShielded(x: char, y: char, z: char)
    requires !IsTokenChar(x) && !IsTokenChar(y) && !IsTokenChar(z) && x != y && x != z && y != z
    ensures ReplaceEach(Chrs([y, '0', z]), [[x], [y], [z]]) == [Tok(1), Chr('0'), Tok(2)]
  {
    var ps := Chrs([y, '0', z]);
    var rest := [Chr('0'), Chr(z)];
    assert ps == [Chr(y)] + rest;
    ReplaceThree(ps, [x], [y], [z]);
    ReplaceAbsentChar(ps, x, 0);
    ReplaceHitChar(y, rest, 1);
    ReplaceAbsentChar(rest, y, 1);
    ReplaceMissChar(Tok(1), rest, z, 2);
    ReplaceMissChar(Chr('0'), [Chr(z)], z, 2);
    ReplaceHitChar(z, [], 2);
    assert [Chr('0')] + [Chr(z)] == rest && [Chr(z)] + [] == [Chr(z)];
    assert [Tok(1)] + ([Chr('0')] + ([Tok(2)] + [])) == [Tok(1), Chr('0'), Tok(2)];
  }

  /** With the corrected tokens the same input gives what the comments of
      texotip.js:150-154 promise: both terms replaced by their marks, the digit
      between them kept. */
  lemma CorrectedExample(x: char, y: char, z: char, vx: string, vy: string, vz: string)
    requires !IsTokenChar(x) && !IsTokenChar(y) && !IsTokenChar(z) && x != y && x != z && y != z
    requires NoUnderscore(vx) && NoUnderscore(vy) && NoUnderscore(vz)
    ensures Pipeline(Corrected, [y, '0', z], [[x], [y], [z]], [vx, vy, vz]) == vy + "0" + vz
  {
    ExampleQualifies(x, y, z, vx, vy, vz);
    CorrectedPipeline([y, '0', z], [[x], [y], [z]], [vx, vy, vz]);
    ExampleShielded(x, y, z);
    var qs := [Tok(1), Chr('0'), Tok(2)];
    assert qs[1..] == [Chr('0'), Tok(2)] && qs[1..][1..] == [Tok(2)] && qs[1..][1..][1..] == [];
    assert vy + (['0'] + (vz + [])) == vy + "0" + vz;
  }

  /** "b0c" with the corrected tokens becomes "B0C". */
  lemma CorrectedInstance()
    ensures Pipeline(Corrected, "b0c", ["a", "b", "c"], ["A", "B", "C"]) == "B0C"
  {
    CorrectedExample('a', 'b', 'c', "A", "B", "C");
  }

  // ---------------------------------------------------------------------
  // A glossary term made of a digit, in either token shape

  /** The anchor x becomes token 0, and the term "0" then replaces the digit
      inside that token by token 1. */
  lemma DigitTermShield(sch: Scheme, x: string)
    requires x != []
    ensures ShieldAll(sch, x, [x, "0"]) ==
      "_=_" + Token(sch, 1) + (if sch == Source then "_=_" else "_")
  {
    var c := if sch == Source then "_=_" else "_";
    var t0, t1 := Token(sch, 0), Token(sch, 1);
    TokenText(0);
    assert NatToString(0) == "0";
    assert t0 == "_=_" + ['0'] + c;
    assert '0' !in "_=_" && '0' !in c && x + [] == x && t0 + [] == t0 && "0" == ['0'];
    ShortNoMatch([], x);
    ShieldAllSnoc(sch, x, [], x);
    ShieldAllSnoc(sch, x, [x], "0");
    assert [] + [x] == [x] && [x] + ["0"] == [x, "0"];
    ReplaceAllHead(x, [], t0);
    assert ShieldAll(sch, x, [x]) == t0;
    ReplaceLoneChar("_=_", '0', c, t1);
  }

  /** What shielding leaves holds no '0', so token 0 is not found. */
  lemma DigitTermNoTokenZero(sch: Scheme)
    ensures !Contains("_=_" + Token(sch, 1) + (if sch == Source then "_=_" else "_"), Token(sch, 0))
  {
    var c := if sch == Source then "_=_" else "_";
    var t0, t1 := Token(sch, 0), Token(sch, 1);
    TokenText(0);
    TokenText(1);
    assert NatToString(0) == "0" && NatToString(1) == "1";
    var s := "_=_" + t1 + c;
    assert t0[3] == '0' && s == "_=__=_1" + c + c && '0' !in s;
    forall o | 0 <= o <= |s|
      ensures !OccursAt(s, t0, o)
    {
      if o + |t0| <= |s| {
        assert s[o..o + |t0|][3] == s[o + 3];
      }
    }
  }

  /** Token 1 does not start inside the leading "_=_". */
  lemma DigitTermTokenOneLate(sch: Scheme)
    ensures var c := if sch == Source then "_=_" else "_";
      forall o :: 0 <= o < 3 ==> !OccursAt("_=_" + (Token(sch, 1) + c), Token(sch, 1), o)
  {
    var c := if sch == Source then "_=_" else "_";
    var t1 := Token(sch, 1);
    TokenText(1);
    assert NatToString(1) == "1";
    var s := "_=_" + (t1 + c);
    assert t1 == "_=_1" + c && s == "_=__=_1" + c + c;
    forall o | 0 <= o < 3
      ensures !OccursAt(s, t1, o)
    {
      if o + |t1| <= |s| {
        var w := s[o..o + |t1|];
        assert w[0] == s[o] && w[1] == s[o + 1] && w[3] == s[o + 3];
      }
    }
  }

  /** Token 0 is no longer there to resolve, and token 1 is replaced by v. */
  lemma DigitTermResolve(sch: Scheme, x: string, v: string)
    ensures ResolveAll(sch, "_=_" + Token(sch, 1) + (if sch == Source then "_=_" else "_"), [x, v]) ==
      "_=_" + v + (if sch == Source then "_=_" else "_")
  {
    var c := if sch == Source then "_=_" else "_";
    var t1 := Token(sch, 1);
    var s := "_=_" + t1 + c;
    assert [] + [x] == [x] && [x] + [v] == [x, v];
    TokenShape(sch, 1);
    assert |t1| > |c|;
    DigitTermNoTokenZero(sch);
    DigitTermTokenOneLate(sch);
    ResolveAllSnoc(sch, s, [], x);
    ResolveAllSnoc(sch, s, [x], v);
    ReplaceMiddle("_=_", t1, c, v);
  }

  /** With either token shape, a glossary term "0" in a container holding
      only the anchor x loses the anchor: the term matches the digit inside
      the anchor's token, so the output is that term's mark between two
      fragments of tokens. Safe excludes such terms from the correctness
      theorems; no token shape avoids them, since every token holds its
      number. */
  lemma DigitTermLosesAnchor(sch: Scheme, x: string, v: string)
    requires x != []
    ensures Pipeline(sch, x, [x, "0"], [x, v]) == "_=_" + v + (if sch == Source then "_=_" else "_")
    ensures NoUnderscore(x) ==> Pipeline(sch, x, [x, "0"], [x, v]) != x
  {
    assert ("_=_" + v + (if sch == Source then "_=_" else "_"))[0] == '_';
    DigitTermShield(sch, x);
    DigitTermResolve(sch, x, v);
  }
}
