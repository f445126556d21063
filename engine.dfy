/** prepareItemOutput (texotip.js:133-169): the glossary terms of the container's
    markup are wrapped in tooltip markup, while the markup of the anchors and
    images already inside it is left alone. It works in three passes over the
    markup: it shields every anchor and image, then every term, behind a
    numbered token, and then puts the recorded value of every token back in
    place. */
module Engine {
  import opened Strings
  import opened RegExp
  import opened Tokens
  import opened Pieces
  import opened Items

  /** The shield and substitute passes: pats[0], pats[1], ... in that order,
      each replaced everywhere by its own token. */
  function ShieldAll(sch: Scheme, s: string, pats: seq<string>): string
    decreases |pats|
  {
    if pats == [] then s
    else ReplaceAll(ShieldAll(sch, s, pats[..|pats| - 1]), pats[|pats| - 1], Token(sch, |pats| - 1))
  }

  /** The resolve pass: the tokens numbered 0, 1, ... in that order, each
      replaced everywhere by its value. */
  function ResolveAll(sch: Scheme, s: string, vals: seq<string>): string
    decreases |vals|
  {
    if vals == [] then s
    else ReplaceAll(ResolveAll(sch, s, vals[..|vals| - 1]), Token(sch, |vals| - 1), vals[|vals| - 1])
  }

  /** What the three passes leave: pats are the anchors' markup and then the
      terms, vals the anchors' markup and then the terms' tooltip markup. */
  function Pipeline(sch: Scheme, html: string, pats: seq<string>, vals: seq<string>): string {
    ResolveAll(sch, ShieldAll(sch, html, pats), vals)
  }

  /** The text of every glossary row, in order. */
  function Keys(data: seq<Entry>): (ks: seq<string>)
    ensures |ks| == |data|
    decreases |data|
  {
    if data == [] then [] else Keys(data[..|data| - 1]) + [data[|data| - 1].text]
  }

  /** The tooltip markup of every row, built by itemHtml from the row and its
      row number. */
  function Values(data: seq<Entry>, itemHtml: (Entry, nat) -> string): (vs: seq<string>)
    ensures |vs| == |data|
    decreases |data|
  {
    if data == [] then []
    else
      var n := |data| - 1;
      Values(data[..n], itemHtml) + [itemHtml(data[n], n)]
  }

  /** Row i contributes its text and its markup at position i. */
  lemma {:induction false} RowAt(data: seq<Entry>, itemHtml: (Entry, nat) -> string, i: nat)
    requires i < |data|
    ensures Keys(data)[i] == data[i].text && Values(data, itemHtml)[i] == itemHtml(data[i], i)
    decreases |data|
  {
    var n := |data| - 1;
    if i < n {
      RowAt(data[..n], itemHtml, i);
    }
  }

  /** The same after the n patterns and values of the first pass. */
  lemma RowsAfter(pats: seq<string>, vals: seq<string>, data: seq<Entry>, itemHtml: (Entry, nat) -> string, n: nat)
    requires n == |pats| == |vals|
    ensures |pats + Keys(data)| == |vals + Values(data, itemHtml)| == n + |data|
    ensures forall j :: 0 <= j < |data| ==> (pats + Keys(data))[n + j] == data[j].text
    ensures forall j :: 0 <= j < |data| ==> (vals + Values(data, itemHtml))[n + j] == itemHtml(data[j], j)
    ensures (pats + Keys(data))[..n] == pats && (vals + Values(data, itemHtml))[..n] == vals
  {
    forall j | 0 <= j < |data|
      ensures (pats + Keys(data))[n + j] == data[j].text
      ensures (vals + Values(data, itemHtml))[n + j] == itemHtml(data[j], j)
    {
      RowAt(data, itemHtml, j);
    }
    TakeSplit(pats, Keys(data));
    TakeSplit(vals, Values(data, itemHtml));
  }

  predicate AllSafe(pats: seq<string>) {
    forall j :: 0 <= j < |pats| ==> Safe(pats[j])
  }

  predicate AllNoUnderscore(vals: seq<string>) {
    forall j :: 0 <= j < |vals| ==> NoUnderscore(vals[j])
  }

  /** One more pattern is one more replace-all after the others. */
  lemma ShieldAllSnoc(sch: Scheme, html: string, pats: seq<string>, x: string)
    ensures ShieldAll(sch, html, pats + [x]) == ReplaceAll(ShieldAll(sch, html, pats), x, Token(sch, |pats|))
  {
    assert (pats + [x])[..|pats|] == pats;
  }

  lemma ResolveAllSnoc(sch: Scheme, s: string, vals: seq<string>, v: string)
    ensures ResolveAll(sch, s, vals + [v]) == ReplaceAll(ResolveAll(sch, s, vals), Token(sch, |vals|), v)
  {
    assert (vals + [v])[..|vals|] == vals;
  }

  /** The state of prepareItemOutput once the first n patterns have been
      shielded: edit is the markup with those n patterns behind their tokens,
      order lists tokens 0 .. n - 1 in the order they were added, and unique
      records value vals[j] under token j. */
  predicate Shielded(sch: Scheme, html: string, pats: seq<string>, vals: seq<string>, n: nat,
                     edit: string, order: seq<string>, unique: map<string, string>)
  {
    n <= |pats| && n <= |vals| && edit == ShieldAll(sch, html, pats[..n]) &&
    order == TokenList(sch, n) && unique == Dictionary(sch, vals[..n])
  }

  /** Once position n reaches the end, the prefixes are the whole sequences. */
  lemma WholePrefix(sch: Scheme, html: string, pats: seq<string>, vals: seq<string>, n: nat,
                    edit: string, order: seq<string>, unique: map<string, string>)
    requires n == |pats| == |vals| && Shielded(sch, html, pats, vals, n, edit, order, unique)
    ensures edit == ShieldAll(sch, html, pats)
    ensures order == TokenList(sch, |pats|) && unique == Dictionary(sch, vals)
  {
    assert pats[..n] == pats;
    assert vals[..n] == vals;
  }

  /** The first n tokens, in order. */
  function TokenList(sch: Scheme, n: nat): seq<string> {
    if n == 0 then [] else TokenList(sch, n - 1) + [Token(sch, n - 1)]
  }

  lemma {:induction false} TokenListAt(sch: Scheme, n: nat, j: nat)
    requires j < n
    ensures |TokenList(sch, n)| == n && TokenList(sch, n)[j] == Token(sch, j)
    decreases n
  {
    var init := TokenList(sch, n - 1);
    assert TokenList(sch, n) == init + [Token(sch, n - 1)];
    TokenListLength(sch, n - 1);
    if j < n - 1 {
      TokenListAt(sch, n - 1, j);
      assert (init + [Token(sch, n - 1)])[j] == init[j];
    }
  }

  lemma {:induction false} TokenListLength(sch: Scheme, n: nat)
    ensures |TokenList(sch, n)| == n
    decreases n
  {
    if n > 0 {
      TokenListLength(sch, n - 1);
    }
  }

  /** The dictionary `unique` of prepareItemOutput after vals have been
      recorded under tokens 0, 1, ... */
  function Dictionary(sch: Scheme, vals: seq<string>): map<string, string>
    decreases |vals|
  {
    if vals == [] then map[]
    else Dictionary(sch, vals[..|vals| - 1])[Token(sch, |vals| - 1) := vals[|vals| - 1]]
  }

  /** Token j holds vals[j]: no later token overwrites it. */
  lemma {:induction false} DictionaryAt(sch: Scheme, vals: seq<string>, j: nat)
    requires j < |vals|
    ensures Token(sch, j) in Dictionary(sch, vals) && Dictionary(sch, vals)[Token(sch, j)] == vals[j]
    decreases |vals|
  {
    var n := |vals| - 1;
    if j < n {
      DictionaryAt(sch, vals[..n], j);
      TokensDistinct(sch, j, n);
    }
  }

  /** No later token is a key yet. */
  lemma {:induction false} DictionaryFresh(sch: Scheme, vals: seq<string>, n: nat)
    requires |vals| <= n
    ensures Token(sch, n) !in Dictionary(sch, vals)
    decreases |vals|
  {
    if vals != [] {
      var m := |vals| - 1;
      DictionaryFresh(sch, vals[..m], n);
      TokensDistinct(sch, m, n);
    }
  }

  /** Recording one more value adds one new key at the end of the key order. */
  lemma RecordAdd(sch: Scheme, vals: seq<string>, n: nat)
    requires n < |vals|
    ensures Token(sch, n) !in Dictionary(sch, vals[..n])
    ensures Dictionary(sch, vals[..n + 1]) == Dictionary(sch, vals[..n])[Token(sch, n) := vals[n]]
    ensures TokenList(sch, n + 1) == TokenList(sch, n) + [Token(sch, n)]
  {
    assert vals[..n + 1][..n] == vals[..n];
    DictionaryFresh(sch, vals[..n], n);
  }

  /** The body both shield loops share (texotip.js:142-147 and 156-162):
      value is recorded under token n, appended to the key order when that
      token is new, and the leftmost non-overlapping occurrences of key in the
      markup are replaced by the token, through a global regular expression
      built from the escaped key. pats and vals list everything shielded and recorded so far and
      next. */
  method RecordAndShield(sch: Scheme, ghost html: string, ghost pats: seq<string>, ghost vals: seq<string>,
                         n: nat, key: string, value: string,
                         edit0: string, order0: seq<string>, unique0: map<string, string>)
    returns (edit: string, order: seq<string>, unique: map<string, string>)
    requires n < |pats| && n < |vals| && key == pats[n] && value == vals[n]
    requires Shielded(sch, html, pats, vals, n, edit0, order0, unique0)
    ensures Shielded(sch, html, pats, vals, n + 1, edit, order, unique)
  {
    EscapeRoundTrip(key);
    var regexp := RegExpLiteral(EscapeRegExp(key));
    var uniqueToken := Token(sch, n);
    RecordAdd(sch, vals, n);
    order, unique := order0, unique0;
    if uniqueToken !in unique {
      order := order + [uniqueToken];
    }
    unique := unique[uniqueToken := value];
    edit := ReplaceAll(edit0, regexp.value, uniqueToken);
    TakeSnoc(pats, n);
    ShieldAllSnoc(sch, html, pats[..n], key);
  }

  /** The first pass of prepareItemOutput (texotip.js:140-148): the outerHTML
      of every anchor and image, in document order, is recorded under the
      next token and its leftmost non-overlapping occurrences in the markup are
      replaced by that token. */
  method ShieldLinks(sch: Scheme, html: string, links: seq<string>)
    returns (edit: string, numLinks: nat, order: seq<string>, unique: map<string, string>)
    ensures edit == ShieldAll(sch, html, links)
    ensures numLinks == |links| && order == TokenList(sch, numLinks) && unique == Dictionary(sch, links)
  {
    unique := map[];
    order := [];
    edit := html;
    numLinks := 0;
    assert links[..0] == [];
    while numLinks < |links|
      invariant 0 <= numLinks <= |links|
      invariant Shielded(sch, html, links, links, numLinks, edit, order, unique)
    {
      var value := links[numLinks];
      edit, order, unique := RecordAndShield(sch, html, links, links, numLinks, value, value, edit, order, unique);
      numLinks := numLinks + 1;
    }
    WholePrefix(sch, html, links, links, numLinks, edit, order, unique);
  }

  /** The second pass (texotip.js:155-163): for row i of the glossary its
      tooltip markup is recorded under token numLinks + i and the leftmost
      non-overlapping occurrences of its text are replaced by that token. allPats and allVals list what all
      of the passes shield and record: the first numLinks of them come from the
      first pass, and row i contributes its text and its markup at numLinks + i. */
  method ShieldTerms(sch: Scheme, ghost html: string, edit0: string, numLinks: nat,
                     order0: seq<string>, unique0: map<string, string>,
                     data: seq<Entry>, itemHtml: (Entry, nat) -> string,
                     ghost allPats: seq<string>, ghost allVals: seq<string>)
    returns (edit: string, order: seq<string>, unique: map<string, string>)
    requires |allPats| == |allVals| == numLinks + |data|
    requires forall j :: 0 <= j < |data| ==> allPats[numLinks + j] == data[j].text
    requires forall j :: 0 <= j < |data| ==> allVals[numLinks + j] == itemHtml(data[j], j)
    requires edit0 == ShieldAll(sch, html, allPats[..numLinks])
    requires order0 == TokenList(sch, numLinks) && unique0 == Dictionary(sch, allVals[..numLinks])
    ensures edit == ShieldAll(sch, html, allPats)
    ensures order == TokenList(sch, |allPats|)
    ensures unique == Dictionary(sch, allVals)
  {
    edit, order, unique := edit0, order0, unique0;
    var i := 0;
    ghost var n := numLinks;
    while i < |data|
      invariant 0 <= i <= |data| && n == numLinks + i
      invariant Shielded(sch, html, allPats, allVals, n, edit, order, unique)
    {
      var key := data[i].text;
      var value := itemHtml(data[i], i);
      assert key == allPats[n] && value == allVals[n];
      edit, order, unique := RecordAndShield(sch, html, allPats, allVals, numLinks + i, key, value,
                                             edit, order, unique);
      i, n := i + 1, n + 1;
    }
    WholePrefix(sch, html, allPats, allVals, n, edit, order, unique);
  }

  /** The third pass (texotip.js:164-167): the keys of unique are visited in
      the order they were added and the leftmost non-overlapping occurrences of
      each are replaced by its recorded value. */
  method ResolveTokens(sch: Scheme, edit0: string, order: seq<string>, unique: map<string, string>,
                       ghost vals: seq<string>)
    returns (edit: string)
    requires order == TokenList(sch, |vals|) && unique == Dictionary(sch, vals)
    ensures edit == ResolveAll(sch, edit0, vals)
  {
    edit := edit0;
    TokenListLength(sch, |vals|);
    var k := 0;
    while k < |order|
      invariant 0 <= k <= |order|
      invariant edit == ResolveAll(sch, edit0, vals[..k])
    {
      var uniqueToken := order[k];
      TokenListAt(sch, |vals|, k);
      DictionaryAt(sch, vals, k);
      TokenIsLiteralPattern(sch, k);
      var regexp := RegExpLiteral(uniqueToken);
      edit := ReplaceAll(edit, regexp.value, unique[uniqueToken]);
      TakeSnoc(vals, k);
      ResolveAllSnoc(sch, edit0, vals[..k], vals[k]);
      k := k + 1;
    }
    TakeAll(vals);
  }

  /** prepareItemOutput (texotip.js:133-169). html is the container's markup,
      links the outerHTML of its anchors and images in document order, data
      the glossary rows; the result is the markup written back into the
      container. sch is the token shape: Source is the one texotip.js uses. */
  method PrepareItemOutput(sch: Scheme, html: string, links: seq<string>, data: seq<Entry>,
                           settings: Settings, serialize: ItemElement -> string)
    returns (out: string)
    ensures out == Pipeline(sch, html, links + Keys(data), links + Values(data, GetItemHtml(settings, serialize)))
  {
    var itemHtml := GetItemHtml(settings, serialize);
    var edit, numLinks, order, unique := ShieldLinks(sch, html, links);
    ghost var pats, vals := links + Keys(data), links + Values(data, itemHtml);
    RowsAfter(links, links, data, itemHtml, numLinks);
    edit, order, unique := ShieldTerms(sch, html, edit, numLinks, order, unique, data, itemHtml, pats, vals);
    out := ResolveTokens(sch, edit, order, unique, vals);
  }

  // ---------------------------------------------------------------------
  // What the passes compute

  /** The shield passes act on pieces: the markup's characters with every
      occurrence of every pattern turned into its token. */
  lemma {:induction false} ShieldPieces(sch: Scheme, html: string, pats: seq<string>)
    requires NoUnderscore(html) && AllSafe(pats)
    ensures ShieldAll(sch, html, pats) == Render(sch, ReplaceEach(Chrs(html), pats))
    ensures Clean(ReplaceEach(Chrs(html), pats))
    ensures TokensBelow(ReplaceEach(Chrs(html), pats), |pats|)
    decreases |pats|
  {
    if pats == [] {
      RenderChrs(sch, html);
      CleanChrs(html);
    } else {
      var n := |pats| - 1;
      var init := pats[..n];
      ShieldPieces(sch, html, init);
      var ps := ReplaceEach(Chrs(html), init);
      ReplaceStep(sch, ps, pats[n], n);
      ReplaceTokens(ps, pats[n], n, |pats|);
    }
  }

  /** With corrected tokens, resolving the first k tokens expands exactly those. */
  lemma {:induction false} ResolvePieces(ps: seq<Piece>, vals: seq<string>, k: nat)
    requires Clean(ps) && AllNoUnderscore(vals) && k <= |vals|
    ensures ResolveAll(Corrected, Render(Corrected, ps), vals[..k]) ==
            Render(Corrected, ExpandP(ps, vals[..k]))
    decreases k
  {
    if k == 0 {
      ExpandNone(ps);
    } else {
      ResolvePieces(ps, vals, k - 1);
      assert vals[..k][..k - 1] == vals[..k - 1];
      ExpandClean(ps, vals[..k - 1]);
      ResolveStep(ExpandP(ps, vals[..k - 1]), k - 1, vals[k - 1]);
      ResolveExpand(ps, vals, k - 1);
    }
  }

  /** With corrected tokens the passes do what the comments of texotip.js:150-154
      promise. Each pattern in list order replaces its leftmost, non-overlapping
      occurrences outside text an earlier pattern already replaced. A value is
      never searched again, and no token is left. */
  lemma CorrectedPipeline(html: string, pats: seq<string>, vals: seq<string>)
    requires NoUnderscore(html) && AllSafe(pats) && AllNoUnderscore(vals) && |pats| == |vals|
    ensures Pipeline(Corrected, html, pats, vals) == Expand(ReplaceEach(Chrs(html), pats), vals)
    ensures NoUnderscore(Pipeline(Corrected, html, pats, vals))
  {
    ShieldPieces(Corrected, html, pats);
    var ps := ReplaceEach(Chrs(html), pats);
    ResolvePieces(ps, vals, |vals|);
    assert vals[..|vals|] == vals;
    RenderExpand(Corrected, ps, vals);
    ExpandNoUnderscore(ps, vals);
  }

  /** No token of either shape survives the corrected passes. */
  lemma CorrectedLeavesNoToken(html: string, pats: seq<string>, vals: seq<string>, sch: Scheme, n: nat)
    requires NoUnderscore(html) && AllSafe(pats) && AllNoUnderscore(vals) && |pats| == |vals|
    ensures !Contains(Pipeline(Corrected, html, pats, vals), Token(sch, n))
  {
    CorrectedPipeline(html, pats, vals);
    var out := Pipeline(Corrected, html, pats, vals);
    TokenShape(sch, n);
  }

  /** With corrected tokens, anchors and images come through untouched: with
      no glossary rows the container's markup is written back unchanged. With
      the tokens of texotip.js this fails (Findings.SourceLinksNotRestored). */
  lemma LinksRestored(html: string, links: seq<string>)
    requires NoUnderscore(html) && AllSafe(links)
    ensures Pipeline(Corrected, html, links, links) == html
  {
    CorrectedPipeline(html, links, links);
    ExpandReplaceEach(Chrs(html), links, links);
    ExpandChrs(html, links);
  }

  /** With corrected tokens, one term and no anchors, the passes amount to a
      global replace of the term. */
  lemma SingleTermIsReplaceAll(html: string, key: string, value: string)
    requires NoUnderscore(html) && Safe(key) && NoUnderscore(value)
    ensures Pipeline(Corrected, html, [key], [value]) == ReplaceAll(html, key, value)
  {
    CorrectedPipeline(html, [key], [value]);
    assert [key][..0] == [];
    ReplaceChrs(html, key, value);
  }

  /** After the shield passes, in either token shape, no pattern occurs in the
      markup any more: every anchor and every term is behind a token. */
  lemma {:induction false} ShieldEliminates(sch: Scheme, html: string, pats: seq<string>, j: nat)
    requires NoUnderscore(html) && AllSafe(pats) && j < |pats|
    ensures !Contains(ShieldAll(sch, html, pats), pats[j])
    decreases |pats|
  {
    var n := |pats| - 1;
    var init := pats[..n];
    ShieldPieces(sch, html, init);
    ShieldPieces(sch, html, pats);
    var ps := ReplaceEach(Chrs(html), init);
    if j == n {
      ReplaceEliminates(sch, ps, pats[n], n);
    } else {
      ShieldEliminates(sch, html, init, j);
      ReplaceKeepsAbsent(sch, ps, pats[n], n, pats[j]);
    }
  }
}
