# texotip: the glossary substitution core

texotip is a jQuery plugin. It reads a glossary of terms from a JSON file
and, inside a container element, wraps the occurrences of its terms in
tooltip markup. The tooltip text and an optional link come from the
glossary row. Anchors and images already in the container are meant to be
left alone (see "## Findings").

This project models the string processing behind that in Dafny:

- `prepareItemOutput` works in three passes over the container's markup:
  - it shields every anchor and image behind a numbered token;
  - it substitutes every glossary term with a token of its own and records
    the term's tooltip markup under it;
  - it resolves the tokens, in the order they were recorded, back into
    their values.
- `escapeRegExp` builds the literal regular expressions the first two
  passes search with.
- `getItemHtml` builds the tooltip markup of one glossary row, the
  string part only: the template choice, the `@text` replacement and the
  element id.
- `isURL` and the address `getData` requests the glossary from.

Modules:

- `Strings` holds literal search and replacement on strings. `IndexOf`
  is `indexOf`, `ReplaceFirst` is `replace` with a string pattern, and
  `ReplaceAll` is `replace` with a global regular expression that matches
  one literal string.
- `RegExp` holds `escapeRegExp` and `RegExpLiteral`, the string a
  regular-expression source made of literal characters matches.
- `Tokens` holds the placeholder tokens and the decimal rendering of the
  numbers in them.
- `Items` holds the glossary row, the settings, `getItemHtml`, `isURL`
  and the glossary address.
- `Engine` holds the three passes. They are written as imperative
  methods, loop by loop. The methods are proved equal to the pure
  functions `ShieldAll`, `ResolveAll` and `Pipeline`, and the theorems say
  what those functions compute.
- `Pieces` views the working string as a sequence of pieces, each either a
  character of the original markup or a token. This view is what the
  theorems are proved through.
- `Findings` holds the defect described under "## Findings", in its two
  forms (glossary terms, and anchors alone). It also holds an input with
  '_' on which even the corrected tokens fail, which is why the
  correctness theorems assume markup without '_'.

`Scheme` selects the token shape:

- `Source` is the shape texotip.js uses, `"_=_" + n + "_=_"`.
- `Corrected` is `"_=_" + n + "_"`.

`PrepareItemOutput` is proved for either shape. The correctness theorem
holds only for `Corrected`.

Three behaviours of the code shape the model:

- The `caseSensitive` default (texotip.js:18) is never read. The regular
  expressions built at texotip.js:143 and texotip.js:159 carry only the
  "g" flag, so matching is always case-sensitive. The matched text is
  replaced by markup built from the glossary row's own `text`. The model
  therefore has no such setting.
- Row i's element id is `'texotip' + rowid` (texotip.js:90), and rowid
  is i, the row's index within the glossary. The token at texotip.js:160 adds the
  anchor count to i, but the id does not. Ids are still distinct
  (`Items.ItemIdsDistinct`).
- The glossary data is indexed as an array, row 0 first. Tokens are
  resolved in the order `unique` received them. That is the order a
  `for ... in` loop visits string keys that are not array indices.

## Model

| member | source | states |
|---|---|---|
| Strings.IndexOf | texotip.js:73 | -1 exactly when the pattern does not occur; otherwise an index where it occurs, with no occurrence before it |
| Strings.ReplaceFirst | texotip.js:88 | when the pattern does not occur the string is unchanged; otherwise only its first occurrence is replaced |
| Strings.ReplaceAll | texotip.js:146 | a global replace of a pattern that does not occur leaves the markup unchanged |
| Strings.ReplaceAllHead | texotip.js:146 | a match at the front is replaced and the scan resumes after the match, so matches never overlap |
| Strings.ReplaceAllSkip | texotip.js:162 | a prefix in which no match starts is passed through unchanged |
| RegExp.EscapeRegExp | texotip.js:129-131 | the escaped string is at least as long as the input, and a string without special characters is unchanged |
| RegExp.EscapeRoundTrip | texotip.js:129-131 | the regular expression built from the escaped string matches exactly the original string, whatever characters it holds |
| RegExp.RegExpLiteral | texotip.js:143 | what `new RegExp` matches for a source of literal characters and escaped special characters; when it matches a string, that string is no longer than the source and escapes back to exactly the source |
| RegExp.PlainIsLiteral | texotip.js:165 | a pattern without special characters matches itself literally |
| RegExp.EscapeConcat | texotip.js:130 | escaping works character by character: the escape of a concatenation is the concatenation of the escapes |
| RegExp.CPlusPlus | texotip.js:159 | the term "C++" is not a literal pattern until escaped; its escape is C\+\+ and matches "C++" |
| Tokens.NatToString | texotip.js:144 | a non-negative number is rendered as at least one decimal digit |
| Tokens.ParseNatToString | texotip.js:160 | reading the rendered digits back gives the number |
| Tokens.NatToStringInjective | texotip.js:160 | different numbers are rendered differently |
| Tokens.TokenText | texotip.js:144 | the token numbered n is "_=_" + n + "_=_" as texotip.js builds it (also at line 160), and "_=_" + n + "_" in the corrected shape |
| Tokens.TokenShape | texotip.js:144 | every token starts with "_=", ends with '_' and holds only '_', '=' and digits |
| Tokens.TokensDistinct | texotip.js:160 | tokens with different numbers differ, and neither occurs inside the other |
| Tokens.TokenWindow | texotip.js:146 | a safe pattern never starts inside a token |
| Tokens.CorrectedNoStraddle | texotip.js:165-166 | a corrected token contains no start of another token unless "=_" and a digit follow it |
| Tokens.TokenIsLiteralPattern | texotip.js:165 | the regular expression built from a token matches exactly that token |
| Items.Template | texotip.js:83-85 | textRenderPattern when it is set and not empty, otherwise defaultRenderPattern |
| Items.ItemId | texotip.js:90 | the id is "texotip" followed by more characters |
| Items.ItemIdsDistinct | texotip.js:90 | different rows get different ids |
| Items.ItemMarkup | texotip.js:88 | the first "@text" of the template is replaced by the entry's text; without "@text" the template is returned as it is |
| Items.GetItemElement | texotip.js:88-93 | the element built for a row carries the template with the row's text in place of "@text", the id "texotip" + row number, and the row's content and url as data-content and data-url |
| Items.ItemElementsDistinct | texotip.js:90 | the elements built for two different rows differ, whatever the rows hold |
| Items.GetItemHtml | texotip.js:80-97 | the markup of a row is the serialisation of that element, for every row and row number |
| Items.DefaultMarkup | texotip.js:19 | with the default pattern an entry's markup is the tooltip anchor around its text |
| Items.IsURL | texotip.js:72-78 | true exactly when the string starts with "http://" or with "https://" |
| Items.JsonURI | texotip.js:102-107 | jsonData itself when it is a web address, otherwise jsonData + "/" + language + ".texotip.json" |
| Items.DefaultJsonURI | texotip.js:16-17 | with the default settings the glossary is read from data/en_GB.texotip.json |
| Engine.RowAt | texotip.js:156-157 | row i contributes its text as pattern i and its item markup, built with row number i, as value i |
| Engine.DictionaryAt | texotip.js:145 | in the finished dictionary, token j holds the j-th recorded value, and no later entry overwrites it |
| Engine.DictionaryFresh | texotip.js:161 | a token is not a key before it is recorded |
| Engine.RecordAdd | texotip.js:145 | recording one more value adds a new key and appends its token to the key order |
| Engine.TokenListAt | texotip.js:164 | the key order lists token j at position j |
| Engine.RecordAndShield | texotip.js:142-147 | one loop step: the shielding, key order and dictionary of the first n patterns become those of the first n + 1 |
| Engine.ShieldLinks | texotip.js:140-148 | after the first pass the markup is every anchor's and image's outerHTML replaced by its token in document order; numLinks is their count; unique maps token j to link j |
| Engine.ShieldTerms | texotip.js:155-163 | after the second pass every row's text is replaced by token numLinks + i; unique also maps that token to the row's markup |
| Engine.ResolveTokens | texotip.js:164-167 | the third pass replaces each token, in recording order, by its value |
| Engine.PrepareItemOutput | texotip.js:133-169 | the markup written back is the three passes over the anchors' outerHTML and then the glossary rows |
| Engine.ShieldPieces | texotip.js:141-163 | after the shield passes the markup is original characters and tokens below the pattern count; no character is '_' |
| Engine.ResolvePieces | texotip.js:164-167 | with corrected tokens, resolving tokens 0 to k - 1 expands exactly those tokens |
| Engine.CorrectedPipeline | texotip.js:150-154 | with corrected tokens the output is the original markup in which each pattern, in list order, has its leftmost non-overlapping occurrences replaced by its value, skipping text an earlier pattern already replaced; values are never searched again, and the output has no '_' |
| Engine.CorrectedLeavesNoToken | texotip.js:164-167 | with corrected tokens, no token of either shape is left in the output |
| Engine.LinksRestored | texotip.js:138-139 | with corrected tokens and no glossary rows, the container's markup is written back unchanged: anchors and images come through intact (with the tokens of texotip.js this fails, Findings.SourceLinksNotRestored) |
| Engine.SingleTermIsReplaceAll | texotip.js:155-167 | with corrected tokens, one term and no anchors, the passes amount to a global replace of the term by its markup |
| Engine.ShieldEliminates | texotip.js:141-163 | after the shield passes, in either token shape, no pattern occurs in the markup |
| Pieces.ReplaceStep | texotip.js:146 | a global replace of a safe pattern on the markup is the replacement of character runs by a token |
| Pieces.ReplaceTokens | texotip.js:160 | every token in the pieces stays below the number of patterns shielded so far |
| Pieces.ReplaceEliminates | texotip.js:162 | after its replace a safe pattern no longer occurs in the markup |
| Pieces.ReplaceKeepsAbsent | texotip.js:162 | a later replace does not make an earlier, eliminated pattern reappear |
| Pieces.ResolveStep | texotip.js:166 | with corrected tokens, replacing a token in the markup replaces exactly the token pieces with that number |
| Pieces.ReplaceChrs | texotip.js:162 | on plain characters, shielding one pattern and then expanding it is a global replace |
| Pieces.ExpandReplaceEach | texotip.js:142-145 | shielding patterns whose values are the patterns themselves and then expanding them gives back the original |
| Pieces.ExpandNoUnderscore | texotip.js:166 | expanding clean pieces with values free of '_' leaves no '_' |
| Findings.SourceShield | texotip.js:160-162 | with the tokens of texotip.js, a term, a digit 0 and a term are shielded to token 1, "0", token 2 |
| Findings.SourceSpuriousToken | texotip.js:144 | token 1, "0", token 2 spells token 0 across the boundary |
| Findings.SourceCorruptsOutput | texotip.js:160-167 | with the tokens of texotip.js and any marks without '_', the output on that input is "_=_1", the first row's mark, "2_=_": both terms are lost |
| Findings.SourceDiffersFromCorrected | texotip.js:144 | on that input the output of texotip.js's tokens contains '_'; with corrected tokens it does not |
| Findings.SourceExample | texotip.js:155-167 | "b0c" with the terms a, b, c and the marks A, B, C gives "_=_1A2_=_" |
| Findings.SourceLinksShield | texotip.js:141-148 | with the tokens of texotip.js, anchors x, y, z in x + y + "0" + z, each without '_' and absent from what follows it, are shielded to token 0, token 1, "0", token 2 |
| Findings.SourceLinksResolve | texotip.js:164-167 | with the tokens of texotip.js, token 0, "_=_1", token 0, "2_=_" resolves with first value x to x + "_=_1" + x + "2_=_": tokens 1 and 2 are gone before they are resolved |
| Findings.SourceLinksNotRestored | texotip.js:141-148 | with the tokens of texotip.js, anchors x, y, z (element markup without '_', each absent from what follows it, z not starting with '0') in x + y + "0" + z with no glossary rows give x + "_=_1" + x + "2_=_", which differs from the original markup |
| Findings.CorrectedLinksRestored | texotip.js:138-139 | with corrected tokens any three anchors without '_' in x + y + "0" + z come back as x + y + "0" + z |
| Findings.UnderscoreDefeatsCorrected | texotip.js:164-167 | even with corrected tokens, the markup y + "=_0_" with terms x, y gives "_=_1" + x's mark: y is lost, which is why the theorems assume no '_' |
| Findings.DigitTermShield | texotip.js:155-162 | in either token shape, the anchor x is shielded to token 0, and the glossary term "0" then replaces the digit inside that token by token 1 |
| Findings.DigitTermResolve | texotip.js:164-167 | token 0 is then not found, and token 1 resolves to the term's mark between the token fragments "_=_" and the closing delimiter |
| Findings.DigitTermLosesAnchor | texotip.js:138-139 | in either token shape, a container holding only the anchor x with the glossary term "0" comes back as "_=_", the term's mark and a closing fragment: the anchor is lost |
| Findings.CorrectedExample | texotip.js:150-154 | with corrected tokens the same input, with any marks without '_', gives the two terms' marks with the digit between them |
| Findings.CorrectedInstance | texotip.js:150-154 | with corrected tokens "b0c" gives "B0C" |

## Left out

- The DOM is left out. `wrapper.html()`, `wrapper.find("a, img")`, `outerHTML` and `wrapper.html(edit)` become values:
  - the container's markup is a string;
  - the anchors' and images' outerHTML is a list in document order;
  - the result is the string written back.
- Items.GetItemHtml: the element that jQuery builds, and its serialisation with `outerHTML`, are the parameter `serialize`. The model fixes only what is handed to it: the markup, the id, data-content and data-url. It makes no claim about the HTML text produced, so it does not show that the three attributes appear in the output.
- The AJAX request and its error logging (texotip.js:110-126) are left out. They are I/O; the model starts from the rows the request delivers.
- runActionFunction, addHoverEffect, the resize handler, the tooltip layout and the settings merge with `$.extend` are left out. They are DOM and event handling, not string processing.
- Settings with no effect on the markup (the box geometry, classes, callbacks and link options) are left out.
- The special replacement patterns of JavaScript's `replace` (`$&`, `$1`, `$$` and the rest) are not modelled. Replacement text is inserted literally:
  - at texotip.js:88, where the entry's text is the replacement;
  - at texotip.js:166, where recorded markup is the replacement.
  - Tokens contain no `$`, so the other replacements are exact.
- Regular expressions are modelled only through `RegExpLiteral`: literal characters and backslash-escaped special characters. Every expression the code builds is of that kind (`RegExp.EscapeRoundTrip`, `Tokens.TokenIsLiteralPattern`).
- Strings are sequences of Unicode characters, while JavaScript strings are UTF-16 code units. An empty glossary term in the code matches between the two halves of a surrogate pair; `Strings.ReplaceAll` with an empty pattern inserts only between whole characters.
- Only strings are modelled as glossary fields and textRenderPattern. Other JSON types are not, and neither are their string conversions.
- Engine.CorrectedPipeline: proved only for markup and values without '_' and for Safe patterns (not empty, no '_', and one character that is neither '=' nor a digit); it says nothing about other inputs. Replacement text is taken literally, so for values holding a `$` pattern (`$&`, `$$`, `` $` ``, `$'`) it does not describe the program (see the `replace` line above).
- Engine.CorrectedLeavesNoToken: proved only under the same assumptions as Engine.CorrectedPipeline.
- Engine.LinksRestored: proved only for markup without '_', so only for anchors and images whose outerHTML has no '_'. Their outerHTML begins with '<', but many have a '_' (`target="_blank"`, `img_1.png`). It also takes the recorded outerHTML as literal replacement text, which the program's resolve pass (texotip.js:166) does not do for outerHTML holding a `$` pattern.
- Engine.SingleTermIsReplaceAll: proved only for markup and a value without '_' and a Safe term. A term with '_' (such as "snake_case") or one made only of digits and '=' is not covered; the latter matches inside tokens of either shape (`Findings.DigitTermLosesAnchor`). A value holding a `$` pattern is not covered either.
- Markup with '_' is outside every correctness theorem, because a '_' in the text can join a token to form another token, in either shape. `Findings.UnderscoreDefeatsCorrected` shows this: the markup y + "=_0_" holds no token, yet the corrected passes lose y.
- Engine.ShieldEliminates: proved only for markup without '_' and Safe patterns, as Engine.CorrectedPipeline.

## Findings

| source | as written | input that shows it | evidently intended | confidence | as-written member | corrected member |
|---|---|---|---|---|---|---|
| texotip.js:144 | tokens are "_=_" + n + "_=_" (also at line 160). They start and end with the same "_=_", so the end of one token, a number and the start of the next spell another token, which the resolve loop (lines 164-167) replaces | markup "b0c", glossary terms "a", "b", "c" with markup "A", "B", "C" (no anchors): the output is "_=_1A2_=_", and with any marks vx, vy, vz without '_' (such as the tooltip anchors getItemHtml builds) it is "_=_1" + vx + "2_=_" | "B0C": each term replaced by its markup and the text between them kept, as the comments at lines 150-154 promise; tokens such as "_=_" + n + "_", whose closing delimiter differs from the opening one, give that | not executed | Findings.SourceCorruptsOutput | Engine.CorrectedPipeline (proved for markup and values without '_' and for Safe terms: no '_' and at least one character that is neither '=' nor a digit) |
| texotip.js:141-148 | the anchors are shielded with the same "_=_" + n + "_=_" tokens. With no glossary rows a container should come back unchanged, but a number between two anchors again spells a token with their tokens | markup x + y + "0" + z whose anchors x, y and z are any element markup (such as `<img src="a.png">`) without '_', each absent from what follows it, and no glossary rows: the output is x + "_=_1" + x + "2_=_": y and z are lost | the container written back unchanged, which corrected tokens give (for markup and anchors without '_') | not executed | Findings.SourceLinksNotRestored | Engine.LinksRestored |
