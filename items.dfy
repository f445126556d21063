/** The glossary entries and the plugin settings that prepareItemOutput reads:
    the markup built for one entry (getItemHtml, texotip.js:80-97) and the
    address of the glossary file (isURL and getData, texotip.js:72-107). */
module Items {
  import opened Strings
  import opened Tokens

  /** One row of the glossary file: the term to look for, the tooltip text
      and an optional link. */
  datatype Entry = Entry(text: string, content: string, url: Option<string>)

  /** The settings this model reads. textRenderPattern is null unless the
      caller sets it. */
  datatype Settings = Settings(
    language: string,
    jsonData: string,
    defaultRenderPattern: string,
    textRenderPattern: Option<string>)

  const DefaultPattern: string := "<a href=\"#\" class=\"tooltip\">@text</a>"

  /** The defaults of texotip.js:15-41 for the settings above. */
  const Defaults: Settings := Settings("en_GB", "data", DefaultPattern, None)

  /** The markup an entry is rendered with: textRenderPattern when it is set
      to a truthy value (JavaScript counts null and "" as false), otherwise
      defaultRenderPattern. */
  function Template(s: Settings): (t: string)
    ensures s.textRenderPattern.Some? && s.textRenderPattern.value != [] ==>
      t == s.textRenderPattern.value
    ensures s.textRenderPattern.None? || s.textRenderPattern.value == [] ==>
      t == s.defaultRenderPattern
  {
    match s.textRenderPattern
    case Some(p) => if p != [] then p else s.defaultRenderPattern
    case None => s.defaultRenderPattern
  }

  /** The id attribute given to entry number rowid. */
  function ItemId(rowid: nat): (id: string)
    ensures |id| > 7 && id[..7] == "texotip"
  {
    "texotip" + NatToString(rowid)
  }

  /** Different entries get different ids. */
  lemma ItemIdsDistinct(i: nat, j: nat)
    requires i != j
    ensures ItemId(i) != ItemId(j)
  {
    if ItemId(i) == ItemId(j) {
      assert ItemId(i)[7..] == NatToString(i);
      assert ItemId(j)[7..] == NatToString(j);
      NatToStringInjective(i, j);
    }
  }

  /** The element getItemHtml builds before it is serialised: the template
      with the entry's text in place of its first "@text", and the three
      attributes set on it. */
  datatype ItemElement = ItemElement(markup: string, id: string, content: string, url: Option<string>)

  function ItemMarkup(s: Settings, item: Entry): (m: string)
    ensures !Contains(Template(s), "@text") ==> m == Template(s)
    ensures Contains(Template(s), "@text") ==>
      exists i :: OccursAt(Template(s), "@text", i) &&
        (forall j :: 0 <= j < i ==> !OccursAt(Template(s), "@text", j)) &&
        m == Template(s)[..i] + item.text + Template(s)[i + 5..]
  {
    ReplaceFirst(Template(s), "@text", item.text)
  }

  function GetItemElement(s: Settings, item: Entry, rowid: nat): (e: ItemElement)
    ensures e.markup == ItemMarkup(s, item)
    ensures e.id == "texotip" + NatToString(rowid)
    ensures e.content == item.content && e.url == item.url
  {
    ItemElement(ItemMarkup(s, item), ItemId(rowid), item.content, item.url)
  }

  /** The elements built for two different rows differ, whatever the rows hold. */
  lemma ItemElementsDistinct(s: Settings, a: Entry, b: Entry, i: nat, j: nat)
    requires i != j
    ensures GetItemElement(s, a, i) != GetItemElement(s, b, j)
  {
    ItemIdsDistinct(i, j);
  }

  /** When the first character of p does not occur in a, the first p of
      a + p + b is the one after a. */
  lemma ReplaceFirstAfter(a: string, p: string, b: string, x: string)
    requires p != [] && p[0] !in a
    ensures ReplaceFirst(a + p + b, p, x) == a + x + b
  {
    var s := a + p + b;
    assert s[|a|..|a| + |p|] == p;
    assert OccursAt(s, p, |a|);
    var i := IndexOf(s, p);
    assert i != -1;
    assert i == |a|;
    assert s[..i] == a;
    assert s[i + |p|..] == b;
  }

  /** getItemHtml: the outerHTML of the built element, serialize standing for
      the browser's serialisation. */
  function GetItemHtml(s: Settings, serialize: ItemElement -> string): (f: (Entry, nat) -> string)
    ensures forall item: Entry, rowid: nat ::
      f(item, rowid) == serialize(ItemElement(ItemMarkup(s, item), "texotip" + NatToString(rowid), item.content, item.url))
  {
    var f := (item: Entry, rowid: nat) => serialize(GetItemElement(s, item, rowid));
    assert forall item: Entry, rowid: nat :: f(item, rowid) == serialize(GetItemElement(s, item, rowid));
    f
  }

  /** With the default pattern an entry becomes a tooltip anchor around its text. */
  lemma DefaultMarkup(item: Entry)
    ensures ItemMarkup(Defaults, item) == "<a href=\"#\" class=\"tooltip\">" + item.text + "</a>"
  {
    var a, b := "<a href=\"#\" class=\"tooltip\">", "</a>";
    assert DefaultPattern == a + "@text" + b;
    assert '@' !in a;
    ReplaceFirstAfter(a, "@text", b, item.text);
  }

  predicate HasPrefix(s: string, p: string) {
    |p| <= |s| && s[..|p|] == p
  }

  lemma IndexZero(s: string, p: string)
    ensures IndexOf(s, p) == 0 <==> HasPrefix(s, p)
  {
    if HasPrefix(s, p) {
      assert OccursAt(s, p, 0);
    }
  }

  /** isURL: the string starts with "http://" or with "https://". */
  function IsURL(s: string): (b: bool)
    ensures b <==> HasPrefix(s, "http://") || HasPrefix(s, "https://")
  {
    IndexZero(s, "http://");
    IndexZero(s, "https://");
    IndexOf(s, "http://") == 0 || IndexOf(s, "https://") == 0
  }

  /** The address getData requests: jsonData itself when it is a web address,
      otherwise the language's file in the jsonData folder. */
  function JsonURI(s: Settings): (uri: string)
    ensures IsURL(s.jsonData) ==> uri == s.jsonData
    ensures !IsURL(s.jsonData) ==> uri == s.jsonData + "/" + s.language + ".texotip.json"
  {
    if IsURL(s.jsonData) then s.jsonData else s.jsonData + "/" + s.language + ".texotip.json"
  }

  /** With the defaults the glossary is read from data/en_GB.texotip.json. */
  lemma DefaultJsonURI()
    ensures JsonURI(Defaults) == "data/en_GB.texotip.json"
  {
    assert |"data"| < |"http://"| < |"https://"|;
    assert !IsURL(Defaults.jsonData);
  }
}
