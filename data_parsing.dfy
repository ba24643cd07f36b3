/** The scraper's helpers that do not touch the network: page URLs, the
    section and content validators applied to parsed HTML tags, and the
    limit-and-keep loop that collects parsed pages. */
module DataParsing {
  import opened Wrappers
  import opened PyStrings
  import opened PyDicts

  // ---------------------------------------------------------------------
  // Tags
  // ---------------------------------------------------------------------

  /** An HTML attribute as the parser hands it out: a plain string, or a
      list of strings for the multi-valued attributes such as `class`. */
  datatype AttrValue = Str(s: string) | List(items: seq<string>)

  /** A parsed tag: its name and its attributes. */
  datatype Tag = Tag(name: string, attrs: map<string, AttrValue>)

  /** The exception a validator raises on a tag it cannot inspect. */
  datatype Error = TypeError

  /** `tag.get(key)` */
  function Attr(tag: Tag, key: string): (r: Option<AttrValue>)
    ensures r.Some? <==> key in tag.attrs
    ensures r.Some? ==> r.value == tag.attrs[key]
  {
    if key in tag.attrs then Some(tag.attrs[key]) else None
  }

  // ---------------------------------------------------------------------
  // get_page_url
  // ---------------------------------------------------------------------

  /** `get_page_url(page_name)`: a page name that already holds the base URL
      is a URL and is returned as it is; otherwise the part before the first
      `/`, with spaces turned into underscores (twice, as the code does), is
      appended to `base_url + "/wiki/"`. */
  function GetPageUrl(baseUrl: string, pageName: string): (r: string)
    ensures IsSubstring(baseUrl, pageName) ==> r == pageName
    ensures !IsSubstring(baseUrl, pageName) ==>
      exists s :: r == baseUrl + "/wiki/" + s && UrlName(pageName, s)
  {
    if IsSubstring(baseUrl, pageName) then pageName
    else
      var name := Replace(BeforeFirst(pageName, '/'), ' ', '_');
      var s := Replace(name, ' ', '_');
      UrlNameOfPage(pageName);
      baseUrl + "/wiki/" + s
  }

  /** `s` is the name part of the URL for `pageName`: the characters of
      `pageName` up to its first `/` (or all of them), with every space
      turned into an underscore. It has no space and no `/`. */
  ghost predicate UrlName(pageName: string, s: string)
  {
    |s| <= |pageName| &&
    (|s| < |pageName| ==> pageName[|s|] == '/') &&
    (forall i :: 0 <= i < |s| ==> pageName[i] != '/') &&
    (forall i :: 0 <= i < |s| ==> s[i] == if pageName[i] == ' ' then '_' else pageName[i]) &&
    ' ' !in s && '/' !in s
  }

  /** The name the URL is built from meets `UrlName`. */
  lemma UrlNameOfPage(pageName: string)
    ensures UrlName(pageName, Replace(Replace(BeforeFirst(pageName, '/'), ' ', '_'), ' ', '_'))
  {
    var b := BeforeFirst(pageName, '/');
    var s := Replace(Replace(b, ' ', '_'), ' ', '_');
    forall i | 0 <= i < |s| ensures pageName[i] != '/' && s[i] == if pageName[i] == ' ' then '_' else pageName[i] {
      assert b[i] == pageName[i];
    }
    assert '/' !in s by {
      forall i | 0 <= i < |s| ensures s[i] != '/' {
        assert b[i] == pageName[i];
      }
    }
  }

  /** The name part is the same for every page name with the same text
      before its first `/`: anything after that `/` is dropped. */
  lemma GetPageUrlIgnoresSubpage(baseUrl: string, name: string, rest: string)
    requires '/' !in name
    requires !IsSubstring(baseUrl, name + "/" + rest) && !IsSubstring(baseUrl, name)
    ensures GetPageUrl(baseUrl, name + "/" + rest) == GetPageUrl(baseUrl, name)
  {
    BeforeFirstSlash(name, rest);
  }

  lemma {:induction false} BeforeFirstSlash(name: string, rest: string)
    requires '/' !in name
    ensures BeforeFirst(name + "/" + rest, '/') == name && BeforeFirst(name, '/') == name
  {
    if name != [] {
      assert (name + "/" + rest)[1..] == name[1..] + "/" + rest;
      BeforeFirstSlash(name[1..], rest);
    }
  }

  // ---------------------------------------------------------------------
  // validate_section_title
  // ---------------------------------------------------------------------

  /** Headings of the page chrome, recognised by a string-valued class. */
  const ChromeClasses: seq<string> := ["mw-toc-heading", "vector-menu-heading"]

  /** Section ids that are never kept. */
  const SkippedIds: seq<string> :=
    ["mw-toc-heading", "Ссылки", "Литература", "Примечания", "См. также", "Навигация", "Прочее"]

  /** Zero or more groups, each a `-` followed by characters other than a
      newline: the language of `(-.*)*` in Python's `re`. */
  ghost predicate DashGroups(t: string)
    decreases |t|
  {
    t == [] ||
    (t[0] == '-' && exists j :: 1 <= j <= |t| && '\n' !in t[1..j] && DashGroups(t[j..]))
  }

  /** `re.match(r"p(-.*)*", s)` succeeds: some prefix of `s` is in the
      language of `p(-.*)*`. */
  ghost predicate MatchesSectionPattern(s: string)
  {
    exists k :: 1 <= k <= |s| && s[0] == 'p' && DashGroups(s[1..k])
  }

  /** The pattern is anchored only at the start and its group may repeat
      zero times, so it matches exactly the strings that begin with `p`. */
  lemma SectionPatternIsPPrefix(s: string)
    ensures MatchesSectionPattern(s) <==> |s| > 0 && s[0] == 'p'
  {
    if |s| > 0 && s[0] == 'p' {
      assert DashGroups(s[1..1]);
    }
  }

  /** `s` begins with `p`: the test the compiled pattern performs. */
  predicate StartsWithP(s: string)
  {
    |s| > 0 && s[0] == 'p'
  }

  /** `validate_section_title(section_title)`: a heading with a chrome class,
      a skipped id, or an id that the pattern matches is rejected; any other
      heading with a string id is accepted; a heading without a string id
      makes the pattern match raise a TypeError. */
  function ValidateSectionTitle(tag: Tag): (r: Result<bool, Error>)
    ensures (exists c :: c in ChromeClasses && Attr(tag, "class") == Some(Str(c))) ==> r == Success(false)
    ensures (exists s :: s in SkippedIds && Attr(tag, "id") == Some(Str(s))) ==> r == Success(false)
    ensures r == Success(true) <==>
      (forall c :: c in ChromeClasses ==> Attr(tag, "class") != Some(Str(c))) &&
      Attr(tag, "id").Some? && Attr(tag, "id").value.Str? &&
      Attr(tag, "id").value.s !in SkippedIds && !MatchesSectionPattern(Attr(tag, "id").value.s)
    ensures r.Failure? <==>
      (forall c :: c in ChromeClasses ==> Attr(tag, "class") != Some(Str(c))) &&
      !(Attr(tag, "id").Some? && Attr(tag, "id").value.Str?)
  {
    var cls := Attr(tag, "class");
    var id := Attr(tag, "id");
    if cls.Some? && cls.value.Str? && cls.value.s in ChromeClasses then Success(false)
    else if id.Some? && id.value.Str? && id.value.s in SkippedIds then Success(false)
    else if id.None? || id.value.List? then Failure(TypeError)
    else
      SectionPatternIsPPrefix(id.value.s);
      if StartsWithP(id.value.s) then Success(false) else Success(true)
  }

  /** Every accepted heading has a string id that is not skipped and does
      not begin with `p`; every heading whose id is skipped or begins with
      `p` is rejected without error. */
  lemma ValidateSectionTitleIds(tag: Tag)
    ensures ValidateSectionTitle(tag) == Success(true) ==>
      Attr(tag, "id").Some? && Attr(tag, "id").value.Str? &&
      Attr(tag, "id").value.s !in SkippedIds && !StartsWithP(Attr(tag, "id").value.s)
    ensures (Attr(tag, "id").Some? && Attr(tag, "id").value.Str? && StartsWithP(Attr(tag, "id").value.s)) ==>
      ValidateSectionTitle(tag) == Success(false)
  {
    if Attr(tag, "id").Some? && Attr(tag, "id").value.Str? {
      SectionPatternIsPPrefix(Attr(tag, "id").value.s);
    }
  }

  // ---------------------------------------------------------------------
  // validate_content
  // ---------------------------------------------------------------------

  /** The tag names that can carry section content. */
  const ContentNames: seq<string> := ["p", "ul", "ol", "section", "div"]

  /** `"vcard" in tag.get("class")`: membership in a class list, and a
      substring test on a class string; `None` raises a TypeError. */
  function HasVcard(cls: Option<AttrValue>): (r: Result<bool, Error>)
    ensures r.Failure? <==> cls.None?
    ensures cls.Some? && cls.value.List? ==> r == Success("vcard" in cls.value.items)
    ensures cls.Some? && cls.value.Str? ==> r == Success(exists i :: OccursAt("vcard", cls.value.s, i))
  {
    match cls
    case None => Failure(TypeError)
    case Some(List(items)) => Success("vcard" in items)
    case Some(Str(s)) => Success(IsSubstring("vcard", s))
  }

  /** `validate_content(content)`: only content tags are kept, a `div` only
      when its class has `vcard` (a `div` without a class raises a
      TypeError), and a tag whose class is the string `reference` is
      dropped. */
  function ValidateContent(tag: Tag): (r: Result<bool, Error>)
    ensures tag.name !in ContentNames ==> r == Success(false)
    ensures r.Failure? <==> tag.name == "div" && "class" !in tag.attrs
    ensures r == Success(true) <==>
      tag.name in ContentNames &&
      (tag.name == "div" ==> HasVcard(Attr(tag, "class")) == Success(true)) &&
      Attr(tag, "class") != Some(Str("reference"))
    ensures tag.name == "div" && Attr(tag, "class").Some? && Attr(tag, "class").value.List? ==>
      (r == Success(true) <==> "vcard" in Attr(tag, "class").value.items)
    ensures tag.name in ["p", "ul", "ol", "section"] ==>
      (r == Success(true) <==> Attr(tag, "class") != Some(Str("reference")))
  {
    if tag.name !in ContentNames then Success(false)
    else if tag.name == "div" && HasVcard(Attr(tag, "class")) != Success(true) then
      (if HasVcard(Attr(tag, "class")).Failure? then Failure(TypeError) else Success(false))
    else if Attr(tag, "class") == Some(Str("reference")) then Success(false)
    else Success(true)
  }

  // ---------------------------------------------------------------------
  // scrape_pages
  // ---------------------------------------------------------------------

  /** What a page parser returns: section title -> text. */
  type PageInfo = Dict<string, string>

  /** A page parser, which fetches and parses the page of a given name. */
  type Parser = string -> PageInfo

  const WikivoyageUrl: string := "https://ru.wikivoyage.org"

  /** The pages the loop visits: all of them, or the Python slice
      `list(pages.items())[:limit]`. */
  function Considered(pages: Dict<string, string>, limit: Option<int>): (r: Dict<string, string>)
    ensures limit.None? ==> r == pages
    ensures |r| <= |pages| && r == pages[..|r|]
    ensures limit.Some? && limit.value >= 0 ==> |r| == if limit.value <= |pages| then limit.value else |pages|
  {
    if limit.Some? then Prefix(pages, limit.value) else pages
  }

  /** The data collected from `pages` in order: each page whose parse is
      non-empty is stored under its name. */
  function Scraped(pages: Dict<string, string>, parse: Parser): (r: Dict<string, PageInfo>)
    ensures |r| <= |pages|
  {
    if pages == [] then []
    else
      var data := Scraped(pages[..|pages| - 1], parse);
      var name := pages[|pages| - 1].0;
      if parse(name) != [] then Put(data, name, parse(name)) else data
  }

  /** Visiting one more page stores its parse under its name when the parse
      is non-empty. */
  lemma ScrapedSnoc(pages: Dict<string, string>, i: nat, parse: Parser)
    requires i < |pages|
    ensures Scraped(pages[..i + 1], parse) ==
      if parse(pages[i].0) != [] then Put(Scraped(pages[..i], parse), pages[i].0, parse(pages[i].0))
      else Scraped(pages[..i], parse)
  {
    assert pages[..i + 1][..i] == pages[..i];
  }

  /** Every stored page is the non-empty parse of its name. */
  ghost predicate Parsed(data: Dict<string, PageInfo>, parse: Parser)
  {
    forall i :: 0 <= i < |data| ==> data[i].1 == parse(data[i].0) && data[i].1 != []
  }

  /** The collected names are distinct page names, and every collected page
      is the non-empty parse of its name. */
  lemma {:induction false} ScrapedSound(pages: Dict<string, string>, parse: Parser)
    ensures var data := Scraped(pages, parse);
      |data| <= |pages| && DistinctKeys(data) &&
      (forall i :: 0 <= i < |data| ==> data[i].0 in Keys(pages)) &&
      Parsed(data, parse)
  {
    if pages != [] {
      var init := pages[..|pages| - 1];
      var name := pages[|pages| - 1].0;
      ScrapedSound(init, parse);
      var data := Scraped(init, parse);
      assert forall i :: 0 <= i < |data| ==> data[i].0 in Keys(pages) by {
        forall i | 0 <= i < |data| ensures data[i].0 in Keys(pages) {
          var j :| 0 <= j < |init| && Keys(init)[j] == data[i].0;
          assert Keys(pages)[j] == data[i].0;
        }
      }
      assert name == Keys(pages)[|pages| - 1];
      if parse(name) != [] {
        var r := Put(data, name, parse(name));
        PutParsed(data, name, parse(name), parse);
        PutDistinct(data, name, parse(name));
        forall i | 0 <= i < |r| ensures r[i].0 in Keys(pages) {
          assert r[i].0 == Keys(r)[i];
        }
      }
    }
  }

  /** Storing a page under its own name keeps every stored page the parse of
      its name. */
  lemma {:induction false} PutParsed(data: Dict<string, PageInfo>, name: string, info: PageInfo, parse: Parser)
    requires info == parse(name) && info != [] && Parsed(data, parse)
    ensures Parsed(Put(data, name, info), parse)
  {
    if data == [] {
    } else if data[0].0 == name {
      var r := Put(data, name, info);
      assert r == [(name, info)] + data[1..];
      forall i | 0 <= i < |r| ensures r[i].1 == parse(r[i].0) && r[i].1 != [] {
        if i > 0 {
          assert r[i] == data[i];
        }
      }
    } else {
      var tail := data[1..];
      assert Parsed(tail, parse) by {
        forall i | 0 <= i < |tail| ensures tail[i].1 == parse(tail[i].0) && tail[i].1 != [] {
          assert tail[i] == data[i + 1];
        }
      }
      PutParsed(tail, name, info, parse);
      var rest := Put(tail, name, info);
      var r := Put(data, name, info);
      assert r == [data[0]] + rest;
      forall i | 0 <= i < |r| ensures r[i].1 == parse(r[i].0) && r[i].1 != [] {
        if i > 0 {
          assert r[i] == rest[i - 1];
        }
      }
    }
  }

  /** Every considered page whose parse is non-empty is collected: together
      with `ScrapedSound`, a name is a key of the result exactly when it is a
      page name with a non-empty parse. */
  lemma {:induction false} ScrapedComplete(pages: Dict<string, string>, parse: Parser, name: string)
    requires name in Keys(pages) && parse(name) != []
    ensures name in Keys(Scraped(pages, parse))
  {
    var init := pages[..|pages| - 1];
    var last := pages[|pages| - 1].0;
    var data := Scraped(init, parse);
    if last == name {
    } else {
      var j :| 0 <= j < |pages| && Keys(pages)[j] == name;
      assert Keys(init)[j] == name;
      ScrapedComplete(init, parse, name);
      if parse(last) != [] {
        assert Keys(Put(data, last, parse(last))) == if last in Keys(data) then Keys(data) else Keys(data) + [last];
      }
    }
  }

  /** The scraper for one wiki. The Wikipedia API client it also holds is
      not part of this model. */
  class WikiParser {
    const baseUrl: string

    constructor (baseUrl: string := "https://ru.wikipedia.org")
      ensures this.baseUrl == baseUrl
    {
      this.baseUrl := baseUrl;
    }

    /** The parser `scrape_pages` applies: the Wikivoyage one for the
        Wikivoyage base URL, the Wikipedia one otherwise. */
    function ParserFor(wikipedia: Parser, wikivoyage: Parser): (p: Parser)
      ensures baseUrl == WikivoyageUrl ==> p == wikivoyage
      ensures baseUrl != WikivoyageUrl ==> p == wikipedia
    {
      if baseUrl in [WikivoyageUrl] then wikivoyage else wikipedia
    }

    /** `scrape_pages(pages, limit)`, with the two page parsers given as
        functions: visits the first `limit` pages (all when `limit` is
        `None`), parses each, and keeps the non-empty results by name. */
    method ScrapePages(pages: Dict<string, string>, limit: Option<int>, wikipedia: Parser, wikivoyage: Parser)
      returns (data: Dict<string, PageInfo>)
      ensures data == Scraped(Considered(pages, limit), ParserFor(wikipedia, wikivoyage))
    {
      var items := pages;
      if limit.Some? {
        items := Prefix(pages, limit.value);
      }
      data := [];
      for i := 0 to |items|
        invariant data == Scraped(items[..i], ParserFor(wikipedia, wikivoyage))
      {
        var (name, link) := items[i];
        var pageData;
        if baseUrl in [WikivoyageUrl] {
          pageData := wikivoyage(name);
        } else {
          pageData := wikipedia(name);
        }
        ScrapedSnoc(items, i, ParserFor(wikipedia, wikivoyage));
        if pageData != [] {
          data := Put(data, name, pageData);
        }
      }
      assert items[..|items|] == items;
    }
  }

  /** The scraped keys are distinct page names among the first `limit`, and
      the scraped pages are non-empty parses. */
  lemma ScrapePagesKeys(pages: Dict<string, string>, limit: Option<int>, parse: Parser)
    ensures var data := Scraped(Considered(pages, limit), parse);
      DistinctKeys(data) &&
      (forall i :: 0 <= i < |data| ==> data[i].0 in Keys(Considered(pages, limit))) &&
      Parsed(data, parse) &&
      (limit.Some? && limit.value >= 0 ==> |data| <= limit.value)
  {
    ScrapedSound(Considered(pages, limit), parse);
  }
}
