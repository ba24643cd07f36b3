/** Corpus preprocessing: from scraped pages (page name -> section -> text) to
    the title -> chunks mapping that the retriever indexes. */
module DataProcessing {
  import opened Wrappers
  import opened PyStrings
  import opened PyDicts

  // ---------------------------------------------------------------------
  // isvalid_text
  // ---------------------------------------------------------------------

  /** `re.match(r'^\s*$', s)` succeeds: every character of `s` is whitespace. */
  function AllSpace(s: string): (r: bool)
    ensures r <==> forall i :: 0 <= i < |s| ==> IsSpace(s[i])
  {
    if s == [] then true
    else
      assert forall i :: 1 <= i < |s| ==> s[i] == s[1..][i - 1];
      IsSpace(s[0]) && AllSpace(s[1..])
  }

  /** `isvalid_text(text)` read as a truth value: the empty string and
      all-whitespace text are falsy. */
  function IsValidText(text: string): (r: bool)
    ensures r <==> exists i :: 0 <= i < |text| && !IsSpace(text[i])
  {
    text != "" && !AllSpace(text)
  }

  // ---------------------------------------------------------------------
  // remove_metadata
  // ---------------------------------------------------------------------

  /** The sections that never reach the corpus. */
  const MetadataKeys: seq<string> :=
    ["Ссылки", "Литература", "Примечания", "См. также", "Навигация", "Прочее"]

  /** The items of `d` whose keys are not in `ks`, in their original order. */
  function WithoutKeys(d: Dict<string, string>, ks: seq<string>): Dict<string, string>
  {
    if d == [] then []
    else (if d[0].0 in ks then [] else [d[0]]) + WithoutKeys(d[1..], ks)
  }

  lemma {:induction false} WithoutNoKeys(d: Dict<string, string>)
    ensures WithoutKeys(d, []) == d
  {
    if d != [] {
      WithoutNoKeys(d[1..]);
    }
  }

  /** Popping one more key removes it from what is left. */
  lemma {:induction false} PopWithoutKeys(d: Dict<string, string>, ks: seq<string>, k: string)
    ensures Pop(WithoutKeys(d, ks), k) == WithoutKeys(d, ks + [k])
  {
    if d != [] {
      PopWithoutKeys(d[1..], ks, k);
      var head := if d[0].0 in ks then [] else [d[0]];
      var rest := WithoutKeys(d[1..], ks);
      if head == [] {
        assert WithoutKeys(d, ks) == rest;
      } else {
        assert WithoutKeys(d, ks) == [d[0]] + rest;
        assert ([d[0]] + rest)[1..] == rest;
      }
    }
  }

  /** Removing the same keys a second time changes nothing. */
  lemma {:induction false} WithoutKeysIdempotent(d: Dict<string, string>, ks: seq<string>)
    ensures WithoutKeys(WithoutKeys(d, ks), ks) == WithoutKeys(d, ks)
  {
    if d != [] {
      WithoutKeysIdempotent(d[1..], ks);
      var rest := WithoutKeys(d[1..], ks);
      if d[0].0 !in ks {
        assert WithoutKeys(d, ks) == [d[0]] + rest;
        assert ([d[0]] + rest)[1..] == rest;
      } else {
        assert WithoutKeys(d, ks) == [] + rest == rest;
      }
    }
  }

  /** Removing the keys `ks` hides exactly those keys: each of them is gone,
      and every other key is found with the value it had. */
  lemma {:induction false} WithoutKeysGet(d: Dict<string, string>, ks: seq<string>, k: string)
    ensures Get(WithoutKeys(d, ks), k) == if k in ks then None else Get(d, k)
  {
    if d != [] {
      WithoutKeysGet(d[1..], ks, k);
      var rest := WithoutKeys(d[1..], ks);
      if d[0].0 !in ks {
        assert WithoutKeys(d, ks) == [d[0]] + rest;
        assert ([d[0]] + rest)[1..] == rest;
      } else {
        assert WithoutKeys(d, ks) == rest;
      }
    }
  }

  /** A page's data: section name -> section text. The scraper's dicts are
      mutated in place, so a page is an object. */
  class PageData {
    var sections: Dict<string, string>

    constructor (sections: Dict<string, string>)
      ensures this.sections == sections
    {
      this.sections := sections;
    }
  }

  /** `remove_metadata(page_data)`: pops the metadata sections from the page
      itself and returns the same page. */
  method RemoveMetadata(pageData: PageData) returns (r: PageData)
    modifies pageData
    ensures r == pageData
    ensures pageData.sections == WithoutKeys(old(pageData.sections), MetadataKeys)
  {
    WithoutNoKeys(pageData.sections);
    for i := 0 to |MetadataKeys|
      invariant pageData.sections == WithoutKeys(old(pageData.sections), MetadataKeys[..i])
    {
      PopWithoutKeys(old(pageData.sections), MetadataKeys[..i], MetadataKeys[i]);
      TakeSnoc(MetadataKeys, i);
      pageData.sections := Pop(pageData.sections, MetadataKeys[i]);
    }
    assert MetadataKeys[..|MetadataKeys|] == MetadataKeys;
    r := pageData;
  }

  // ---------------------------------------------------------------------
  // get_section_name
  // ---------------------------------------------------------------------

  lemma {:induction false} ReplaceConcat(a: string, b: string, x: char, y: char)
    ensures Replace(a + b, x, y) == Replace(a, x, y) + Replace(b, x, y)
  {
    var l, r := Replace(a + b, x, y), Replace(a, x, y) + Replace(b, x, y);
    assert |l| == |r|;
    forall i | 0 <= i < |l| ensures l[i] == r[i] {
      if i >= |a| {
        assert (a + b)[i] == b[i - |a|];
      }
    }
  }

  /** `get_section_name(page_name, section_name)`: the section name, prefixed
      by the page name when it does not mention it, with `_` read as a space. */
  function GetSectionName(pageName: string, sectionName: string): (r: string)
    ensures '_' !in r
    ensures IsSubstring(pageName, sectionName) ==> r == Replace(sectionName, '_', ' ')
    ensures !IsSubstring(pageName, sectionName) ==>
      r == Replace(pageName, '_', ' ') + ": " + Replace(sectionName, '_', ' ')
  {
    if IsSubstring(pageName, sectionName) then Replace(sectionName, '_', ' ')
    else
      var joined := pageName + ": " + sectionName;
      ReplaceConcat(pageName + ": ", sectionName, '_', ' ');
      ReplaceConcat(pageName, ": ", '_', ' ');
      var sep := Replace(": ", '_', ' ');
      assert sep[0] == ':' && sep[1] == ' ';
      assert sep == ": ";
      Replace(joined, '_', ' ')
  }

  // ---------------------------------------------------------------------
  // flatten_data
  // ---------------------------------------------------------------------

  /** One section of one scraped page. */
  datatype Section = Section(page: string, name: string, text: string)

  /** The key flatten_data files a section under. */
  function KeyOf(s: Section): string
  {
    GetSectionName(s.page, s.name)
  }

  function SectionsOf(pageName: string, sections: Dict<string, string>): (r: seq<Section>)
    ensures |r| == |sections|
    ensures forall i :: 0 <= i < |r| ==> r[i] == Section(pageName, sections[i].0, sections[i].1)
  {
    seq(|sections|, i requires 0 <= i < |sections| => Section(pageName, sections[i].0, sections[i].1))
  }

  /** The sections of a run of pages, page after page. */
  function PagesSections(pages: seq<(string, Dict<string, string>)>): seq<Section>
  {
    if pages == [] then []
    else PagesSections(pages[..|pages| - 1]) + SectionsOf(pages[|pages| - 1].0, pages[|pages| - 1].1)
  }

  /** The sections of a run of files, file after file. */
  function FilesSections(files: seq<seq<(string, Dict<string, string>)>>): seq<Section>
  {
    if files == [] then []
    else FilesSections(files[..|files| - 1]) + PagesSections(files[|files| - 1])
  }

  /** The keys of the sections with a non-empty text, in order, repeats included. */
  function NonEmptyKeys(ss: seq<Section>): (r: seq<string>)
    ensures forall k :: k in r <==> exists s :: s in ss && s.text != "" && KeyOf(s) == k
  {
    if ss == [] then []
    else
      var last := ss[|ss| - 1];
      var r := NonEmptyKeys(ss[..|ss| - 1]) + (if last.text != "" then [KeyOf(last)] else []);
      assert forall s :: s in ss <==> s in ss[..|ss| - 1] || s == last by {
        assert ss == ss[..|ss| - 1] + [last];
      }
      r
  }

  /** The elements of `s` in order of first appearance. */
  function Dedup(s: seq<string>): (r: seq<string>)
    ensures forall x :: x in r <==> x in s
    ensures forall i, j :: 0 <= i < j < |r| ==> r[i] != r[j]
  {
    if s == [] then []
    else
      var r := Dedup(s[..|s| - 1]);
      assert s == s[..|s| - 1] + [s[|s| - 1]];
      if s[|s| - 1] in r then r else r + [s[|s| - 1]]
  }

  /** Every non-empty text filed under `key`. */
  function TextsFor(ss: seq<Section>, key: string): set<string>
  {
    set s | s in ss && s.text != "" && KeyOf(s) == key :: s.text
  }

  /** What flatten_data builds, stated without its loop: one item per distinct
      key of a non-empty section, in order of first appearance, holding the
      set of all non-empty texts filed under that key. */
  function Grouped(ss: seq<Section>): (r: Dict<string, set<string>>)
    ensures Keys(r) == Dedup(NonEmptyKeys(ss))
  {
    var ks := Dedup(NonEmptyKeys(ss));
    seq(|ks|, i requires 0 <= i < |ks| => (ks[i], TextsFor(ss, ks[i])))
  }

  /** The keys of the result are exactly the keys of the non-empty sections,
      each once; every value is the non-empty set of all texts under its key. */
  lemma GroupedContents(ss: seq<Section>)
    ensures DistinctKeys(Grouped(ss))
    ensures forall k :: k in Keys(Grouped(ss)) <==> exists s :: s in ss && s.text != "" && KeyOf(s) == k
    ensures forall i, t :: 0 <= i < |Grouped(ss)| ==>
      (t in Grouped(ss)[i].1 <==> exists s :: s in ss && s.text == t && t != "" && KeyOf(s) == Grouped(ss)[i].0)
    ensures forall i :: 0 <= i < |Grouped(ss)| ==> Grouped(ss)[i].1 != {}
  {
    var g := Grouped(ss);
    forall i | 0 <= i < |g| ensures g[i].1 != {} {
      assert g[i].0 in NonEmptyKeys(ss);
      var s :| s in ss && s.text != "" && KeyOf(s) == g[i].0;
      assert s.text in g[i].1;
    }
  }

  lemma TextsForSnoc(ss: seq<Section>, s: Section, key: string)
    ensures TextsFor(ss + [s], key) ==
      TextsFor(ss, key) + (if s.text != "" && KeyOf(s) == key then {s.text} else {})
  {
    assert forall x :: x in ss + [s] <==> x in ss || x == s;
  }

  lemma NonEmptyKeysSnoc(ss: seq<Section>, s: Section)
    ensures NonEmptyKeys(ss + [s]) == NonEmptyKeys(ss) + (if s.text != "" then [KeyOf(s)] else [])
  {
    assert (ss + [s])[..|ss|] == ss;
  }

  /** A section with empty text leaves flatten_data's result as it was. */
  lemma GroupedSnocEmpty(ss: seq<Section>, s: Section)
    requires s.text == ""
    ensures Grouped(ss + [s]) == Grouped(ss)
  {
    NonEmptyKeysSnoc(ss, s);
    assert NonEmptyKeys(ss + [s]) == NonEmptyKeys(ss);
    var ks := Dedup(NonEmptyKeys(ss));
    var g, g' := Grouped(ss), Grouped(ss + [s]);
    assert |g'| == |g|;
    forall i | 0 <= i < |g| ensures g'[i] == g[i] {
      assert g'[i] == (ks[i], TextsFor(ss + [s], ks[i]));
      assert g[i] == (ks[i], TextsFor(ss, ks[i]));
      TextsForSnoc(ss, s, ks[i]);
      assert TextsFor(ss + [s], ks[i]) == TextsFor(ss, ks[i]);
    }
  }

  /** A non-empty section under a new key appends that key with its one text. */
  lemma GroupedSnocNewKey(ss: seq<Section>, s: Section)
    requires s.text != "" && KeyOf(s) !in Keys(Grouped(ss))
    ensures Grouped(ss + [s]) == Grouped(ss) + [(KeyOf(s), {s.text})]
  {
    var key := KeyOf(s);
    var ks := Dedup(NonEmptyKeys(ss));
    NonEmptyKeysSnoc(ss, s);
    var n := NonEmptyKeys(ss + [s]);
    assert n[..|n| - 1] == NonEmptyKeys(ss);
    assert Dedup(n) == ks + [key];
    var g, g' := Grouped(ss), Grouped(ss + [s]);
    assert |g'| == |g| + 1;
    assert TextsFor(ss, key) == {};
    forall i | 0 <= i < |g'| ensures g'[i] == (g + [(key, {s.text})])[i] {
      var k := (ks + [key])[i];
      assert g'[i] == (k, TextsFor(ss + [s], k));
      TextsForSnoc(ss, s, k);
      if i < |g| {
        assert k == ks[i] != key;
        assert g[i] == (ks[i], TextsFor(ss, ks[i]));
        assert TextsFor(ss + [s], k) == TextsFor(ss, k);
        assert (g + [(key, {s.text})])[i] == g[i];
      } else {
        assert k == key;
        assert TextsFor(ss + [s], k) == {s.text};
        assert (g + [(key, {s.text})])[i] == (key, {s.text});
      }
    }
  }

  /** The keys of flatten_data's result are distinct. */
  lemma GroupedDistinctKeys(ss: seq<Section>)
    ensures DistinctKeys(Grouped(ss))
  {
    var g, ks := Grouped(ss), Dedup(NonEmptyKeys(ss));
    forall i, j | 0 <= i < j < |g| ensures g[i].0 != g[j].0 {
      assert g[i].0 == ks[i] && g[j].0 == ks[j];
    }
  }

  /** A non-empty section under a key already present leaves the key list of
      flatten_data's result as it was. */
  lemma GroupedSnocKeys(ss: seq<Section>, s: Section)
    requires s.text != "" && KeyOf(s) in Dedup(NonEmptyKeys(ss))
    ensures Dedup(NonEmptyKeys(ss + [s])) == Dedup(NonEmptyKeys(ss))
  {
    NonEmptyKeysSnoc(ss, s);
    var n := NonEmptyKeys(ss + [s]);
    assert n[..|n| - 1] == NonEmptyKeys(ss);
  }

  /** A non-empty section under the key at position `p` changes that one
      item: its set gains the section's text. */
  lemma GroupedSnocAt(ss: seq<Section>, s: Section, p: nat)
    requires s.text != "" && p < |Grouped(ss)| && Grouped(ss)[p].0 == KeyOf(s)
    ensures Grouped(ss + [s]) == Grouped(ss)[p := (KeyOf(s), TextsFor(ss, KeyOf(s)) + {s.text})]
  {
    var key := KeyOf(s);
    var ks := Dedup(NonEmptyKeys(ss));
    assert ks[p] == key;
    GroupedSnocKeys(ss, s);
    var g, g' := Grouped(ss), Grouped(ss + [s]);
    var t := g[p := (key, TextsFor(ss, key) + {s.text})];
    assert |g'| == |ks| == |t|;
    forall i | 0 <= i < |t| ensures g'[i] == t[i] {
      GroupedSnocItem(ss, s, p, i);
    }
    assert g' == t;
  }

  lemma GroupedSnocItem(ss: seq<Section>, s: Section, p: nat, i: nat)
    requires s.text != "" && p < |Grouped(ss)| && i < |Grouped(ss)| && Grouped(ss)[p].0 == KeyOf(s)
    requires Dedup(NonEmptyKeys(ss + [s])) == Dedup(NonEmptyKeys(ss))
    ensures Grouped(ss + [s])[i] == Grouped(ss)[p := (KeyOf(s), TextsFor(ss, KeyOf(s)) + {s.text})][i]
  {
    var key := KeyOf(s);
    var ks := Dedup(NonEmptyKeys(ss));
    var g, g' := Grouped(ss), Grouped(ss + [s]);
    var texts := TextsFor(ss, key) + {s.text};
    assert g'[i] == (ks[i], TextsFor(ss + [s], ks[i]));
    TextsForSnoc(ss, s, ks[i]);
    if i != p {
      assert ks[i] != key;
      assert TextsFor(ss + [s], ks[i]) == TextsFor(ss, ks[i]);
      assert g[p := (key, texts)][i] == g[i] == (ks[i], TextsFor(ss, ks[i]));
    } else {
      assert TextsFor(ss + [s], key) == texts;
      assert g[p := (key, texts)][i] == (key, texts);
    }
  }

  /** A non-empty section under a key already present adds its text to that
      key's set, in place. */
  lemma GroupedSnocOldKey(ss: seq<Section>, s: Section)
    requires s.text != "" && KeyOf(s) in Keys(Grouped(ss))
    ensures Get(Grouped(ss), KeyOf(s)).Some?
    ensures Grouped(ss + [s]) == Put(Grouped(ss), KeyOf(s), Get(Grouped(ss), KeyOf(s)).value + {s.text})
  {
    var key := KeyOf(s);
    var g := Grouped(ss);
    var p :| 0 <= p < |g| && Keys(g)[p] == key;
    assert g[p] == (key, TextsFor(ss, key));
    GroupedDistinctKeys(ss);
    GetAt(g, p);
    PutAt(g, p, TextsFor(ss, key) + {s.text});
    GroupedSnocAt(ss, s, p);
  }

  /** The input of flatten_data: one scraped file (page name -> page data), or a
      list of them. */
  datatype ScrapedData =
    | OneFile(pages: Dict<string, PageData>)
    | Files(files: seq<Dict<string, PageData>>)

  /** `if isinstance(data, dict): data = [data]` */
  function AsFileList(data: ScrapedData): (r: seq<Dict<string, PageData>>)
    ensures data.OneFile? ==> r == [data.pages]
  {
    match data
    case OneFile(pages) => [pages]
    case Files(files) => files
  }

  /** The page objects of one file. */
  ghost function PageSet(d: Dict<string, PageData>): set<PageData>
  {
    set j | 0 <= j < |d| :: d[j].1
  }

  /** The page objects of all files. */
  ghost function PageObjects(files: seq<Dict<string, PageData>>): set<PageData>
  {
    set i, j | 0 <= i < |files| && 0 <= j < |files[i]| :: files[i][j].1
  }

  /** One file as a value, each page with its metadata sections removed. */
  ghost function CleanedPages(d: Dict<string, PageData>): (r: seq<(string, Dict<string, string>)>)
    reads PageSet(d)
    ensures |r| == |d|
    ensures forall j :: 0 <= j < |d| ==> r[j] == (d[j].0, WithoutKeys(d[j].1.sections, MetadataKeys))
  {
    seq(|d|, j requires 0 <= j < |d| reads PageSet(d) => (d[j].0, WithoutKeys(d[j].1.sections, MetadataKeys)))
  }

  /** All files as values, each page with its metadata sections removed. */
  ghost function CleanedView(files: seq<Dict<string, PageData>>): (r: seq<seq<(string, Dict<string, string>)>>)
    reads PageObjects(files)
    ensures |r| == |files|
    ensures forall i :: 0 <= i < |files| ==> |r[i]| == |files[i]|
    ensures forall i, j :: 0 <= i < |files| && 0 <= j < |files[i]| ==>
      r[i][j] == (files[i][j].0, WithoutKeys(files[i][j].1.sections, MetadataKeys))
  {
    seq(|files|, i requires 0 <= i < |files| reads PageObjects(files) =>
      seq(|files[i]|, j requires 0 <= j < |files[i]| reads PageObjects(files) =>
        (files[i][j].0, WithoutKeys(files[i][j].1.sections, MetadataKeys))))
  }

  lemma FilesSectionsSnoc(files: seq<seq<(string, Dict<string, string>)>>, i: nat)
    requires i < |files|
    ensures FilesSections(files[..i + 1]) == FilesSections(files[..i]) + PagesSections(files[i])
  {
    assert files[..i + 1][..i] == files[..i];
  }

  lemma PagesSectionsSnoc(pages: seq<(string, Dict<string, string>)>, j: nat)
    requires j < |pages|
    ensures PagesSections(pages[..j + 1]) == PagesSections(pages[..j]) + SectionsOf(pages[j].0, pages[j].1)
  {
    assert pages[..j + 1][..j] == pages[..j];
  }

  lemma SectionsOfSnoc(pageName: string, sections: Dict<string, string>, k: nat)
    requires k < |sections|
    ensures SectionsOf(pageName, sections[..k + 1]) ==
      SectionsOf(pageName, sections[..k]) + [Section(pageName, sections[k].0, sections[k].1)]
  {
  }

  /** One step of flatten_data's innermost loop: a non-empty text is added
      to the set under its section key, which is appended with a fresh set
      when it is new; an empty text is skipped. */
  function AddSection(flat: Dict<string, set<string>>, s: Section): (r: Dict<string, set<string>>)
    ensures s.text == "" ==> r == flat
    ensures s.text != "" ==>
      Keys(r) == if KeyOf(s) in Keys(flat) then Keys(flat) else Keys(flat) + [KeyOf(s)]
  {
    if s.text == "" then flat
    else if KeyOf(s) !in Keys(flat) then Put(flat, KeyOf(s), {s.text})
    else Put(flat, KeyOf(s), Get(flat, KeyOf(s)).value + {s.text})
  }

  /** flatten_data's loops run over a sequence of sections from a given start. */
  function AddSections(flat: Dict<string, set<string>>, ss: seq<Section>): (r: Dict<string, set<string>>)
    ensures forall k :: k in Keys(flat) ==> k in Keys(r)
  {
    if ss == [] then flat
    else AddSection(AddSections(flat, ss[..|ss| - 1]), ss[|ss| - 1])
  }

  /** Running the loop over two runs of sections is running it over both. */
  lemma {:induction false} AddSectionsAppend(flat: Dict<string, set<string>>, a: seq<Section>, b: seq<Section>)
    ensures AddSections(flat, a + b) == AddSections(AddSections(flat, a), b)
    decreases |b|
  {
    if b == [] {
      assert a + b == a;
    } else {
      var b' := b[..|b| - 1];
      AddSectionsAppend(flat, a, b');
      assert (a + b)[..|a + b| - 1] == a + b';
      assert (a + b)[|a + b| - 1] == b[|b| - 1];
    }
  }

  /** One step of the loop turns the grouping of the sections seen so far into
      the grouping of one more section. */
  lemma AddSectionGrouped(ss: seq<Section>, s: Section)
    ensures AddSection(Grouped(ss), s) == Grouped(ss + [s])
  {
    if s.text == "" {
      GroupedSnocEmpty(ss, s);
    } else if KeyOf(s) !in Keys(Grouped(ss)) {
      GroupedSnocNewKey(ss, s);
    } else {
      GroupedSnocOldKey(ss, s);
    }
  }

  /** The loop keeps its accumulator equal to the grouping of every section
      seen so far: started from the empty dict it computes `Grouped`. */
  lemma {:induction false} AddSectionsGrouped(ss: seq<Section>)
    ensures AddSections([], ss) == Grouped(ss)
  {
    if ss == [] {
      assert Grouped(ss) == [];
    } else {
      var init := ss[..|ss| - 1];
      var s := ss[|ss| - 1];
      calc {
        AddSections([], ss);
        AddSection(AddSections([], init), s);
        { AddSectionsGrouped(init); }
        AddSection(Grouped(init), s);
        { AddSectionGrouped(init, s); }
        Grouped(init + [s]);
        { assert init + [s] == ss; }
        Grouped(ss);
      }
    }
  }

  /** The innermost loop of flatten_data over the sections of one cleaned page. */
  method GroupPage(flat: Dict<string, set<string>>, pageName: string, sections: Dict<string, string>)
    returns (r: Dict<string, set<string>>)
    ensures r == AddSections(flat, SectionsOf(pageName, sections))
  {
    r := flat;
    assert SectionsOf(pageName, sections[..0]) == [];
    for k := 0 to |sections|
      invariant r == AddSections(flat, SectionsOf(pageName, sections[..k]))
    {
      var (sectionName, sectionData) := sections[k];
      SectionsOfSnoc(pageName, sections, k);
      ghost var ss := SectionsOf(pageName, sections[..k + 1]);
      assert ss[..|ss| - 1] == SectionsOf(pageName, sections[..k]);
      if sectionData != "" {
        var key := GetSectionName(pageName, sectionName);
        if key !in Keys(r) {
          r := Put(r, key, {sectionData});
        } else {
          r := Put(r, key, Get(r, key).value + {sectionData});
        }
      }
    }
    assert sections[..|sections|] == sections;
  }

  /** One page in flatten_data: `d[page_name] = remove_metadata(page_data)`
      strips the page in place (and stores the same object back under the same
      key, which leaves the file as it was); then its sections are grouped. */
  method FlattenPage(pageName: string, pageData: PageData, flat: Dict<string, set<string>>)
    returns (r: Dict<string, set<string>>)
    modifies pageData
    ensures pageData.sections == WithoutKeys(old(pageData.sections), MetadataKeys)
    ensures r == AddSections(flat, SectionsOf(pageName, pageData.sections))
  {
    var cleaned := RemoveMetadata(pageData);
    r := GroupPage(flat, pageName, cleaned.sections);
  }

  /** The loop of flatten_data over the pages of one file: every page is
      stripped of its metadata in place and its sections are grouped into
      `flat`. A page object listed twice is stripped twice, which changes
      nothing the second time. */
  method FlattenFile(d: Dict<string, PageData>, flat: Dict<string, set<string>>)
    returns (r: Dict<string, set<string>>)
    modifies PageSet(d)
    ensures forall j :: 0 <= j < |d| ==> d[j].1.sections == WithoutKeys(old(d[j].1.sections), MetadataKeys)
    ensures r == AddSections(flat, PagesSections(old(CleanedPages(d))))
  {
    ghost var view: seq<(string, Dict<string, string>)> := CleanedPages(d);
    r := flat;
    assert view[..0] == [];
    for j := 0 to |d|
      invariant forall j' :: 0 <= j' < j ==> d[j'].1.sections == view[j'].1
      invariant forall j' :: 0 <= j' < |d| ==>
        d[j'].1.sections == old(d[j'].1.sections) || d[j'].1.sections == view[j'].1
      invariant r == AddSections(flat, PagesSections(view[..j]))
    {
      var (pageName, pageData) := d[j];
      assert pageData in PageSet(d);
      ghost var orig := old(pageData.sections);
      WithoutKeysIdempotent(orig, MetadataKeys);
      assert view[j].1 == WithoutKeys(orig, MetadataKeys);
      label Body:
      r := FlattenPage(pageName, pageData, r);
      assert pageData.sections == view[j].1;
      forall j' | 0 <= j' < |d|
        ensures d[j'].1.sections == old(d[j'].1.sections) || d[j'].1.sections == view[j'].1
        ensures j' <= j ==> d[j'].1.sections == view[j'].1
      {
        if d[j'].1 == pageData {
          assert view[j'].1 == view[j].1;
        } else {
          assert d[j'].1.sections == old@Body(d[j'].1.sections);
        }
      }
      PagesSectionsSnoc(view, j);
      assert view[j].0 == pageName;
      AddSectionsAppend(flat, PagesSections(view[..j]), SectionsOf(pageName, view[j].1));
    }
    assert view[..|d|] == view;
  }

  lemma PageSetInObjects(files: seq<Dict<string, PageData>>, i: nat)
    requires i < |files|
    ensures PageSet(files[i]) <= PageObjects(files)
  {
    forall p | p in PageSet(files[i]) ensures p in PageObjects(files) {
      var j :| 0 <= j < |files[i]| && files[i][j].1 == p;
    }
  }

  /** The body of flatten_data's loop over files, for file `i`. `view` holds
      every page's cleaned sections; a page already visited holds them
      already, and any page, visited or not, cleans to them. */
  method FlattenFileAt(files: seq<Dict<string, PageData>>, i: nat, flat: Dict<string, set<string>>,
                       ghost view: seq<seq<(string, Dict<string, string>)>>)
    returns (r: Dict<string, set<string>>)
    requires i < |files| && |view| == |files|
    requires forall i' :: 0 <= i' < |files| ==> |view[i']| == |files[i']|
    requires forall i', j' :: 0 <= i' < |files| && 0 <= j' < |files[i']| ==>
      view[i'][j'].0 == files[i'][j'].0 && WithoutKeys(files[i'][j'].1.sections, MetadataKeys) == view[i'][j'].1
    requires forall i', j' :: 0 <= i' < i && 0 <= j' < |files[i']| ==> files[i'][j'].1.sections == view[i'][j'].1
    modifies PageSet(files[i])
    ensures forall i', j' :: 0 <= i' < |files| && 0 <= j' < |files[i']| ==>
      WithoutKeys(files[i'][j'].1.sections, MetadataKeys) == view[i'][j'].1
    ensures forall i', j' :: 0 <= i' < i + 1 && 0 <= j' < |files[i']| ==> files[i'][j'].1.sections == view[i'][j'].1
    ensures r == AddSections(flat, PagesSections(view[i]))
  {
    var d := files[i];
    assert CleanedPages(d) == view[i];
    r := FlattenFile(d, flat);
    forall i', j' | 0 <= i' < |files| && 0 <= j' < |files[i']|
      ensures WithoutKeys(files[i'][j'].1.sections, MetadataKeys) == view[i'][j'].1
      ensures i' <= i ==> files[i'][j'].1.sections == view[i'][j'].1
    {
      if files[i'][j'].1 in PageSet(d) {
        var j :| 0 <= j < |d| && d[j].1 == files[i'][j'].1;
        WithoutKeysIdempotent(old(files[i'][j'].1.sections), MetadataKeys);
      }
    }
  }

  /** `flatten_data(data)`: strips the metadata sections from every page in
      place and groups the non-empty section texts by section key. */
  method FlattenData(data: ScrapedData) returns (flat: Dict<string, set<string>>)
    modifies PageObjects(AsFileList(data))
    ensures forall i, j :: 0 <= i < |AsFileList(data)| && 0 <= j < |AsFileList(data)[i]| ==>
      AsFileList(data)[i][j].1.sections == WithoutKeys(old(AsFileList(data)[i][j].1.sections), MetadataKeys)
    ensures flat == Grouped(FilesSections(old(CleanedView(AsFileList(data)))))
  {
    var files := AsFileList(data);
    ghost var view: seq<seq<(string, Dict<string, string>)>> := CleanedView(files);
    forall i', j' | 0 <= i' < |files| && 0 <= j' < |files[i']|
      ensures WithoutKeys(view[i'][j'].1, MetadataKeys) == view[i'][j'].1
    {
      WithoutKeysIdempotent(old(files[i'][j'].1.sections), MetadataKeys);
    }
    flat := [];
    assert view[..0] == [];
    for i := 0 to |files|
      invariant forall i', j' :: 0 <= i' < |files| && 0 <= j' < |files[i']| ==>
        WithoutKeys(files[i'][j'].1.sections, MetadataKeys) == view[i'][j'].1
      invariant forall i', j' :: 0 <= i' < i && 0 <= j' < |files[i']| ==>
        files[i'][j'].1.sections == view[i'][j'].1
      invariant flat == AddSections([], FilesSections(view[..i]))
    {
      PageSetInObjects(files, i);
      flat := FlattenFileAt(files, i, flat, view);
      FilesSectionsSnoc(view, i);
      AddSectionsAppend([], FilesSections(view[..i]), PagesSections(view[i]));
    }
    assert view[..|files|] == view;
    AddSectionsGrouped(FilesSections(view));
  }

  // ---------------------------------------------------------------------
  // make_chunks
  // ---------------------------------------------------------------------

  /** A value of the dict given to make_chunks: one string, or a collection of
      strings in its iteration order (a list, or a set built by flatten_data). */
  datatype Texts = Text(text: string) | TextList(texts: seq<string>)

  /** `if isinstance(texts, str): texts = [texts]` */
  function AsList(t: Texts): (r: seq<string>)
    ensures t.Text? ==> r == [t.text]
  {
    match t
    case Text(s) => [s]
    case TextList(ts) => ts
  }

  /** The splitter's chunks of the non-empty texts, text after text. The
      splitter (`RecursiveCharacterTextSplitter(chunk_size, chunk_overlap).split_text`)
      is the parameter `split`. */
  function SplitAll(texts: seq<string>, split: string -> seq<string>): (r: seq<string>)
    ensures multiset(texts)[""] == |texts| ==> r == []
  {
    if texts == [] then []
    else
      var init, last := texts[..|texts| - 1], texts[|texts| - 1];
      assert texts == init + [last];
      SplitAll(init, split) + (if last != "" then split(last) else [])
  }

  /** Chunking a concatenation of text lists concatenates their chunks. */
  lemma {:induction false} SplitAllAppend(a: seq<string>, b: seq<string>, split: string -> seq<string>)
    ensures SplitAll(a + b, split) == SplitAll(a, split) + SplitAll(b, split)
  {
    if b != [] {
      var b' := b[..|b| - 1];
      SplitAllAppend(a, b', split);
      assert (a + b)[..|a + b| - 1] == a + b';
    } else {
      assert a + b == a;
    }
  }

  /** An empty text contributes no chunks, and any other text contributes its
      splitter output. */
  lemma SplitAllSingle(t: string, split: string -> seq<string>)
    ensures SplitAll([t], split) == if t != "" then split(t) else []
  {
    assert [t][..0] == [];
  }

  /** make_chunks's result, stated without its loop: each title whose texts
      give at least one chunk, in the input's order, with its chunks. */
  function Chunked(data: Dict<string, Texts>, split: string -> seq<string>): (r: Dict<string, seq<string>>)
    ensures forall i :: 0 <= i < |r| ==> r[i].1 != []
    ensures forall i :: 0 <= i < |r| ==> r[i].0 in Keys(data)
  {
    if data == [] then []
    else
      var (title, texts) := data[|data| - 1];
      var rest := Chunked(data[..|data| - 1], split);
      var chunks := SplitAll(AsList(texts), split);
      if chunks != [] then rest + [(title, chunks)] else rest
  }

  /** A title is a key of make_chunks's result exactly when it is a key of the
      input whose texts give chunks, and it then holds those chunks; every
      other title is dropped. */
  lemma {:induction false} ChunkedLookup(data: Dict<string, Texts>, split: string -> seq<string>, title: string)
    requires DistinctKeys(data)
    ensures DistinctKeys(Chunked(data, split))
    ensures Get(Chunked(data, split), title) ==
      match Get(data, title)
      case None => None
      case Some(texts) => if SplitAll(AsList(texts), split) != [] then Some(SplitAll(AsList(texts), split)) else None
  {
    if data != [] {
      var n := |data| - 1;
      var (t, texts) := data[n];
      var init := data[..n];
      var rest := Chunked(init, split);
      var chunks := SplitAll(AsList(texts), split);
      assert data == init + [(t, texts)];
      assert DistinctKeys(init);
      ChunkedLookup(init, split, title);
      ChunkedLookup(init, split, t);
      assert t !in Keys(init);
      assert Get(init, t) == None;
      assert Get(rest, t) == None;
      GetSnoc(init, (t, texts), title);
      if chunks != [] {
        assert Chunked(data, split) == rest + [(t, chunks)];
        GetSnoc(rest, (t, chunks), title);
      } else {
        assert Chunked(data, split) == rest;
      }
    }
  }

  /** `make_chunks(data)`: splits every title's non-empty texts and keeps the
      titles that produced chunks. */
  method MakeChunks(data: Dict<string, Texts>, split: string -> seq<string>) returns (chunkedData: Dict<string, seq<string>>)
    requires DistinctKeys(data)
    ensures chunkedData == Chunked(data, split)
  {
    chunkedData := [];
    for i := 0 to |data|
      invariant chunkedData == Chunked(data[..i], split)
    {
      var (title, texts) := data[i];
      var textList := AsList(texts);
      var chunks: seq<string> := [];
      for j := 0 to |textList|
        invariant chunks == SplitAll(textList[..j], split)
      {
        assert textList[..j + 1][..j] == textList[..j];
        if textList[j] != "" {
          chunks := chunks + split(textList[j]);
        }
      }
      assert textList[..|textList|] == textList;
      assert data[..i + 1][..i] == data[..i];
      if chunks != [] {
        assert title !in Keys(chunkedData);
        chunkedData := Put(chunkedData, title, chunks);
      }
    }
    assert data[..|data|] == data;
  }
}
