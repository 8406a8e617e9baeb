/** The `llms.txt` manifest written when the build is done: a title line,
    then either the rendered sidebar or, without a sidebar array, a flat
    listing of the generated pages. */
module LlmsManifest {
  import opened Wrappers
  import opened Text
  import opened Sidebar

  /** `baseUrl` with one trailing slash removed, if it has one. */
  function TrimBaseUrl(baseUrl: string): (r: string)
    ensures EndsWith(baseUrl, "/") ==> r + "/" == baseUrl
    ensures !EndsWith(baseUrl, "/") ==> r == baseUrl
  {
    if EndsWith(baseUrl, "/") then baseUrl[..|baseUrl| - 1] else baseUrl
  }

  /** The title line every manifest starts with. */
  function Header(title: string): (r: string)
    ensures StartsWith(r, "# ") && EndsWith(r, " Documentation\n\n")
    ensures |r| == |title| + 18 && r[2..|r| - 16] == title
  {
    "# " + title + " Documentation\n\n"
  }

  // ---------------------------------------------------------------------
  // the sidebar

  /** One top-level sidebar group, rendered at level 2. A group that is not
      an object has none of the fields the renderer reads and adds nothing. */
  function GroupText(baseUrl: string, group: Child): (r: string)
    ensures !group.Obj? ==> r == ""
    ensures r == "" || r[|r| - 1] == '\n'
  {
    match group
    case Obj(n) => RenderNode(baseUrl, n, 2)
    case _ => ""
  }

  /** The groups' texts, in order. */
  function SidebarText(baseUrl: string, groups: seq<Child>): string
  {
    if groups == [] then ""
    else SidebarText(baseUrl, groups[..|groups| - 1]) + GroupText(baseUrl, groups[|groups| - 1])
  }

  // ---------------------------------------------------------------------
  // the fallback listing

  /** The root page and the error page are not listed. */
  predicate Listed(pathname: string)
  {
    pathname != "" && pathname != "404/"
  }

  /** `pages.filter(page => page.pathname !== "" && page.pathname !== "404/")`. */
  function KeptPages(pages: seq<string>): (r: seq<string>)
    ensures |r| <= |pages|
    ensures forall p :: p in r <==> p in pages && Listed(p)
  {
    if pages == [] then []
    else
      var front, last := pages[..|pages| - 1], pages[|pages| - 1];
      assert pages == front + [last];
      KeptPages(front) + (if Listed(last) then [last] else [])
  }

  /** `pathname.replace(/\/$/, ".md")`: one trailing slash becomes `.md`. */
  function PageMdPath(pathname: string): (r: string)
    ensures EndsWith(pathname, "/") ==> EndsWith(r, ".md") && r[..|r| - 3] + "/" == pathname
    ensures !EndsWith(pathname, "/") ==> r == pathname
  {
    if EndsWith(pathname, "/") then pathname[..|pathname| - 1] + ".md" else pathname
  }

  /** The line listing one page. */
  function PageLine(baseUrl: string, pathname: string): string
  {
    "- " + baseUrl + "/" + PageMdPath(pathname)
  }

  /** The lines of some pages, in order. */
  function PageLines(baseUrl: string, pages: seq<string>): (r: seq<string>)
    ensures |r| == |pages|
  {
    if pages == [] then []
    else PageLines(baseUrl, pages[..|pages| - 1]) + [PageLine(baseUrl, pages[|pages| - 1])]
  }

  /** The listing used when there is no sidebar: one line per kept page,
      joined by newlines, with no newline after the last. */
  function FallbackListing(baseUrl: string, pages: seq<string>): (r: string)
    ensures r == "" <==> KeptPages(pages) == []
    ensures KeptPages(pages) != [] ==> StartsWith(r, PageLine(baseUrl, KeptPages(pages)[0]))
  {
    var kept := KeptPages(pages);
    var lines := PageLines(baseUrl, kept);
    if kept != [] then
      PageLinesAt(baseUrl, kept, 0);
      JoinEnds(lines, "\n");
      Join(lines, "\n")
    else
      Join(lines, "\n")
  }

  // ---------------------------------------------------------------------
  // the manifest

  /** The manifest for the configured `baseUrl`, the site `title`, the
      sidebar (when it is an array) and the generated pages' pathnames; no
      manifest at all when `baseUrl` is missing or empty. */
  function Manifest(baseUrl: Option<string>, title: string, sidebar: Option<seq<Child>>, pages: seq<string>)
    : (r: Option<string>)
    ensures r.None? <==> baseUrl.None? || baseUrl.value == ""
    ensures r.Some? ==> StartsWith(r.value, Header(title))
  {
    if baseUrl.None? || baseUrl.value == "" then None
    else
      var base := TrimBaseUrl(baseUrl.value);
      var body := if sidebar.Some? then SidebarText(base, sidebar.value) else FallbackListing(base, pages);
      assert (Header(title) + body)[..|Header(title)|] == Header(title);
      Some(Header(title) + body)
  }

  /** The `astro:build:done` hook without its file write: the text the
      hook writes to `llms.txt`, or `None` when it writes nothing. */
  method BuildDone(configBaseUrl: Option<string>, title: string, sidebar: Option<seq<Child>>, pages: seq<string>)
    returns (llmsTxt: Option<string>)
    ensures llmsTxt == Manifest(configBaseUrl, title, sidebar, pages)
  {
    if configBaseUrl.None? || configBaseUrl.value == "" {
      return None;
    }
    var baseUrl := TrimBaseUrl(configBaseUrl.value);
    var content := Header(title);
    if sidebar.Some? {
      content := AppendGroups(content, baseUrl, sidebar.value);
    } else {
      content := content + FallbackListing(baseUrl, pages);
    }
    llmsTxt := Some(content);
    assert llmsTxt == Manifest(configBaseUrl, title, sidebar, pages) by {
      ManifestOfBase(configBaseUrl.value, title, sidebar, pages);
    }
  }

  /** The `for (const group of sidebar)` loop: appends every top-level
      group, rendered at level 2, to the text written so far. */
  method AppendGroups(start: string, baseUrl: string, groups: seq<Child>) returns (content: string)
    ensures content == start + SidebarText(baseUrl, groups)
  {
    content := start;
    var i := 0;
    assert content == start + SidebarText(baseUrl, groups[..0]) by {
      assert groups[..0] == [];
      assert start + "" == start;
    }
    while i < |groups|
      invariant 0 <= i <= |groups|
      invariant content == start + SidebarText(baseUrl, groups[..i])
    {
      var part := "";
      if groups[i].Obj? {
        part := ProcessSidebarItem(baseUrl, groups[i].node, 2);
      }
      assert part == GroupText(baseUrl, groups[i]);
      content := content + part;
      assert content == start + SidebarText(baseUrl, groups[..i + 1]) by {
        assert groups[..i + 1][..i] == groups[..i];
        assert groups[..i + 1][i] == groups[i];
        AppendAssoc(start, SidebarText(baseUrl, groups[..i]), part);
      }
      i := i + 1;
    }
    assert groups[..|groups|] == groups;
  }

  /** With a base url, the manifest is the title line and the body. */
  lemma ManifestOfBase(baseUrl: string, title: string, sidebar: Option<seq<Child>>, pages: seq<string>)
    requires baseUrl != ""
    ensures Manifest(Some(baseUrl), title, sidebar, pages)
            == Some(Header(title) + if sidebar.Some? then SidebarText(TrimBaseUrl(baseUrl), sidebar.value)
                                    else FallbackListing(TrimBaseUrl(baseUrl), pages))
  {
  }

  // ---------------------------------------------------------------------
  // properties

  /** Exactly one trailing slash is removed. */
  lemma TrimBaseUrlOnce(u: string)
    ensures TrimBaseUrl(u + "/") == u
  {
    assert EndsWith(u + "/", "/");
  }

  /** Only one trailing slash becomes `.md`, even when the pathname ends
      in several. */
  lemma PageMdPathOnce(q: string)
    ensures PageMdPath(q + "/") == q + ".md"
  {
    assert EndsWith(q + "/", "/");
    assert (q + "/")[..|q|] == q;
  }

  /** The sidebar text is whole lines: empty, or ending with a line break. */
  lemma {:induction false} SidebarTextLines(baseUrl: string, groups: seq<Child>)
    ensures SidebarText(baseUrl, groups) == "" || SidebarText(baseUrl, groups)[|SidebarText(baseUrl, groups)| - 1] == '\n'
    decreases |groups|
  {
    if groups != [] {
      var front := groups[..|groups| - 1];
      SidebarTextLines(baseUrl, front);
      var g := GroupText(baseUrl, groups[|groups| - 1]);
      if g == "" {
        assert SidebarText(baseUrl, groups) == SidebarText(baseUrl, front) + "";
      }
    }
  }

  /** The groups render in order: the text of `a + b` is that of `a`
      followed by that of `b`. */
  lemma {:induction false} SidebarTextAppend(baseUrl: string, a: seq<Child>, b: seq<Child>)
    ensures SidebarText(baseUrl, a + b) == SidebarText(baseUrl, a) + SidebarText(baseUrl, b)
    decreases |b|
  {
    if b == [] {
      assert a + b == a;
    } else {
      var front, last := b[..|b| - 1], b[|b| - 1];
      var x, y, z := SidebarText(baseUrl, a), SidebarText(baseUrl, front), GroupText(baseUrl, last);
      assert SidebarText(baseUrl, a + b) == SidebarText(baseUrl, a + front) + z by {
        assert (a + b)[..|a + b| - 1] == a + front;
        assert (a + b)[|a + b| - 1] == last;
      }
      assert SidebarText(baseUrl, a + front) == x + y by { SidebarTextAppend(baseUrl, a, front); }
      AppendAssoc(x, y, z);
    }
  }

  /** With a sidebar array the pages are not looked at, and the manifest
      is the title line followed by every group rendered at level 2. */
  lemma ManifestOfSidebar(baseUrl: string, title: string, groups: seq<Child>, pages: seq<string>)
    requires baseUrl != ""
    ensures Manifest(Some(baseUrl), title, Some(groups), pages)
            == Some(Header(title) + SidebarText(TrimBaseUrl(baseUrl), groups))
  {
  }

  /** An empty sidebar array still wins over the pages: the manifest is
      just the title line. */
  lemma ManifestOfEmptySidebar(baseUrl: string, title: string, pages: seq<string>)
    requires baseUrl != ""
    ensures Manifest(Some(baseUrl), title, Some([]), pages) == Some(Header(title))
  {
    assert Header(title) + "" == Header(title);
  }

  /** Filtering distributes over concatenation, keeping the input order. */
  lemma {:induction false} KeptPagesAppend(a: seq<string>, b: seq<string>)
    ensures KeptPages(a + b) == KeptPages(a) + KeptPages(b)
    decreases |b|
  {
    if b == [] {
      assert a + b == a;
    } else {
      var front, last := b[..|b| - 1], b[|b| - 1];
      assert (a + b)[..|a + b| - 1] == a + front;
      assert (a + b)[|a + b| - 1] == last;
      KeptPagesAppend(a, front);
    }
  }

  /** Each line of the listing is the line of the page at that position. */
  lemma {:induction false} PageLinesAt(baseUrl: string, pages: seq<string>, i: nat)
    requires i < |pages|
    ensures PageLines(baseUrl, pages)[i] == PageLine(baseUrl, pages[i])
    decreases |pages|
  {
    if i < |pages| - 1 {
      PageLinesAt(baseUrl, pages[..|pages| - 1], i);
    }
  }

  /** Without newlines in the base url and the pathnames, the listing splits
      back into exactly one line per kept page, in input order. */
  lemma FallbackLines(baseUrl: string, pages: seq<string>)
    requires '\n' !in baseUrl
    requires forall p :: p in pages ==> '\n' !in p
    requires exists p :: p in pages && Listed(p)
    ensures Split(FallbackListing(baseUrl, pages), '\n') == PageLines(baseUrl, KeptPages(pages))
  {
    var kept := KeptPages(pages);
    var lines := PageLines(baseUrl, kept);
    var p :| p in pages && Listed(p);
    assert p in kept;
    forall i | 0 <= i < |lines| ensures '\n' !in lines[i] {
      PageLinesAt(baseUrl, kept, i);
      assert kept[i] in kept;
      PageLineHasNoNewline(baseUrl, kept[i]);
    }
    SplitJoin(lines, '\n');
  }

  lemma PageLineHasNoNewline(baseUrl: string, q: string)
    requires '\n' !in baseUrl && '\n' !in q
    ensures '\n' !in PageLine(baseUrl, q)
  {
    if EndsWith(q, "/") {
      var r := q[..|q| - 1];
      assert forall k :: 0 <= k < |r| ==> r[k] == q[k];
      assert '\n' !in r;
      assert '\n' !in ".md";
    }
  }

  /** With neither a sidebar nor a page to list, the manifest is just the
      title line. */
  lemma ManifestWithoutPages(baseUrl: string, title: string, pages: seq<string>)
    requires baseUrl != ""
    requires forall p :: p in pages ==> !Listed(p)
    ensures Manifest(Some(baseUrl), title, None, pages) == Some(Header(title))
  {
    KeptPagesNone(pages);
    assert Header(title) + "" == Header(title);
  }

  lemma {:induction false} KeptPagesNone(pages: seq<string>)
    requires forall p :: p in pages ==> !Listed(p)
    ensures KeptPages(pages) == []
    decreases |pages|
  {
    if pages != [] {
      var front := pages[..|pages| - 1];
      assert forall p :: p in front ==> p in pages;
      KeptPagesNone(front);
      assert pages[|pages| - 1] in pages;
    }
  }

  /** A site with pages `""`, `"404/"` and `"about/"` and no sidebar lists
      just the about page. */
  lemma FallbackExample(baseUrl: string, pages: seq<string>)
    requires baseUrl != "" && !EndsWith(baseUrl, "/")
    requires pages == ["", "404/", "about/"]
    ensures Manifest(Some(baseUrl), "T", None, pages)
            == Some("# T Documentation\n\n" + ("- " + baseUrl + "/" + "about.md"))
  {
    assert FallbackListing(baseUrl, pages) == "- " + baseUrl + "/" + "about.md" by {
      KeptExample(pages);
      assert PageMdPath("about/") == "about.md" by {
        assert EndsWith("about/", "/");
        assert "about/"[..5] == "about";
      }
      assert PageLines(baseUrl, ["about/"]) == [PageLine(baseUrl, "about/")] by {
        assert ["about/"][..0] == [];
      }
    }
    assert TrimBaseUrl(baseUrl) == baseUrl;
    ManifestOfBase(baseUrl, "T", None, pages);
    HeaderExample();
  }

  lemma HeaderExample()
    ensures Header("T") == "# T Documentation\n\n"
  {
  }

  lemma KeptExample(pages: seq<string>)
    requires pages == ["", "404/", "about/"]
    ensures KeptPages(pages) == ["about/"]
  {
    assert pages[..2] == ["", "404/"];
    assert ["", "404/"][..1] == [""];
    assert [""][..0] == [];
  }

  /** A link node without `items` renders as its labelled link alone. */
  lemma StartExample(baseUrl: string, start: Node)
    requires start == Node("Start", "/guides/start", "", Absent)
    ensures RenderNode(baseUrl, start, 2) == "- [" + "Start" + "](" + (baseUrl + "/" + "guides/start" + ".md") + ")\n"
  {
    assert ItemUrl(baseUrl, start.link) == baseUrl + "/" + "guides/start" + ".md" by {
      assert start.link == "/" + "guides/start" + "";
      assert AllChar("/", '/');
      ItemUrlOf(baseUrl, "/", "guides/start", "");
    }
    LabelledLinkNode(baseUrl, start, 2);
    ItemsOnlyNode(baseUrl, start.(caption := "", link := ""), 2);
  }

  /** A `Guides` group holding that link renders as a level 2 heading, the
      labelled link and the closing blank line. */
  lemma GuidesExample(baseUrl: string, start: Node, guides: Node)
    requires start == Node("Start", "/guides/start", "", Absent)
    requires guides == Node("Guides", "", "", Array([Obj(start)]))
    ensures RenderNode(baseUrl, guides, 2)
            == "##" + " " + "Guides" + "\n\n" + ("- [" + "Start" + "](" + (baseUrl + "/" + "guides/start" + ".md") + ")\n") + "\n"
  {
    var link := "- [" + "Start" + "](" + (baseUrl + "/" + "guides/start" + ".md") + ")\n";
    assert RenderNode(baseUrl, guides.(caption := ""), 2) == link by {
      ItemsOnlyNode(baseUrl, guides.(caption := ""), 2);
      ChildText(baseUrl, Obj(start), 2);
      StartExample(baseUrl, start);
    }
    HeadingNode(baseUrl, guides, 2);
    assert Repeat('#', 2) == "##";
  }

  /** The whole manifest for that sidebar. */
  lemma SidebarExample(baseUrl: string, start: Node, guides: Node)
    requires baseUrl != "" && !EndsWith(baseUrl, "/")
    requires start == Node("Start", "/guides/start", "", Absent)
    requires guides == Node("Guides", "", "", Array([Obj(start)]))
    ensures Manifest(Some(baseUrl), "T", Some([Obj(guides)]), [])
            == Some("# T Documentation\n\n"
                    + ("##" + " " + "Guides" + "\n\n" + ("- [" + "Start" + "](" + (baseUrl + "/" + "guides/start" + ".md") + ")\n") + "\n"))
  {
    assert TrimBaseUrl(baseUrl) == baseUrl;
    var body := RenderNode(baseUrl, guides, 2);
    assert SidebarText(baseUrl, [Obj(guides)]) == body by {
      assert [Obj(guides)][..0] == [];
    }
    assert Manifest(Some(baseUrl), "T", Some([Obj(guides)]), []) == Some(Header("T") + body) by {
      ManifestOfBase(baseUrl, "T", Some([Obj(guides)]), []);
    }
    assert body == "##" + " " + "Guides" + "\n\n" + ("- [" + "Start" + "](" + (baseUrl + "/" + "guides/start" + ".md") + ")\n") + "\n" by {
      GuidesExample(baseUrl, start, guides);
    }
    HeaderExample();
  }
}
