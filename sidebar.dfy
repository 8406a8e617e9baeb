/** The sidebar renderer of the `llms.txt` manifest: `processSidebarItem`
    walks one sidebar entry and its `items`, turning headings, links, slugs
    and string children into Markdown lines.

    The rendering is modelled in two layers: `NodeEntries` gives the lines a
    node produces, as `Entry` values holding the raw addresses, and `Render`
    spells them out as text against a base url. The method
    `ProcessSidebarItem` is the source's accumulating loop, proved to produce
    `RenderNode`. */
module Sidebar {
  import opened Text

  /** One element of a node's `items` array. */
  datatype Child =
    | Str(s: string)    // a string element, read as a slug
    | Obj(node: Node)   // an object element, rendered recursively
    | Other             // any other value (a number, a boolean): ignored

  /** A node's `items`: absent (or not an array), or an array. */
  datatype Items = Absent | Array(elems: seq<Child>)

  /** A sidebar entry, with its fields read independently. `caption` is the
      entry's `label`; for `caption`, `link` and `slug` the empty string
      stands for a missing field, which JavaScript treats alike. */
  datatype Node = Node(caption: string, link: string, slug: string, items: Items)

  /** One line of the manifest; list items keep the raw address they were
      made from. */
  datatype Entry =
    | Heading(depth: nat, title: string)        // {"#" × depth} {title}
    | LabelledItem(title: string, raw: string)  // - [title](url)
    | UrlItem(raw: string)                      // - url
    | Blank                                     // an empty line

  /** The `.md` address of a link, slug or string child: leading and
      trailing slashes are dropped, and nothing left means the site's
      landing page. */
  function ItemUrl(baseUrl: string, raw: string): (url: string)
    ensures StartsWith(url, baseUrl + "/") && EndsWith(url, ".md")
  {
    var clean := TrimSlashes(raw);
    if clean != "" then
      assert baseUrl + "/" + clean + ".md" == (baseUrl + "/") + (clean + ".md");
      baseUrl + "/" + clean + ".md"
    else
      assert baseUrl + "/index.md" == (baseUrl + "/") + "index.md";
      baseUrl + "/index.md"
  }

  function EntryText(baseUrl: string, e: Entry): string
  {
    match e
    case Heading(depth, title) => Repeat('#', depth) + " " + title + "\n"
    case LabelledItem(title, raw) => "- [" + title + "](" + ItemUrl(baseUrl, raw) + ")\n"
    case UrlItem(raw) => "- " + ItemUrl(baseUrl, raw) + "\n"
    case Blank => "\n"
  }

  /** The text of a sequence of lines, in order. */
  function Render(baseUrl: string, es: seq<Entry>): string
  {
    if es == [] then "" else Render(baseUrl, es[..|es| - 1]) + EntryText(baseUrl, es[|es| - 1])
  }

  /** A node with a label and no link opens a section under a heading. */
  predicate IsHeading(n: Node)
  {
    n.caption != "" && n.link == ""
  }

  /** The level an object child is rendered at: one deeper when it has an
      `items` array of its own. */
  function NextLevel(sub: Node, level: nat): (next: nat)
    ensures sub.items.Array? <==> next == level + 1
    ensures !sub.items.Array? <==> next == level
  {
    if sub.items.Array? then level + 1 else level
  }

  /** The heading that opens a section, followed by a blank line. */
  function HeadEntries(n: Node, level: nat): seq<Entry>
  {
    if IsHeading(n) then [Heading(level, n.caption), Blank] else []
  }

  /** The line of a node's own `link`: labelled from level 2 on. */
  function LinkEntries(n: Node, level: nat): seq<Entry>
  {
    if n.link == "" then []
    else if n.caption != "" && level >= 2 then [LabelledItem(n.caption, n.link)]
    else [UrlItem(n.link)]
  }

  /** The line of a node's `slug`, always bare. */
  function SlugEntries(n: Node): seq<Entry>
  {
    if n.slug != "" then [UrlItem(n.slug)] else []
  }

  /** The blank line that closes a section. */
  function TailEntries(n: Node): seq<Entry>
  {
    if IsHeading(n) then [Blank] else []
  }

  /** The lines node `n` produces at heading level `level`. */
  function NodeEntries(n: Node, level: nat): seq<Entry>
    decreases n
  {
    HeadEntries(n, level) + LinkEntries(n, level) + SlugEntries(n)
    + ItemsEntries(n.items, level) + TailEntries(n)
  }

  /** The lines of a node's `items` under a node rendered at `level`. */
  function ItemsEntries(items: Items, level: nat): seq<Entry>
    decreases items
  {
    match items
    case Absent => []
    case Array(cs) => ChildrenEntries(cs, |cs|, level)
  }

  /** The lines of the first `k` children in `cs`, in order. */
  function ChildrenEntries(cs: seq<Child>, k: nat, level: nat): seq<Entry>
    requires k <= |cs|
    decreases Array(cs), k
  {
    if k == 0 then []
    else
      assert cs[k - 1] in cs;
      ChildrenEntries(cs, k - 1, level) + ChildEntries(cs[k - 1], level)
  }

  /** The lines of one child of a node rendered at `level`. */
  function ChildEntries(c: Child, level: nat): seq<Entry>
    decreases c
  {
    match c
    case Str(s) => [UrlItem(s)]
    case Obj(sub) => NodeEntries(sub, NextLevel(sub, level))
    case Other => []
  }

  /** The text `processSidebarItem(n, level)` returns: whole lines, and at
      least one when the node has a heading, a link or a slug. */
  function RenderNode(baseUrl: string, n: Node, level: nat): (r: string)
    ensures r == "" || r[|r| - 1] == '\n'
    ensures (n.caption != "" || n.link != "" || n.slug != "") ==> r != ""
  {
    RenderLines(baseUrl, NodeEntries(n, level));
    Render(baseUrl, NodeEntries(n, level))
  }

  /** The text of an `items` array under a node rendered at `level`. */
  function ChildrenText(baseUrl: string, cs: seq<Child>, level: nat): string
  {
    Render(baseUrl, ChildrenEntries(cs, |cs|, level))
  }

  // ---------------------------------------------------------------------
  // processSidebarItem

  /** `processSidebarItem`: appends the node's heading, link, slug and
      children to `content` in that order, and closes a heading's section
      with a blank line. */
  method ProcessSidebarItem(baseUrl: string, item: Node, level: nat) returns (content: string)
    ensures content == RenderNode(baseUrl, item, level)
    decreases item
  {
    content := "";

    if item.caption != "" && item.link == "" {
      var heading := Repeat('#', level) + " " + item.caption + "\n\n";
      content := content + heading;
    }
    assert content == Render(baseUrl, HeadEntries(item, level)) by { HeadText(baseUrl, item, level); }
    ghost var head := content;

    if item.link != "" {
      var url := ItemUrl(baseUrl, item.link);
      var line;
      if item.caption != "" && level >= 2 {
        line := "- [" + item.caption + "](" + url + ")\n";
      } else {
        line := "- " + url + "\n";
      }
      content := content + line;
    }
    assert content == head + Render(baseUrl, LinkEntries(item, level)) by { LinkText(baseUrl, item, level); }
    ghost var upToLink := content;

    if item.slug != "" {
      var line := "- " + ItemUrl(baseUrl, item.slug) + "\n";
      content := content + line;
    }
    assert content == upToLink + Render(baseUrl, SlugEntries(item)) by { SlugText(baseUrl, item); }
    ghost var upToSlug := content;

    if item.items.Array? {
      var children := ProcessItems(baseUrl, item.items.elems, level);
      content := content + children;
    }
    assert content == upToSlug + Render(baseUrl, ItemsEntries(item.items, level));
    ghost var upToItems := content;

    if item.caption != "" && item.link == "" {
      content := content + "\n";
    }
    assert content == upToItems + Render(baseUrl, TailEntries(item)) by { TailText(baseUrl, item); }
    assert content == RenderNode(baseUrl, item, level) by { NodeText(baseUrl, item, level); }
  }

  /** The `for (const subItem of item.items)` loop of `processSidebarItem`:
      appends each child's text in declaration order. */
  method ProcessItems(baseUrl: string, cs: seq<Child>, level: nat) returns (content: string)
    ensures content == ChildrenText(baseUrl, cs, level)
    decreases Array(cs)
  {
    content := "";
    var i := 0;
    assert ChildrenEntries(cs, 0, level) == [];
    while i < |cs|
      invariant 0 <= i <= |cs|
      invariant content == Render(baseUrl, ChildrenEntries(cs, i, level))
    {
      ghost var before := ChildrenEntries(cs, i, level);
      var part := "";
      match cs[i] {
        case Str(s) =>
          part := "- " + ItemUrl(baseUrl, s) + "\n";
          RenderOne(baseUrl, UrlItem(s));
        case Obj(sub) =>
          assert cs[i] in cs;
          var nextLevel := if sub.items.Array? then level + 1 else level;
          part := ProcessSidebarItem(baseUrl, sub, nextLevel);
        case Other =>
      }
      assert part == Render(baseUrl, ChildEntries(cs[i], level));
      content := content + part;
      assert content == Render(baseUrl, ChildrenEntries(cs, i + 1, level)) by {
        RenderAppend(baseUrl, before, ChildEntries(cs[i], level));
        assert ChildrenEntries(cs, i + 1, level) == before + ChildEntries(cs[i], level);
      }
      i := i + 1;
    }
  }

  // ---------------------------------------------------------------------
  // rendering lines as text

  /** The text of some lines is empty exactly when there are none, and
      otherwise ends with a line break. */
  lemma {:induction false} RenderLines(baseUrl: string, es: seq<Entry>)
    ensures Render(baseUrl, es) == "" <==> es == []
    ensures Render(baseUrl, es) != "" ==> Render(baseUrl, es)[|Render(baseUrl, es)| - 1] == '\n'
  {
    if es != [] {
      var t := EntryText(baseUrl, es[|es| - 1]);
      assert t != "" && t[|t| - 1] == '\n';
    }
  }

  lemma RenderOne(baseUrl: string, e: Entry)
    ensures Render(baseUrl, [e]) == EntryText(baseUrl, e)
  {
    assert [e][..0] == [];
  }

  /** Rendering distributes over concatenation. */
  lemma {:induction false} RenderAppend(baseUrl: string, a: seq<Entry>, b: seq<Entry>)
    ensures Render(baseUrl, a + b) == Render(baseUrl, a) + Render(baseUrl, b)
    decreases |b|
  {
    if b == [] {
      assert a + b == a;
    } else {
      var front, last := b[..|b| - 1], b[|b| - 1];
      var x, y, z := Render(baseUrl, a), Render(baseUrl, front), EntryText(baseUrl, last);
      assert Render(baseUrl, a + b) == Render(baseUrl, a + front) + z by {
        assert (a + b)[..|a + b| - 1] == a + front;
        assert (a + b)[|a + b| - 1] == last;
      }
      assert Render(baseUrl, a + front) == x + y by { RenderAppend(baseUrl, a, front); }
      assert Render(baseUrl, b) == y + z;
      AppendAssoc(x, y, z);
    }
  }

  lemma AppendAssoc(x: string, y: string, z: string)
    ensures x + y + z == x + (y + z)
  {
  }

  /** Empty first and last parts drop out of a concatenation. */
  lemma DropEmptyEnds(h: string, x: string, y: string, z: string, t: string)
    requires h == "" && t == ""
    ensures h + x + y + z + t == x + (y + z)
  {
  }

  /** The text of each part of a node, as the source spells it out. */
  lemma HeadText(baseUrl: string, n: Node, level: nat)
    ensures Render(baseUrl, HeadEntries(n, level))
            == if IsHeading(n) then Repeat('#', level) + " " + n.caption + "\n\n" else ""
  {
    if IsHeading(n) {
      var h := Heading(level, n.caption);
      RenderAppend(baseUrl, [h], [Blank]);
      assert HeadEntries(n, level) == [h] + [Blank];
      RenderOne(baseUrl, h);
      RenderOne(baseUrl, Blank);
    }
  }

  lemma LinkText(baseUrl: string, n: Node, level: nat)
    ensures Render(baseUrl, LinkEntries(n, level))
            == if n.link == "" then ""
               else if n.caption != "" && level >= 2 then "- [" + n.caption + "](" + ItemUrl(baseUrl, n.link) + ")\n"
               else "- " + ItemUrl(baseUrl, n.link) + "\n"
  {
    if n.link != "" {
      RenderOne(baseUrl, LinkEntries(n, level)[0]);
    }
  }

  lemma SlugText(baseUrl: string, n: Node)
    ensures Render(baseUrl, SlugEntries(n)) == if n.slug != "" then "- " + ItemUrl(baseUrl, n.slug) + "\n" else ""
  {
    if n.slug != "" {
      RenderOne(baseUrl, UrlItem(n.slug));
    }
  }

  lemma TailText(baseUrl: string, n: Node)
    ensures Render(baseUrl, TailEntries(n)) == if IsHeading(n) then "\n" else ""
  {
    if IsHeading(n) {
      RenderOne(baseUrl, Blank);
    }
  }

  /** A node's text is its heading, link, slug, children and closing line,
      in that order. */
  lemma NodeText(baseUrl: string, n: Node, level: nat)
    ensures RenderNode(baseUrl, n, level)
            == Render(baseUrl, HeadEntries(n, level)) + Render(baseUrl, LinkEntries(n, level))
               + Render(baseUrl, SlugEntries(n)) + Render(baseUrl, ItemsEntries(n.items, level))
               + Render(baseUrl, TailEntries(n))
  {
    var h, l, s, k, t := HeadEntries(n, level), LinkEntries(n, level), SlugEntries(n),
                         ItemsEntries(n.items, level), TailEntries(n);
    RenderAppend(baseUrl, h + l + s + k, t);
    RenderAppend(baseUrl, h + l + s, k);
    RenderAppend(baseUrl, h + l, s);
    RenderAppend(baseUrl, h, l);
  }

  // ---------------------------------------------------------------------
  // the shape of a node's text

  /** A node with a label and no link renders as `{"#" × level} {label}`,
      a blank line, what the node renders without its label, and one
      closing blank line. */
  lemma HeadingNode(baseUrl: string, n: Node, level: nat)
    requires IsHeading(n)
    ensures RenderNode(baseUrl, n, level)
            == Repeat('#', level) + " " + n.caption + "\n\n"
               + RenderNode(baseUrl, n.(caption := ""), level) + "\n"
  {
    var m := n.(caption := "");
    NodeText(baseUrl, n, level);
    NodeText(baseUrl, m, level);
    HeadText(baseUrl, n, level);
    HeadText(baseUrl, m, level);
    TailText(baseUrl, n);
    TailText(baseUrl, m);
    var h := Render(baseUrl, HeadEntries(n, level));
    var l := Render(baseUrl, LinkEntries(n, level));
    var s := Render(baseUrl, SlugEntries(n));
    var k := Render(baseUrl, ItemsEntries(n.items, level));
    var t := Render(baseUrl, TailEntries(n));
    assert Render(baseUrl, HeadEntries(m, level)) == "";
    assert Render(baseUrl, TailEntries(m)) == "";
    assert LinkEntries(m, level) == LinkEntries(n, level);
    assert SlugEntries(m) == SlugEntries(n);
    assert RenderNode(baseUrl, m, level) == l + s + k;
    AppendAssoc(h, l, s);
    AppendAssoc(h, l + s, k);
  }

  /** At level 2 or deeper a labelled link renders as `- [label](url)`,
      followed by what the rest of the node renders. */
  lemma LabelledLinkNode(baseUrl: string, n: Node, level: nat)
    requires n.caption != "" && n.link != "" && level >= 2
    ensures RenderNode(baseUrl, n, level)
            == "- [" + n.caption + "](" + ItemUrl(baseUrl, n.link) + ")\n"
               + RenderNode(baseUrl, n.(caption := "", link := ""), level)
  {
    LinkFirst(baseUrl, n, level);
    LinkText(baseUrl, n, level);
  }

  /** A link without a label renders as the bare `- url`. */
  lemma BareLinkNode(baseUrl: string, n: Node, level: nat)
    requires n.caption == "" && n.link != ""
    ensures RenderNode(baseUrl, n, level)
            == "- " + ItemUrl(baseUrl, n.link) + "\n" + RenderNode(baseUrl, n.(link := ""), level)
  {
    LinkFirst(baseUrl, n, level);
    assert n.(link := "") == n.(caption := "", link := "");
    LinkText(baseUrl, n, level);
  }

  /** A node with a link renders its link line first, then what the node
      without its link and its label renders. */
  lemma LinkFirst(baseUrl: string, n: Node, level: nat)
    requires n.link != ""
    ensures RenderNode(baseUrl, n, level)
            == Render(baseUrl, LinkEntries(n, level)) + RenderNode(baseUrl, n.(caption := "", link := ""), level)
  {
    var m := n.(caption := "", link := "");
    var s, k := Render(baseUrl, SlugEntries(n)), Render(baseUrl, ItemsEntries(n.items, level));
    assert RenderNode(baseUrl, m, level) == s + k by {
      PlainNode(baseUrl, m, level);
      assert LinkEntries(m, level) == [];
      assert SlugEntries(m) == SlugEntries(n);
    }
    PlainNode(baseUrl, n, level);
  }

  /** A node that opens no section renders its link, then its slug and its
      children. */
  lemma PlainNode(baseUrl: string, n: Node, level: nat)
    requires !IsHeading(n)
    ensures RenderNode(baseUrl, n, level)
            == Render(baseUrl, LinkEntries(n, level))
               + (Render(baseUrl, SlugEntries(n)) + Render(baseUrl, ItemsEntries(n.items, level)))
  {
    var h, t := Render(baseUrl, HeadEntries(n, level)), Render(baseUrl, TailEntries(n));
    assert h == "" by { HeadText(baseUrl, n, level); }
    assert t == "" by { TailText(baseUrl, n); }
    NodeText(baseUrl, n, level);
    DropEmptyEnds(h, Render(baseUrl, LinkEntries(n, level)), Render(baseUrl, SlugEntries(n)),
                  Render(baseUrl, ItemsEntries(n.items, level)), t);
  }

  /** A slug renders as the bare `- url`, after any link. */
  lemma SlugNode(baseUrl: string, n: Node, level: nat)
    requires n.caption == "" && n.link == "" && n.slug != ""
    ensures RenderNode(baseUrl, n, level)
            == "- " + ItemUrl(baseUrl, n.slug) + "\n" + RenderNode(baseUrl, n.(slug := ""), level)
  {
    var m := n.(slug := "");
    NodeText(baseUrl, n, level);
    NodeText(baseUrl, m, level);
    SlugText(baseUrl, n);
    SlugText(baseUrl, m);
    HeadText(baseUrl, n, level);
    HeadText(baseUrl, m, level);
    TailText(baseUrl, n);
    TailText(baseUrl, m);
    LinkText(baseUrl, n, level);
    LinkText(baseUrl, m, level);
    var s := Render(baseUrl, SlugEntries(n));
    var k := Render(baseUrl, ItemsEntries(n.items, level));
    assert RenderNode(baseUrl, n, level) == s + k;
    assert RenderNode(baseUrl, m, level) == k;
  }

  /** An object child holding a section with an `items` array of its own
      opens its heading one level deeper than its parent. */
  lemma NestedSection(baseUrl: string, sub: Node, level: nat)
    requires IsHeading(sub) && sub.items.Array?
    ensures ChildrenText(baseUrl, [Obj(sub)], level)
            == Repeat('#', level + 1) + " " + sub.caption + "\n\n"
               + RenderNode(baseUrl, sub.(caption := ""), level + 1) + "\n"
  {
    ChildText(baseUrl, Obj(sub), level);
    HeadingNode(baseUrl, sub, level + 1);
  }

  /** Without label, link and slug a node renders just its children; with
      no `items` array either, it contributes nothing. */
  lemma ItemsOnlyNode(baseUrl: string, n: Node, level: nat)
    requires n.caption == "" && n.link == "" && n.slug == ""
    ensures RenderNode(baseUrl, n, level)
            == if n.items.Array? then ChildrenText(baseUrl, n.items.elems, level) else ""
  {
    NodeText(baseUrl, n, level);
  }

  /** The lines of the first `k` children depend on those children only. */
  lemma {:induction false} ChildrenEntriesPrefix(cs: seq<Child>, ds: seq<Child>, k: nat, level: nat)
    requires k <= |cs| && k <= |ds| && cs[..k] == ds[..k]
    ensures ChildrenEntries(cs, k, level) == ChildrenEntries(ds, k, level)
    decreases k
  {
    if k > 0 {
      assert cs[..k - 1] == ds[..k - 1] by {
        assert cs[..k - 1] == cs[..k][..k - 1];
        assert ds[..k - 1] == ds[..k][..k - 1];
      }
      assert cs[k - 1] == cs[..k][k - 1] == ds[..k][k - 1] == ds[k - 1];
      ChildrenEntriesPrefix(cs, ds, k - 1, level);
    }
  }

  lemma {:induction false} ChildrenEntriesAppend(a: seq<Child>, b: seq<Child>, level: nat)
    ensures ChildrenEntries(a + b, |a + b|, level)
            == ChildrenEntries(a, |a|, level) + ChildrenEntries(b, |b|, level)
    decreases |b|
  {
    if b == [] {
      assert a + b == a;
    } else {
      var front := b[..|b| - 1];
      var last := b[|b| - 1];
      ChildrenEntriesAppend(a, front, level);
      assert (a + b)[..|a + front|] == (a + front)[..|a + front|];
      ChildrenEntriesPrefix(a + b, a + front, |a + front|, level);
      ChildrenEntriesPrefix(b, front, |front|, level);
      assert (a + b)[|a + b| - 1] == last;
    }
  }

  /** Children render in declaration order: the text of `a + b` is that of
      `a` followed by that of `b`. */
  lemma ChildrenTextAppend(baseUrl: string, a: seq<Child>, b: seq<Child>, level: nat)
    ensures ChildrenText(baseUrl, a + b, level)
            == ChildrenText(baseUrl, a, level) + ChildrenText(baseUrl, b, level)
  {
    ChildrenEntriesAppend(a, b, level);
    RenderAppend(baseUrl, ChildrenEntries(a, |a|, level), ChildrenEntries(b, |b|, level));
  }

  /** A single child: a string renders as a bare `- url`, an object as its
      own rendering one level deeper when it has `items`, anything else as
      nothing. */
  lemma ChildText(baseUrl: string, c: Child, level: nat)
    ensures ChildrenText(baseUrl, [c], level)
            == match c
               case Str(s) => "- " + ItemUrl(baseUrl, s) + "\n"
               case Obj(sub) => RenderNode(baseUrl, sub, NextLevel(sub, level))
               case Other => ""
  {
    assert ChildrenEntries([c], 1, level) == ChildEntries(c, level);
    if c.Str? {
      RenderOne(baseUrl, UrlItem(c.s));
    }
  }

  // ---------------------------------------------------------------------
  // addresses

  /** An address surrounded by slashes resolves to `{baseUrl}/{p}.md`. */
  lemma ItemUrlOf(baseUrl: string, lead: string, p: string, trail: string)
    requires AllChar(lead, '/') && AllChar(trail, '/')
    requires p != "" && p[0] != '/' && p[|p| - 1] != '/'
    ensures ItemUrl(baseUrl, lead + p + trail) == baseUrl + "/" + p + ".md"
  {
    TrimSlashesOf(lead, p, trail);
  }

  /** An address made only of slashes (or empty) is the landing page. */
  lemma ItemUrlOfSlashes(baseUrl: string, raw: string)
    requires AllChar(raw, '/')
    ensures ItemUrl(baseUrl, raw) == baseUrl + "/index.md"
  {
    TrimSlashesEmpty(raw);
  }

  // ---------------------------------------------------------------------
  // heading levels

  /** Every heading in the lines is at least `level` deep. */
  predicate DepthsAtLeast(es: seq<Entry>, level: nat)
  {
    forall i :: 0 <= i < |es| && es[i].Heading? ==> es[i].depth >= level
  }

  lemma DepthsAppend(a: seq<Entry>, b: seq<Entry>, level: nat)
    requires DepthsAtLeast(a, level) && DepthsAtLeast(b, level)
    ensures DepthsAtLeast(a + b, level)
  {
    forall i | 0 <= i < |a + b| && (a + b)[i].Heading? ensures (a + b)[i].depth >= level {
      if i < |a| { assert (a + b)[i] == a[i]; } else { assert (a + b)[i] == b[i - |a|]; }
    }
  }

  /** Headings never go above the level rendering starts at: levels only
      grow on the way down. */
  lemma {:induction false} NodeDepths(n: Node, level: nat)
    ensures DepthsAtLeast(NodeEntries(n, level), level)
    decreases n
  {
    var h, l, s, k, t := HeadEntries(n, level), LinkEntries(n, level), SlugEntries(n),
                         ItemsEntries(n.items, level), TailEntries(n);
    ItemsDepths(n.items, level);
    DepthsAppend(h, l, level);
    DepthsAppend(h + l, s, level);
    DepthsAppend(h + l + s, k, level);
    DepthsAppend(h + l + s + k, t, level);
  }

  lemma {:induction false} ItemsDepths(items: Items, level: nat)
    ensures DepthsAtLeast(ItemsEntries(items, level), level)
    decreases items
  {
    match items {
      case Absent =>
      case Array(cs) => ChildrenDepths(cs, |cs|, level);
    }
  }

  lemma {:induction false} ChildrenDepths(cs: seq<Child>, k: nat, level: nat)
    requires k <= |cs|
    ensures DepthsAtLeast(ChildrenEntries(cs, k, level), level)
    decreases Array(cs), k
  {
    if k > 0 {
      assert cs[k - 1] in cs;
      ChildrenDepths(cs, k - 1, level);
      ChildDepths(cs[k - 1], level);
      DepthsAppend(ChildrenEntries(cs, k - 1, level), ChildEntries(cs[k - 1], level), level);
    }
  }

  lemma {:induction false} ChildDepths(c: Child, level: nat)
    ensures DepthsAtLeast(ChildEntries(c, level), level)
    decreases c
  {
    match c {
      case Str(_) =>
      case Obj(sub) => NodeDepths(sub, NextLevel(sub, level));
      case Other =>
    }
  }

  // ---------------------------------------------------------------------
  // every address once, in declaration order

  /** A target of the tree: a `link` (with the node's label), a `slug` or a
      string child (both without one, written ""). */
  datatype Target = Target(title: string, raw: string)

  /** The tree's targets in declaration order. */
  function NodeTargets(n: Node): seq<Target>
    decreases n
  {
    (if n.link != "" then [Target(n.caption, n.link)] else [])
    + (if n.slug != "" then [Target("", n.slug)] else [])
    + ItemsTargets(n.items)
  }

  function ItemsTargets(items: Items): seq<Target>
    decreases items
  {
    match items
    case Absent => []
    case Array(cs) => ChildrenTargets(cs, |cs|)
  }

  function ChildrenTargets(cs: seq<Child>, k: nat): seq<Target>
    requires k <= |cs|
    decreases Array(cs), k
  {
    if k == 0 then []
    else
      assert cs[k - 1] in cs;
      ChildrenTargets(cs, k - 1) + ChildTargets(cs[k - 1])
  }

  function ChildTargets(c: Child): seq<Target>
    decreases c
  {
    match c
    case Str(s) => [Target("", s)]
    case Obj(sub) => NodeTargets(sub)
    case Other => []
  }

  /** The list items of some lines, in order, with "" for a bare item. */
  function Links(es: seq<Entry>): seq<Target>
  {
    if es == [] then []
    else
      Links(es[..|es| - 1])
      + match es[|es| - 1]
        case LabelledItem(title, raw) => [Target(title, raw)]
        case UrlItem(raw) => [Target("", raw)]
        case _ => []
  }

  lemma {:induction false} LinksAppend(a: seq<Entry>, b: seq<Entry>)
    ensures Links(a + b) == Links(a) + Links(b)
    decreases |b|
  {
    if b == [] {
      assert a + b == a;
    } else {
      var front, last := b[..|b| - 1], b[|b| - 1];
      var x, y, z := Links(a), Links(front), Links([last]);
      LinksOne(last);
      assert Links(a + b) == Links(a + front) + z by {
        assert (a + b)[..|a + b| - 1] == a + front;
        assert (a + b)[|a + b| - 1] == last;
      }
      assert Links(a + front) == x + y by { LinksAppend(a, front); }
      assert Links(b) == y + z;
      assert x + y + z == x + (y + z);
    }
  }

  lemma LinksOne(e: Entry)
    ensures Links([e]) == match e
                          case LabelledItem(title, raw) => [Target(title, raw)]
                          case UrlItem(raw) => [Target("", raw)]
                          case _ => []
  {
    assert [e][..0] == [];
  }

  /** Rendered at level 2 or deeper, every link, slug and string child of
      the tree becomes exactly one list item, in declaration order; a link
      keeps its node's label, and slugs and strings are bare. */
  lemma {:induction false} NodeLinks(n: Node, level: nat)
    requires level >= 2
    ensures Links(NodeEntries(n, level)) == NodeTargets(n)
    decreases n
  {
    var h, l, s, k, t := HeadEntries(n, level), LinkEntries(n, level), SlugEntries(n),
                         ItemsEntries(n.items, level), TailEntries(n);
    assert Links(h) == [] by { HeadLinks(n, level); }
    assert Links(t) == [] by { TailLinks(n); }
    assert Links(l) == (if n.link != "" then [Target(n.caption, n.link)] else []) by {
      if n.link != "" { LinksOne(l[0]); }
    }
    assert Links(s) == (if n.slug != "" then [Target("", n.slug)] else []) by {
      if n.slug != "" { LinksOne(s[0]); }
    }
    assert Links(k) == ItemsTargets(n.items) by { ItemsLinks(n.items, level); }
    assert Links(h + l + s + k + t) == Links(h) + Links(l) + Links(s) + Links(k) + Links(t) by {
      LinksAppend(h + l + s + k, t);
      LinksAppend(h + l + s, k);
      LinksAppend(h + l, s);
      LinksAppend(h, l);
    }
  }

  /** Headings and blank lines are not list items. */
  lemma HeadLinks(n: Node, level: nat)
    ensures Links(HeadEntries(n, level)) == []
  {
    if IsHeading(n) {
      LinksAppend([Heading(level, n.caption)], [Blank]);
      assert HeadEntries(n, level) == [Heading(level, n.caption)] + [Blank];
      LinksOne(Heading(level, n.caption));
      LinksOne(Blank);
    }
  }

  lemma TailLinks(n: Node)
    ensures Links(TailEntries(n)) == []
  {
    if IsHeading(n) { LinksOne(Blank); }
  }

  lemma {:induction false} ItemsLinks(items: Items, level: nat)
    requires level >= 2
    ensures Links(ItemsEntries(items, level)) == ItemsTargets(items)
    decreases items
  {
    match items {
      case Absent =>
      case Array(cs) => ChildrenLinks(cs, |cs|, level);
    }
  }

  lemma {:induction false} ChildrenLinks(cs: seq<Child>, k: nat, level: nat)
    requires level >= 2 && k <= |cs|
    ensures Links(ChildrenEntries(cs, k, level)) == ChildrenTargets(cs, k)
    decreases Array(cs), k
  {
    if k > 0 {
      assert cs[k - 1] in cs;
      var front, last := ChildrenEntries(cs, k - 1, level), ChildEntries(cs[k - 1], level);
      assert ChildrenEntries(cs, k, level) == front + last;
      assert ChildrenTargets(cs, k) == ChildrenTargets(cs, k - 1) + ChildTargets(cs[k - 1]);
      assert Links(front) == ChildrenTargets(cs, k - 1) by { ChildrenLinks(cs, k - 1, level); }
      assert Links(last) == ChildTargets(cs[k - 1]) by { ChildLinks(cs[k - 1], level); }
      LinksAppend(front, last);
    }
  }

  lemma {:induction false} ChildLinks(c: Child, level: nat)
    requires level >= 2
    ensures Links(ChildEntries(c, level)) == ChildTargets(c)
    decreases c
  {
    match c {
      case Str(s) => LinksOne(UrlItem(s));
      case Obj(sub) => NodeLinks(sub, NextLevel(sub, level));
      case Other =>
    }
  }
}
