# Starlight page actions: document mirror and `llms.txt` manifest

This project models the build-time core of the `starlight-page-actions` plugin
(`src/integrations/starlight-page-actions/index.ts`) and proves properties of that model.
The core has four parts:

- **Settings.** The caller's options are spread over a default prompt.
- **Document mirror.** This is the `rename` callback of the static-copy step. It picks the
  `.md` destination for each content document under `src/content/docs/`. A folder's `index`
  document goes to the folder's own name.
- **Sidebar renderer.** This is `processSidebarItem` and the loop over the top-level sidebar
  groups. Headings become `#` lines, links become `- [label](url)` or `- url`, and slugs and
  string children become `- url`. Children are rendered recursively, one level deeper when
  they have `items` of their own.
- **Manifest.** The `astro:build:done` hook writes nothing without a `baseUrl`. Otherwise it
  trims one trailing slash off the base url, writes a title line, and then writes either the
  rendered sidebar or a flat listing of the generated pages.

Modules:

- `Wrappers` holds `Option` and `Result`.
- `Text` gives the JavaScript string operations the code uses: `split`, `join`, `repeat`, the
  slash-trimming regular expression and `split(pat)[1]`.
- `PageActionsConfig` is the settings merge.
- `DocumentMirror` is `rename`.
- `Sidebar` is `processSidebarItem`.
- `LlmsManifest` is the build-done hook.

The two parts that are pure expressions are modelled as functions: `rename` and the fallback
listing. The two accumulating loops are methods: `processSidebarItem` with its loop over
`items`, and the hook's loop over the sidebar groups. Each method is proved to return a
specification function.

- `Sidebar.ProcessSidebarItem` returns `Sidebar.RenderNode`. That function is defined in two
  layers. The first gives the sequence of `Entry` lines a node produces; the second spells
  those lines out against the base url.
- `LlmsManifest.BuildDone` returns `LlmsManifest.Manifest`.

The lemmas then state what the rendering means:

- the exact text each kind of node produces;
- every heading is at least as deep as the level it was rendered at;
- the list items are exactly the tree's links, slugs and string children, each once, in
  declaration order, each with its label when it has one.

Two behaviours of the code are worth stating on their own:

- **The mirror mapping is not one-to-one.** The document `d/n.md` and the folder index
  `d/n/index.md` both go to `d/n.md` (`DocumentMirror.MirrorCollision`).
- **An empty sidebar array still counts as a sidebar.** `[]` is truthy and an array, so the
  manifest is the title line alone (`LlmsManifest.ManifestOfEmptySidebar`). The page listing
  is used only when there is no sidebar array.

## Model

| member | source | states |
|---|---|---|
| PageActionsConfig.ResolveConfig | src/integrations/starlight-page-actions/index.ts:49-52 | With no options, the settings are the default prompt and no base url. A prompt the caller gives wins; a missing one keeps the default. The base url is exactly the caller's. |
| PageActionsConfig.ResolveIdempotent | src/integrations/starlight-page-actions/index.ts:49-52 | Feeding resolved settings back in as options changes nothing. |
| PageActionsConfig.ResolveEmptyOptions | src/integrations/starlight-page-actions/index.ts:49-52 | An options object with no fields gives the same settings as no options. |
| Text.SecondPiece | src/integrations/starlight-page-actions/index.ts:94-96 | `split(pat)[1]` is undefined exactly when the pattern occurs nowhere in the path. |
| Text.SecondPieceOfSingle | src/integrations/starlight-page-actions/index.ts:94-96 | When the pattern occurs only once, `split(pat)[1]` is everything after that occurrence. |
| Text.Split | src/integrations/starlight-page-actions/index.ts:98 | `split` never returns an empty array. |
| Text.SplitPieces | src/integrations/starlight-page-actions/index.ts:98 | No piece of a split contains the separator. |
| Text.JoinSplit | src/integrations/starlight-page-actions/index.ts:98 | Joining the pieces of a split with the separator gives back the string. |
| Text.SplitJoin | src/integrations/starlight-page-actions/index.ts:98 | Splitting a `/`-join of slash-free segments on `/` gives back the same segments. |
| Text.JoinEnds | src/integrations/starlight-page-actions/index.ts:104-106 | A join of at least one part starts with its first part and ends with its last one. |
| Text.JoinAppendOne | src/integrations/starlight-page-actions/index.ts:116-118 | Joining one more part appends the separator and that part. |
| Text.Repeat | src/integrations/starlight-page-actions/index.ts:147 | `"#".repeat(n)` has length `n` and holds only `#`. |
| Text.TrimSlashes | src/integrations/starlight-page-actions/index.ts:151 | The result of `replace(/^\/+\|\/+$/g, "")` neither starts nor ends with a slash. |
| Text.TrimSlashesOf | src/integrations/starlight-page-actions/index.ts:151 | Runs of slashes around a part that has none at its ends are removed, and exactly that part is left. |
| Text.TrimSlashesEmpty | src/integrations/starlight-page-actions/index.ts:151 | Trimming leaves nothing if and only if the string is only slashes. |
| DocumentMirror.StripExtension | src/integrations/starlight-page-actions/index.ts:97 | A path ending in `.ext` loses exactly that suffix; any other path is unchanged. |
| DocumentMirror.StripExtensionOfSuffixed | src/integrations/starlight-page-actions/index.ts:97 | Removing `.ext` from `q + ".ext"` gives `q`. |
| DocumentMirror.MirrorPath | src/integrations/starlight-page-actions/index.ts:98-123 | Every destination ends in `.md`. |
| DocumentMirror.Rename | src/integrations/starlight-page-actions/index.ts:87-124 | Fails if and only if the content root `src/content/docs/` does not occur in the path (the source throws there). Every destination it gives ends in `.md`. |
| DocumentMirror.MirrorIndexFolder | src/integrations/starlight-page-actions/index.ts:100-113 | The index document of folder `d1/…/dk/F` goes to `d1/…/dk/F.md`, or to `F.md` when no directory is above `F`. |
| DocumentMirror.MirrorDocument | src/integrations/starlight-page-actions/index.ts:116-123 | Any other document in `d1/…/dk` goes to `d1/…/dk/{fileName}.md`, or to `{fileName}.md` at the root. |
| DocumentMirror.MirrorCollision | src/integrations/starlight-page-actions/index.ts:100-123 | `d/n` and `d/n/index` get the same destination, so the mapping is not injective. |
| DocumentMirror.MirrorExampleIndex | src/integrations/starlight-page-actions/index.ts:100-113 | `guides/setup/index` goes to `guides/setup.md`. |
| DocumentMirror.MirrorExampleDocument | src/integrations/starlight-page-actions/index.ts:116-123 | `guides/setup/intro` goes to `guides/setup/intro.md`. |
| DocumentMirror.OccursOnlyBetween | src/integrations/starlight-page-actions/index.ts:94-96 | If neither side contains the content root, it occurs in `prefix + root + rest` only where it was placed, because the root cannot overlap itself. |
| DocumentMirror.RenameAfterRoot | src/integrations/starlight-page-actions/index.ts:92-98 | With one occurrence of the content root, renaming applies the segment rule to the text after it, with the extension removed. |
| DocumentMirror.RenameOfDocument | src/integrations/starlight-page-actions/index.ts:87-124 | For a full path `prefix + src/content/docs/ + d1/…/dk.ext`, `rename` is the segment rule applied to `d1, …, dk`. |
| DocumentMirror.RenameRootIndex | src/integrations/starlight-page-actions/index.ts:100-102 | The index document directly under the content root goes to exactly `index.md`. |
| Sidebar.NextLevel | src/integrations/starlight-page-actions/index.ts:180-182 | An object child is rendered one level deeper than its parent if and only if it has an `items` array, and otherwise at the same level. |
| Sidebar.NestedSection | src/integrations/starlight-page-actions/index.ts:179-183 | A section child with an `items` array of its own opens its heading with one more `#` than its parent's level. |
| Sidebar.ProcessSidebarItem | src/integrations/starlight-page-actions/index.ts:143-193 | The accumulated text equals the node's rendering: heading, link, slug, children and the closing blank line, in that order. |
| Sidebar.RenderNode | src/integrations/starlight-page-actions/index.ts:143-193 | The text `processSidebarItem` returns is whole lines: empty or ending in a line break. It is not empty when the node has a label, a link or a slug. |
| Sidebar.RenderLines | src/integrations/starlight-page-actions/index.ts:143-193 | The text of some lines is empty exactly when there are none, and otherwise ends with a line break. |
| Sidebar.ProcessItems | src/integrations/starlight-page-actions/index.ts:171-186 | The loop over `items` appends each child's rendering in order, giving the rendering of the whole array. |
| Sidebar.HeadText | src/integrations/starlight-page-actions/index.ts:146-148 | A node with a label and no link opens with `{"#" × level} {label}` and a blank line. Any other node opens with nothing. |
| Sidebar.LinkText | src/integrations/starlight-page-actions/index.ts:150-161 | A link renders as `- [label](url)` when labelled at level 2 or deeper, otherwise as `- url`. No link renders nothing. |
| Sidebar.SlugText | src/integrations/starlight-page-actions/index.ts:163-169 | A slug always renders as a bare `- url`. |
| Sidebar.TailText | src/integrations/starlight-page-actions/index.ts:188-190 | A heading's section ends with one blank line; other nodes add nothing. |
| Sidebar.NodeText | src/integrations/starlight-page-actions/index.ts:143-193 | A node's text is its heading, link, slug, items and closing parts, concatenated in that order. |
| Sidebar.HeadingNode | src/integrations/starlight-page-actions/index.ts:146-148 | A labelled node without a link renders as its heading, its unlabelled body, and a closing `\n`. |
| Sidebar.LabelledLinkNode | src/integrations/starlight-page-actions/index.ts:150-157 | A labelled link at level 2 or deeper renders as `- [label](url)` followed by the rest of the node. |
| Sidebar.BareLinkNode | src/integrations/starlight-page-actions/index.ts:150-160 | An unlabelled link renders as `- url` followed by the rest of the node. |
| Sidebar.LinkFirst | src/integrations/starlight-page-actions/index.ts:150-186 | A node with a link renders its link line first, then what the node renders without its link and label. |
| Sidebar.PlainNode | src/integrations/starlight-page-actions/index.ts:150-186 | A node that opens no section renders its link, its slug and its children, in that order. |
| Sidebar.SlugNode | src/integrations/starlight-page-actions/index.ts:163-169 | A slug with neither label nor link renders as `- url` followed by the node's children. |
| Sidebar.ItemsOnlyNode | src/integrations/starlight-page-actions/index.ts:171-186 | A node with no label, link or slug renders as its children alone, and as nothing when it has no `items` array. |
| Sidebar.ChildText | src/integrations/starlight-page-actions/index.ts:172-184 | A string child renders as `- url`, an object child recursively at the next level, and any other value as nothing. |
| Sidebar.ChildrenTextAppend | src/integrations/starlight-page-actions/index.ts:172-185 | Children render in array order: the text of `a + b` is that of `a` followed by that of `b`. |
| Sidebar.RenderAppend | src/integrations/starlight-page-actions/index.ts:143-193 | Rendering lines distributes over concatenation, so output order is line order. |
| Sidebar.ItemUrl | src/integrations/starlight-page-actions/index.ts:151-154 | Every item address, for a link, a slug or a string child alike, starts with `{baseUrl}/` and ends with `.md`. |
| Sidebar.ItemUrlOf | src/integrations/starlight-page-actions/index.ts:151-153 | A raw address `/…/p/…/` with slash-free ends `p` gives `{baseUrl}/p.md`. |
| Sidebar.ItemUrlOfSlashes | src/integrations/starlight-page-actions/index.ts:151-154 | An empty or slashes-only address gives `{baseUrl}/index.md`. |
| Sidebar.NodeDepths | src/integrations/starlight-page-actions/index.ts:143-193 | Every heading a node produces at level `l` has at least `l` `#` characters, the children's included. |
| Sidebar.NodeLinks | src/integrations/starlight-page-actions/index.ts:150-186 | From level 2 on, the list items a node produces are exactly its link (with its label), its slug and its descendants' targets, each once, in declaration order. |
| Sidebar.ChildrenLinks | src/integrations/starlight-page-actions/index.ts:172-185 | The list items of an `items` array are its children's targets, in array order. |
| LlmsManifest.TrimBaseUrl | src/integrations/starlight-page-actions/index.ts:135-137 | A base url ending in `/` loses exactly that slash; any other is unchanged. |
| LlmsManifest.TrimBaseUrlOnce | src/integrations/starlight-page-actions/index.ts:135-137 | Only one trailing slash is removed: `u + "/"` becomes `u`, even when `u` itself ends in a slash. |
| LlmsManifest.Header | src/integrations/starlight-page-actions/index.ts:140 | The title line is `# `, the title and ` Documentation` followed by a blank line, and the title can be read back from it. |
| LlmsManifest.GroupText | src/integrations/starlight-page-actions/index.ts:195-196 | A top-level group that is not an object adds nothing, and any group adds whole lines. |
| LlmsManifest.SidebarTextLines | src/integrations/starlight-page-actions/index.ts:195-197 | The text of all the groups is whole lines: empty or ending with a line break. |
| LlmsManifest.AppendGroups | src/integrations/starlight-page-actions/index.ts:195-197 | The loop over the groups appends every group's level-2 rendering, in order, to the text written so far. |
| LlmsManifest.KeptPages | src/integrations/starlight-page-actions/index.ts:199-202 | Exactly the pages other than `""` and `"404/"` are kept. |
| LlmsManifest.KeptPagesAppend | src/integrations/starlight-page-actions/index.ts:199-202 | Filtering keeps the input order. |
| LlmsManifest.PageMdPath | src/integrations/starlight-page-actions/index.ts:203 | A pathname ending in `/` gives a path ending in `.md`, and putting the `/` back in place of `.md` restores the pathname. A pathname without a trailing slash is unchanged. |
| LlmsManifest.PageMdPathOnce | src/integrations/starlight-page-actions/index.ts:203 | Only the last slash is consumed: `q + "/"` becomes `q + ".md"` for every `q`, even one ending in slashes. |
| LlmsManifest.PageLines | src/integrations/starlight-page-actions/index.ts:205 | There is one listing line per page. |
| LlmsManifest.PageLinesAt | src/integrations/starlight-page-actions/index.ts:205 | The i-th listing line is `- {baseUrl}/{file}` for the i-th kept page. |
| LlmsManifest.FallbackListing | src/integrations/starlight-page-actions/index.ts:199-206 | The listing is empty exactly when no page is kept. Otherwise it starts with the first kept page's line. |
| LlmsManifest.FallbackLines | src/integrations/starlight-page-actions/index.ts:199-206 | If no newline occurs in the base url or the pathnames, the listing splits back into exactly one line per kept page, in order. |
| LlmsManifest.ManifestWithoutPages | src/integrations/starlight-page-actions/index.ts:199-206 | With no sidebar and nothing to list, the manifest is the title line alone. |
| LlmsManifest.Manifest | src/integrations/starlight-page-actions/index.ts:133-207 | There is no manifest if and only if the base url is missing or empty. Every manifest starts with `# {title} Documentation` and a blank line. |
| LlmsManifest.ManifestOfBase | src/integrations/starlight-page-actions/index.ts:133-207 | With a base url, the manifest is the title line, then the sidebar rendered against the trimmed base url, or else the page listing. |
| LlmsManifest.ManifestOfSidebar | src/integrations/starlight-page-actions/index.ts:142-197 | With a sidebar array, the pages are ignored, and the manifest is the title line followed by every group rendered at level 2. |
| LlmsManifest.ManifestOfEmptySidebar | src/integrations/starlight-page-actions/index.ts:142-197 | An empty sidebar array gives the title line alone, not the page listing. |
| LlmsManifest.SidebarTextAppend | src/integrations/starlight-page-actions/index.ts:195-197 | Groups render in order: the text of `a + b` is that of `a` followed by that of `b`. |
| LlmsManifest.BuildDone | src/integrations/starlight-page-actions/index.ts:132-207 | The hook's accumulated text is exactly the manifest, and nothing without a base url. |
| LlmsManifest.FallbackExample | src/integrations/starlight-page-actions/index.ts:199-206 | With no sidebar and pages `""`, `"404/"`, `"about/"`, the manifest lists only `- {baseUrl}/about.md`. |
| LlmsManifest.StartExample | src/integrations/starlight-page-actions/index.ts:150-157 | The entry `{label: "Start", link: "/guides/start"}` renders as `- [Start]({baseUrl}/guides/start.md)`. |
| LlmsManifest.GuidesExample | src/integrations/starlight-page-actions/index.ts:143-193 | A `Guides` group holding that entry renders as `## Guides`, a blank line, the link line and a closing blank line. |
| LlmsManifest.SidebarExample | src/integrations/starlight-page-actions/index.ts:133-197 | The manifest for a sidebar made of that group is the title line followed by the group's text. |

## Left out

- Writing `llms.txt` to disk (lines 209-210) and locating the output directory (line 138). `LlmsManifest.BuildDone` returns the text instead, or `None` when nothing is written.
- The static-copy step around `rename`: enumerating the files by glob, copying them, and `normalizePath`. `DocumentMirror.Rename` takes the path as already normalised.
- The virtual configuration module and its JSON serialisation (lines 65-81), and the Starlight configuration update that registers the page-title component (from line 215). They hand data to code outside this plugin and compute nothing here.
- The client-side page actions and the `astro.config.mjs` of the site. They are not part of this model.
- `Sidebar.Node`: `label`, `link` and `slug` are strings, with `""` standing for an absent field, and `items` is an array or ignored. This cannot express a truthy non-string `link`. With such a link the source writes no heading (line 146), no link line (line 150) and no closing blank line (line 188). It writes only the slug line and the children. A `null` child, on which the source throws, is not modelled either.
- `PageActionsConfig.ResolveConfig`: an option passed explicitly as `undefined` still overrides the default in a JavaScript spread. The model has no such value, so an absent option keeps the default.
- `DocumentMirror.StripExtension`: the extension is matched as literal text. The source builds a regular expression from it, so an extension holding regular-expression metacharacters is not modelled.
- `Sidebar.ItemUrl`: the addresses `"/"` and `"index"` both give `{baseUrl}/index.md`, so `Sidebar.ItemUrlOfSlashes` is stated in one direction only.
- `Sidebar.ProcessItems` and `LlmsManifest.AppendGroups`: the loops over `items` and over the sidebar groups live in helper methods of their own. In the source they are inline in `processSidebarItem` and in the hook. This keeps each proof small.
- The examples take the base url as a parameter rather than a fixed host such as `https://x.test`. They therefore hold for every base url without a trailing slash.
