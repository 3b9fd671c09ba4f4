# cleon-icons-doc, modelled in Dafny

This project models the logic of the cleon icon documentation site. The
site is a browser page that shows an icon catalogue and offers several ways
to take an icon away. Every operation is modelled as a pure function over
strings, sequences and maps. The model covers:

- **Copy as JSX** (`convertSvgToJsx`). It gives every attribute of the
  parsed SVG whose name has a hyphen before a lower-case letter its
  camel-case name, and lower-cases tag names. It
  then serialises elements as `<tag a="v">…</tag>` and keeps text
  verbatim. See `Jsx` for the conversion and `Dom` for the attribute-list
  operations it calls.
- **Copy as SVG or JSX**. These replace the first occurrence of the text
  `size-5` (SVG) or `size-4` (JSX) and the first `stroke-width="2"` with the chosen size and stroke.
  **Copy name** produces the `<IconName />` snippet. **Download** names the
  file by slugifying the icon name. See `Export`, `Slug` and `Strings`.
- **Catalogue page**. It starts with size 5, stroke 2, an empty query and
  every icon. The search filter matches the lower-cased query against the
  lower-cased name, or against the keywords as stored. See `Catalog`.
- **Install-command box**. This is the command shown for each package manager
  and what happens on choosing one from the copy menu. See `Cli`.
- **Theme provider**. It covers the stored theme, the setter that persists
  it, the class the effect puts on the document root, and the toggle
  button. See `Theme`.

Some things are parameters instead of part of the model:

- The browser's XML parser, as a function from text to a node tree.
- `localStorage`, as a map.
- The clipboard's availability, as flags.
- The `prefers-color-scheme` media query, as a boolean.

Case mapping is ASCII. The site's names, tags and attributes are all ASCII.

Two modules support the rest:

- `Wrappers` holds `Option`.
- `Strings` holds the string operations the site calls: `toLowerCase`,
  `includes`, `replace` with a string pattern (first occurrence only) and
  `join`. `IndexOf` defines the first occurrence, which is where `replace`
  acts. `Split` is the model's own inverse of `join`; the site never calls
  it, and `Cli.ItemListRoundTrip` uses it to read the item list back.

Two places where the model follows the code rather than a reading of it
that one might expect:

- Keywords are matched case-sensitively against the lower-cased query, so
  the query `weather` does not find an icon whose keyword is `Weather`
  (`Catalog.KeywordCaseExample`). The code (src/app.tsx:18-21) lower-cases
  the name and the query but not the keywords; a search over keywords would
  be expected to ignore case as the name search does.
- Slugify does not separate every pair of adjacent capitals, although the
  comment at src/components/handle-copy.tsx:50 says it inserts a hyphen
  between uppercase letters. The second rewrite is one global,
  non-overlapping regular-expression pass, so `ABC` becomes `a-bc`, not
  `a-b-c` (`Slug.UpperRunExample`, `Slug.SlugifyUpperRun`).

## Model

| member | source | states |
|---|---|---|
| Strings.Lower | src/components/handle-copy.tsx:25 | `toLowerCase` keeps the length, maps each character and leaves no capital letter |
| Strings.LowerIdempotent | src/app.tsx:20 | lower-casing twice is lower-casing once |
| Strings.IndexOf | src/components/handle-copy.tsx:62 | the position `replace` with a string pattern acts at is the first occurrence, or none when the pattern does not occur |
| Strings.ReplaceFirst | src/components/handle-copy.tsx:62-63 | `replace` with a string pattern leaves text without the pattern unchanged; otherwise it replaces exactly the first occurrence and keeps the text around it |
| Strings.ReplaceFirstInstalls | src/components/handle-copy.tsx:62-63 | when the pattern occurs, the replacement occurs in the result |
| Strings.ReplaceFirstSame | src/components/handle-copy.tsx:62-63 | replacing a pattern by itself changes nothing |
| Strings.ReplaceFirstKeeps | src/components/handle-copy.tsx:62-63 | a replacement does not destroy an occurrence of a second pattern it cannot overlap, so the second `replace` still finds its token |
| Strings.JoinContains | src/components/cli.tsx:23 | every piece of a joined list appears in the joined text |
| Strings.SplitJoin | src/components/cli.tsx:23 | joining a non-empty list of pieces without the separator and splitting again gives the pieces back |
| Strings.DeleteLower | src/components/handle-copy.tsx:52 | deleting hyphens commutes with lower-casing |
| Dom.Get | src/components/handle-copy.tsx:15 | reading an attribute by name (as the live `attr.value` does) finds a value exactly when the list has an attribute of that name, and the value belongs to it |
| Dom.SetAttribute | src/components/handle-copy.tsx:15 | after `setAttribute` the name reads back the new value and every other name reads as before |
| Dom.SetAttributePlace | src/components/handle-copy.tsx:15 | `setAttribute` changes an existing attribute in place, appends a new one at the end, and keeps names unique |
| Dom.RemoveAttribute | src/components/handle-copy.tsx:16 | `removeAttribute` makes the list one shorter when the name is present and does nothing when it is absent, adds no attribute, and leaves other names readable as before |
| Dom.RemoveAttributeFirst | src/components/handle-copy.tsx:16 | `removeAttribute` removes in place: the attribute dropped is the first one of that name, and every other attribute stays, in order |
| Dom.RemoveAttributeNames | src/components/handle-copy.tsx:16 | after `removeAttribute` the names are unique and exactly the old names less the removed one |
| Dom.SetAllGet | src/components/handle-copy.tsx:14-17 | after a series of `setAttribute` calls each name has the value of its last call, and other names are untouched |
| Dom.SetAllNames | src/components/handle-copy.tsx:14-17 | a series of `setAttribute` calls keeps the old names as a prefix, adds exactly the new names, and keeps names unique |
| Jsx.CamelCase | src/components/handle-copy.tsx:13 | the rename never lengthens a name, and gives the empty name only for the empty name |
| Jsx.CamelCaseNormal | src/components/handle-copy.tsx:13 | the rename leaves no hyphen followed by a lower-case letter |
| Jsx.CamelCaseFixed | src/components/handle-copy.tsx:13 | a name with no hyphen followed by a lower-case letter is its own camel-case form |
| Jsx.CamelIff | src/components/handle-copy.tsx:13-14 | a name is left alone by the rename exactly when it has no hyphen followed by a lower-case letter |
| Jsx.CamelCaseIdempotent | src/components/handle-copy.tsx:13 | renaming twice is renaming once |
| Jsx.CamelCaseOnlyDropsHyphens | src/components/handle-copy.tsx:13 | up to letter case, the rename only removes hyphens: with hyphens deleted and both lower-cased, name and result agree |
| Jsx.CamelCaseIsRef | src/components/handle-copy.tsx:13 | the rename equals a position-by-position reference: a hyphen before a lower-case letter is dropped, that letter becomes its capital, and every other character (including any other hyphen and every letter's case) is kept, in order |
| Jsx.CamelCaseSplice | src/components/handle-copy.tsx:13 | in `a + "-" + c + b`, where `a` has no match and does not end in `-` and `c` is lower-case, the rename keeps `a`, writes `c` as its capital, and renames `b` on its own |
| Jsx.CamelCaseStrokeWidth | src/components/handle-copy.tsx:13 | `stroke-width` becomes `strokeWidth` |
| Jsx.CamelCaseClass | src/components/handle-copy.tsx:13 | `class` is left as it is, not renamed to `className` |
| Jsx.ConvertAttributesSpec | src/components/handle-copy.tsx:11-19 | for unique names, renaming through the live list equals keeping the camel-case attributes and then setting every renamed pair in document order |
| Jsx.ConvertAttributesNames | src/components/handle-copy.tsx:14-17 | afterwards every name is in camel case, and a name is present exactly when some original attribute renames to it |
| Jsx.ConvertAttributesValues | src/components/handle-copy.tsx:14-17 | a camel-case name no attribute is renamed onto keeps its value, and a hyphenated attribute's value reaches its camel-case name when every attribute renamed onto that name agrees on the value |
| Jsx.ConvertAttributesIdempotent | src/components/handle-copy.tsx:11-19 | converting an already converted list changes nothing |
| Jsx.TransformNode | src/components/handle-copy.tsx:32-35 | a text node prints its text verbatim, and any other non-element node prints as nothing |
| Jsx.TransformIsNormalizeThenSerialize | src/components/handle-copy.tsx:21-36 | the output is the tree with every element's attributes converted, then printed with lower-cased tags and no further renaming |
| Jsx.NormalizeIdempotent | src/components/handle-copy.tsx:24 | converting an already converted tree changes nothing |
| Jsx.TransformNormalized | src/components/handle-copy.tsx:21-36 | converting the tree first does not change the output |
| Jsx.AttrPartCons | src/components/handle-copy.tsx:26-28 | the attributes follow the tag in list order, each after a single space, each written `name="value"` with nothing escaped |
| Jsx.TransformElementShape | src/components/handle-copy.tsx:25-31 | an element prints as an opening tag with the lower-cased name, then a space before attributes or `>`, and a matching closing tag; an empty element without attributes prints as `<t></t>` |
| Jsx.ClipPathLowered | src/components/handle-copy.tsx:25 | tag names are lower-cased even where SVG spells them in camel case: `clipPath` prints as `clippath` |
| Jsx.TransformKeepsText | src/components/handle-copy.tsx:29-35 | when no text holds `<` and no tag, attribute name or value holds `>`, stripping the tags from a node's output gives its text content in document order |
| Jsx.ConvertSvgToJsxKeepsText | src/components/handle-copy.tsx:6-38 | when no text holds `<` and no tag, attribute name or value holds `>`, the JSX copy contains the SVG's text nodes verbatim and in order, and nothing else outside tags |
| Jsx.UnescapedTextLost | src/components/handle-copy.tsx:34 | text is printed without escaping: the text `a<b` (a parsed `a&lt;b`) is printed as `a<b`, and stripping the tags leaves only `a` |
| Jsx.RenamedAttributeShown | src/components/handle-copy.tsx:14-31 | a hyphenated attribute shows in the element's markup as `camelName="value"`, when every attribute renamed onto that name agrees on the value |
| Jsx.CamelAttributeShown | src/components/handle-copy.tsx:14-31 | an attribute already in camel case shows in the element's markup with its value, when no hyphenated attribute is renamed onto its name |
| Jsx.ConvertStrokeWidth | src/components/handle-copy.tsx:11-19 | the attribute list `[stroke-width=v]` converts to `[strokeWidth=v]` |
| Jsx.PathExample | src/components/handle-copy.tsx:21-36 | `<path d="M0 0"/>` prints as `<path d="M0 0"></path>` |
| Jsx.StrokeWidthExample | src/components/handle-copy.tsx:6-38 | an `svg` with `stroke-width="2"` around that path converts to `<svg strokeWidth="2"><path d="M0 0"></path></svg>` |
| Slug.Hyphenate | src/components/handle-copy.tsx:49-51 | one global rewrite never shortens the name and keeps its first character |
| Slug.HyphenateOnlyInserts | src/components/handle-copy.tsx:49-51 | a rewrite only inserts hyphens |
| Slug.HyphenateIdentity | src/components/handle-copy.tsx:49-51 | a rewrite with no matching pair changes nothing |
| Slug.SeparateNoBoundary | src/components/handle-copy.tsx:49-51 | the reference separation, a hyphen in every matching pair, leaves no matching pair |
| Slug.HyphenateIsSeparate | src/components/handle-copy.tsx:49 | for the lower/upper and letter/digit rules, the non-overlapping rewrite equals the reference separation |
| Slug.HyphenateNoBoundary | src/components/handle-copy.tsx:49 | after the lower/upper or letter/digit rewrite no pair matches that rule again |
| Slug.UpperRunExample | src/components/handle-copy.tsx:50 | on `ABC` the capital/capital rewrite inserts one hyphen (`A-BC`), the reference two, and a matching pair remains |
| Slug.HyphenateAppend | src/components/handle-copy.tsx:49-51 | a rewrite works piece by piece when the seam between the pieces does not match |
| Slug.Slugify | src/components/handle-copy.tsx:47-53 | a slug is never shorter than the name and contains no capital letter |
| Slug.SlugifyOnlyInserts | src/components/handle-copy.tsx:47-53 | with hyphens deleted, the slug is the lower-cased name with hyphens deleted |
| Slug.SlugifyIdempotent | src/components/handle-copy.tsx:47-53 | a slug is its own slug |
| Slug.SlugifyFixed | src/components/handle-copy.tsx:47-53 | a lower-case name with no letter directly before a digit is its own slug |
| Slug.SlugifyUpperRun | src/components/handle-copy.tsx:47-53 | `ABC` becomes `a-bc` |
| Slug.SlugifyArrowUpRight2 | src/components/handle-copy.tsx:47-53 | `ArrowUpRight2` becomes `arrow-up-right-2`, with hyphens from the lower/upper and letter/digit rules |
| Export.SizeClass | src/components/handle-copy.tsx:62 | the size class is `size-` followed by the chosen digit; it equals the SVG copy's search token `size-5` exactly at size 5, and the JSX copy's `size-4` exactly at size 4 |
| Export.StrokeAttr | src/components/handle-copy.tsx:63 | the stroke text is `stroke-width="`, the chosen digit and a closing quote; it equals the searched-for `stroke-width="2"` exactly for stroke 2 |
| Export.CopySvgDefaults | src/components/handle-copy.tsx:62-63 | with size 5 and stroke 2 the SVG copy is the rendered markup unchanged |
| Export.CopySvgWithoutTokens | src/components/handle-copy.tsx:62-63 | markup with neither `size-5` nor `stroke-width="2"` is copied unchanged |
| Export.CopySvgSetsStroke | src/components/handle-copy.tsx:62-63 | when the markup has `stroke-width="2"`, the SVG copy carries the chosen stroke, even after the size replacement |
| Export.CopySvgSetsSize | src/components/handle-copy.tsx:62-63 | when the markup has `size-5`, the SVG copy carries the chosen size class, even after the stroke replacement |
| Export.CopyJsxIgnoresSize5 | src/components/handle-copy.tsx:76-80 | the JSX copy looks for `size-4`: markup without it has only its stroke replaced before conversion |
| Export.CopyJsxShowsStroke | src/components/handle-copy.tsx:76-80 | when the substituted markup parses to an element with `stroke-width` set to the chosen stroke, the JSX copy contains `strokeWidth="N"` |
| Export.CopyNameText | src/components/handle-copy.tsx:88 | the snippet is eight characters longer than the name |
| Export.CopyNameRoundTrip | src/components/handle-copy.tsx:88 | the name can be read back from the snippet, and a snippet reads back as a name exactly when it is that name's snippet |
| Export.SvgDownloadName | src/components/handle-copy.tsx:98 | the SVG file is the slug plus `.svg`, has no capital letter, and spells the name lower-cased up to hyphens |
| Export.PngDownloadName | src/components/handle-copy.tsx:120 | the PNG file is the same slug plus `.png` |
| Export.DownloadNamesCollide | src/components/handle-copy.tsx:98-120 | distinct icon names `aB` and `a-b` download under the same SVG and PNG file names |
| Catalog.IconNames | src/app.tsx:13 | the names of the catalogue, one per entry, in order |
| Catalog.InitialApp | src/app.tsx:10-13 | the page starts with size 5, stroke 2, an empty query and every icon name |
| Catalog.FilterIcons | src/app.tsx:14-25 | the filter never shows more names than the catalogue has |
| Catalog.SetQuery | src/app.tsx:14-25 | typing a query stores it and replaces the list by the filter of the whole catalogue under that query (so the filter lemmas describe the list shown), never changing the size or stroke |
| Catalog.EmptyQueryShowsAll | src/app.tsx:15 | an empty query shows the whole catalogue in order |
| Catalog.FilterMembers | src/app.tsx:18-21 | with a query, a name is shown exactly when its lower-cased name contains the lower-cased query or one of its keywords as stored does |
| Catalog.FilterSubsequence | src/app.tsx:16-23 | the shown names keep catalogue order and only leave entries out |
| Catalog.FilterIgnoresQueryCase | src/app.tsx:20-21 | the query's case does not matter |
| Catalog.FilterNarrows | src/app.tsx:15-21 | extending the query, including from the empty query that shows everything, never brings back an icon it hid |
| Catalog.SearchExample | src/app.tsx:14-25 | `arr` over ArrowRight and Sun shows ArrowRight only |
| Catalog.KeywordCaseExample | src/app.tsx:21 | keywords are not lower-cased: `weather` misses an icon whose keyword is `Weather` |
| Catalog.InitialAppStable | src/app.tsx:13-15 | the effect on mount leaves the initial state as it is, and clearing the query brings back every icon |
| Cli.ManagerOf | src/components/cli.tsx:24-44 | `bun`, `yarn` and `pnpm` select their own case; any other string falls to npm |
| Cli.GetCommandTable | src/components/cli.tsx:22-51 | `init` is the manager's fixed command, and `add` and `install` are the manager's prefix followed by the items |
| Cli.InitIgnoresItems | src/components/cli.tsx:26-46 | the `init` command never depends on the items |
| Cli.UnknownManagerIsNpm | src/components/cli.tsx:43-49 | an unrecognised package manager shows npm's commands |
| Cli.PrefixesDistinct | src/components/cli.tsx:24-50 | no `add` or `install` command can be mistaken for the `init` command, nor an `install` command for an `add` command |
| Cli.ParseGetCommand | src/components/cli.tsx:22-51 | the shown command gives back its kind and, except for `init`, the item text |
| Cli.GetCommandInjective | src/components/cli.tsx:22-51 | two choices showing the same command agree on the kind and, except for `init`, on the items |
| Cli.ItemListRoundTrip | src/components/cli.tsx:23 | a non-empty list of package names without spaces can be read back from the item text |
| Cli.EmptyItemList | src/components/cli.tsx:23 | an empty list prints no items (`npx cleon add ` for npm), and its text reads back as one empty name, not as the empty list |
| Cli.AbsentItemsShowUndefined | src/components/cli.tsx:23 | with no items, `add` shows the word `undefined` |
| Cli.InitialCli | src/components/cli.tsx:53-54 | the box starts with npm's command and no check mark |
| Cli.HandleCopy | src/components/cli.tsx:56-65 | as written, choosing a manager shows its command, writes the command shown before, sets the check mark once the write resolves, and raises the error toast without a secure clipboard |
| Cli.HandleCopyWritesStaleCommand | src/components/cli.tsx:59 | choosing bun on a fresh `init` box writes `npx cleon init` while `bunx cleon init` is shown |
| Cli.HandleCopyLags | src/components/cli.tsx:57-59 | as written the clipboard always holds the previous choice's command |
| Cli.HandleCopyFixed | src/components/cli.tsx:56-65 | corrected, the handler writes the command it shows, with the same display, toast and check mark rules |
| Cli.HandleCopyFixedWritesShown | src/components/cli.tsx:59 | corrected, the clipboard receives exactly the command shown |
| Cli.HandleCopyAgreesWhenUnchanged | src/components/cli.tsx:56-60 | the two handlers differ only in the written text, and not at all when the chosen command is already shown |
| Theme.InitialTheme | src/components/theme-provider.tsx:33 | a stored non-empty theme is used, and a missing or empty one falls back to the default |
| Theme.InitialState | src/components/theme-provider.tsx:33 | the provider starts from the stored or default theme |
| Theme.DefaultInitialTheme | src/components/theme-provider.tsx:29-33 | with nothing stored under `vite-ui-theme` the theme is `system` |
| Theme.SetTheme | src/components/theme-provider.tsx:52-55 | setting a theme stores it under the key, installs it, and leaves every other key alone |
| Theme.SetThemeSurvivesReload | src/components/theme-provider.tsx:52-55 | a theme that was set is the one the next load starts with |
| Theme.Resolve | src/components/theme-provider.tsx:40-47 | `system` resolves to `dark` exactly when dark is preferred, and any other theme to itself |
| Theme.ApplyTheme | src/components/theme-provider.tsx:38-47 | the effect succeeds exactly when the class is a valid token; then the root has the resolved class, and every other class is kept unless it is `light` or `dark` |
| Theme.ClassesAfter | src/components/theme-provider.tsx:38-47 | the root never has both `light` and `dark` after the effect |
| Theme.ApplyThemeExclusive | src/components/theme-provider.tsx:38-47 | for the three themes the root has exactly one of `light` and `dark`, and `dark` exactly for `dark` or `system` with a dark preference |
| Theme.ApplyOtherTheme | src/components/theme-provider.tsx:47 | any other stored value that is a valid class token (non-empty, no ASCII whitespace) becomes a class of its own, and neither `light` nor `dark` remains |
| Theme.ApplySpacedThemeThrows | src/components/theme-provider.tsx:47 | a stored value such as `a b` is not a valid token, so `classList.add` throws and no class list results |
| Theme.ApplyThemeIdempotent | src/components/theme-provider.tsx:35-48 | running the effect again changes nothing |
| Theme.NextTheme | src/components/theme-provider.tsx:82 | a click installs `dark` exactly from `light`, and `light` from anything else |
| Theme.Toggle | src/components/theme-provider.tsx:82 | a click installs and stores the next theme |
| Theme.NextThemeTwice | src/components/theme-provider.tsx:82 | two clicks restore exactly `light` and `dark`; `system` and any other value end at `dark` |
| Theme.ToggleTwiceFromLight | src/components/theme-provider.tsx:82 | from `light`, two clicks return to `light` and store it |
| Theme.ToggleShowsNewTheme | src/components/theme-provider.tsx:82 | after a click the root has the new theme's class and not the other one |
| Theme.AriaLabelAsWrittenConstant | src/components/theme-provider.tsx:81 | as written the label is always `lightmode`, whatever the theme |
| Theme.AriaLabel | src/components/theme-provider.tsx:81 | corrected, the label is `Switch to `, the next theme and ` mode` |
| Theme.AriaLabelNamesToggle | src/components/theme-provider.tsx:81-82 | the corrected label names exactly the theme the click installs, so the labels for `light` and `dark` differ |

## Left out

- Parsing: `DOMParser` with `image/svg+xml` is a parameter, a function from text to a node tree. Parse errors, which the browser reports as a `parsererror` document, are not modelled.
- Rendering: `renderToStaticMarkup` of the icon component is an input, the markup string. The icon component and the icon data are not part of this model.
- Node kinds other than elements and text, such as comments and processing instructions, are one `Other` case that prints as the empty string. That is what the converter does with them.
- Browser effects are left out: the clipboard write, toasts, `Blob` and anchor downloads, object URLs, and the 256-pixel canvas rasterisation of the PNG download. Only the text written and the file names are modelled.
- Timers: the two-second reset of the copy check mark and any debouncing are left out, because timing is not modelled.
- `localStorage`, `matchMedia` and the root's class list are inputs and outputs. The class list is a set: the order of classes is not modelled.
- Case mapping covers ASCII only, because icon names, tags and attributes are ASCII. Unicode case mapping is not modelled.
- Attribute lists with duplicate names cannot come out of the parser. The conversion is specified for unique names, which is what `Jsx.ConvertAttributesSpec` requires.
- `useTheme` throwing outside a provider, and the context's default value, are not modelled: there is no component tree.
- The view components only lay out and wire these operations, and are not part of this model. Their default `size` and `stroke` are never `undefined` at the call sites.
- The icon list repeats the stroke replacement for its own display. It is the same operation as the copy, so it is not modelled again.
- Jsx.TransformKeepsText: proved only when no text holds `<` and no tag, attribute name or value holds `>`. The converter does not escape text or attribute values (src/components/handle-copy.tsx:28 and :34), so other text cannot be read back from the markup; `Jsx.UnescapedTextLost` shows a case.
- Jsx.ConvertSvgToJsxKeepsText: the same condition, for the same reason: the converter does not escape.
- Cli.ItemListRoundTrip: stated for non-empty lists only. An empty list joins to the empty text, which reads back as one empty name (`Cli.EmptyItemList`), so the item list cannot be recovered from the command in that case.
- Export.CopyJsxShowsStroke: stated under the assumption that the parser returns an element with the substituted `stroke-width`. The parser is a parameter, so the model cannot derive this from the markup text.

## Findings

| source | as written | input that shows it | evidently intended | confidence | as-written member | corrected member |
|---|---|---|---|---|---|---|
| src/components/theme-provider.tsx:81 | `+` binds tighter than `===`, so the label compares `'Switch to ' + theme` with `'light'`, which never holds, and is always `lightmode` | any theme, e.g. `dark` gives `lightmode` | `Switch to dark mode` from light, `Switch to light mode` otherwise | high, not executed | Theme.AriaLabelAsWrittenConstant | Theme.AriaLabelNamesToggle |
| src/components/cli.tsx:59 | the clipboard receives `cli` from the render the handler belongs to, which is the command shown before the click | a fresh `init` box, choose bun: the clipboard gets `npx cleon init` while `bunx cleon init` is shown | the clipboard receives the command just chosen | high, not executed | Cli.HandleCopyWritesStaleCommand | Cli.HandleCopyFixedWritesShown |
