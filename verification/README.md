# OG-image layout and route, modelled in Dafny

This project models how the blog builds its Open Graph preview images, and proves properties of that model.

A post title and a section name are turned into an SVG document in five steps:

1. Truncate the title to 80 characters plus `...`.
2. Pick one of three font sizes: 48, 56 or 64.
3. Wrap the lower-cased title greedily against a character budget of `floor(1000 / (0.52 · fontSize))`.
4. Centre the title block vertically on a 1200×630 canvas.
5. Emit one escaped `<tspan>` per line, plus a byline, a footer and section accent colours.

The document is rasterised to PNG. `src/pages/og-new.ts` holds the `GET` handler written for `/og/{section}/{slug}[-light].png`. The handler answers every failure with a 302 redirect to `/images/ogimage.png`.

The renderer exists in three versions. All three share the same layout computation and build their documents from it; they differ in colours, byline escaping, title font and the rasteriser library they call:

- `src/utils/og-new.ts` produces a dark and a light document. Its byline shows the section unescaped.
- `src/utils/og-fix.ts` produces one dark document with the section escaped. It guards WASM initialisation with a once-only flag.
- `src/utils/og-nodejs.ts` produces the same single document as og-fix, with no initialisation.

Modules:

- `Text` holds JavaScript `split`/`join` with one-character separators, `startsWith`/`endsWith`, counting, and ASCII `toLowerCase`.
- `Xml` holds `escapeXml`. It models the four chained `replace` calls as written, and also as a per-character substitution. It adds a decoder and an "escaped form" predicate.
- `Wrap` holds `wrapText` in two forms: a fold over the split words, and the source's loop as a method.
- `Layout` holds truncation, font-size tiers, line height, centring and tspans. It also holds the SVG `Document` as a structure: palette, byline, title position and font, runs, and footer.
- `Raster` holds the opaque PNG type, the abstract rasteriser and the error kinds.
- `OgNew`, `OgFix` and `OgNodejs` each model one renderer file as a thin composition over `Layout`.
- `Variants` states how the three renderer files relate.
- `OgRoute` models `src/pages/og-new.ts`: `COLLECTION_MAP`, `getStaticPaths`, path parsing, post lookup and the `GET` decisions.

The content store (`getCollection`) is a parameter: a function from collection name to the posts, or `None` when the call throws. The renderer the page calls is also a parameter. The page imports `src/utils/og.ts`, a stub that always rejects, so `StubRenderer` models today's wiring. `ServesOgNewImage` shows what the page would serve if it were linked against og-new's renderer.

The path scheme is ambiguous. The dark path of a slug ending in `-light` is the same string as the light path of the shorter slug, so it is served as that. `OgRoute.DarkPathOfLightSlug` proves this for `x-light`. The round trip `OgRoute.ParseDarkPath` therefore requires that the slug does not end in `-light`. `OgRoute.ParseLightPath` needs no such condition. No parser can undo this, because the two paths are equal as strings.

Two details of the source that the model follows closely:

- **Escaped characters.** `escapeXml` escapes `& < > "` and leaves `'` unchanged (src/utils/og-new.ts:20-22).
- **Failing lookups.** A `getCollection` call that throws is caught and adds no paths (src/pages/og-new.ts:25-27). Here such a call is `None`.

## Model

| member | source | states |
|---|---|---|
| Xml.Escape | src/utils/og-new.ts:20-22 | the output never contains a raw `<`, `>` or `"` |
| Xml.EscapeLength | src/utils/og-new.ts:20-22 | the output is as long as the input plus 4 per `&`, 3 per `<` or `>` and 5 per `"`: each replace grows its character by the entity's extra length |
| Xml.EscapeIdentity | src/utils/og-new.ts:20-22 | text free of `& < > "` is returned unchanged |
| Xml.EscapeChainedIsEscape | src/utils/og-new.ts:21 | the four chained global replaces, `&` first, equal per-character substitution: no entity is escaped twice |
| Xml.UnescapeEscape | src/utils/og-fix.ts:46-48 | decoding the four entities restores the input exactly |
| Xml.EscapeIsWellEscaped | src/utils/og-nodejs.ts:13-15 | every `&` in the output begins one of the four entities; `<`, `>` and `"` never appear raw |
| Xml.EscapeUnescape | src/utils/og-new.ts:20-22 | conversely, every escaped-form text is the escape of its decoding, so the range of `escapeXml` is exactly the escaped-form texts |
| Xml.EscapeConcat | src/utils/og-fix.ts:47 | escaping works character by character: it distributes over concatenation |
| Xml.EscapeSample | src/utils/og-fix.ts:47 | `&'` escapes to `&amp;'`: the apostrophe is not escaped |
| Text.JoinSplit | src/pages/og-new.ts:38-39 | re-joining the parts of `split` with the same separator restores the string |
| Text.Split | src/utils/og-new.ts:27 | `split` with a one-character separator always gives at least one part, and no part contains the separator |
| Text.SplitJoin | src/pages/og-new.ts:38-39 | splitting a join of separator-free parts gives back exactly those parts |
| Text.SplitFirst | src/pages/og-new.ts:38-39 | when the separator occurs, the first part is the text before its first occurrence and the re-joined rest is the text after it |
| Wrap.CharsPerLine | src/utils/og-new.ts:25-26 | the budget is the floor of the width ratio: `n` characters fit the width estimate and `n + 1` do not |
| Wrap.TitleBudgets | src/utils/og-fix.ts:52-53 | with width 1000 the budgets are 40, 34 and 30 characters for sizes 48, 56 and 64 |
| Wrap.WrapText | src/utils/og-new.ts:24-42 | empty text gives no lines; every line is non-empty; a line longer than the budget contains no space, so it is one unsplit token |
| Wrap.PackBounded | src/utils/og-nodejs.ts:25-34 | throughout the loop, emitted lines are non-empty and each line either fits or is a single token |
| Wrap.StepBreakKeeps | src/utils/og-new.ts:33-35 | a line break happens only when the current line, a space and the word overflow the budget; the break keeps the text and greediness |
| Wrap.StepExtendKeeps | src/utils/og-new.ts:36-37 | extending the current line leaves its first token unchanged and the text intact |
| Wrap.PackGreedyLossless | src/utils/og-fix.ts:58-67 | with no empty tokens, the lines joined by spaces equal the words joined by spaces, and every pair of adjacent lines is greedy |
| Wrap.WrapTextGreedyLossless | src/utils/og-new.ts:27-41 | with no empty tokens, joining the lines with `" "` reproduces the text, and `line_i + " " + firstToken(line_{i+1})` exceeds the budget |
| Wrap.NoEmptyTokensIff | src/utils/og-new.ts:27 | `split(" ")` yields no empty token iff the text is non-empty with no leading, trailing or doubled space |
| Wrap.WrapTextLoop | src/utils/og-nodejs.ts:18-36 | the source's loop, with its mutable current line and final flush, computes exactly the fold's lines |
| Layout.DisplayTitle | src/utils/og-new.ts:46 | titles up to 80 characters are kept; longer ones become their first 80 characters followed by `...`, 83 in all |
| Layout.FontSizeFor | src/utils/og-new.ts:47-48 | the size is one of 48, 56 and 64: 48 iff the length is over 40, 64 iff it is at most 25 |
| Layout.FontSizeAntitone | src/utils/og-fix.ts:78-79 | a longer display title never gets a larger font |
| Layout.FontSizeBoundaries | src/utils/og-nodejs.ts:42-44 | lengths 10, 25 → 64; 26, 30, 40 → 56; 41, 60 → 48 |
| Layout.ComputeLayout | src/utils/og-new.ts:46-52 | the lines are `wrapText` of the lower-cased display title at the tier size and width 1000, so each is non-empty and fits its budget or is one token; the line height is `1.15·fontSize`; the block top sits `0.8·fontSize` above `titleY`, with equal margins above and below on the 630-unit canvas |
| Layout.Tspans | src/utils/og-new.ts:53 | one run per line; the first has `dy` 0 and each later one the line height; each run has no raw `<` and decodes back to its line |
| Layout.LayoutBudget | src/utils/og-fix.ts:79-81 | the layout wraps against 40, 34 or 30 characters according to its tier |
| Layout.LayoutLineWidth | src/utils/og-nodejs.ts:19-20 | a line within its budget has an estimated width of at most 1000 units |
| Layout.TruncatedTitleLayout | src/utils/og-nodejs.ts:41-44 | a title over 80 characters is shown as 83 characters at size 48 |
| Layout.EmptyTitleLayout | src/utils/og-fix.ts:76-83 | an empty title lays out as zero lines at size 64, with the empty block centred at 315 |
| Text.Lower | src/utils/og-new.ts:50 | lower-casing keeps the length, keeps spaces exactly where they were, and leaves no upper-case ASCII letter |
| Layout.LowerKeepsSingleSpacing | src/utils/og-new.ts:50 | lower-casing keeps every space in place, so it keeps the spacing pattern |
| Layout.LayoutLossless | src/utils/og-new.ts:50 | for a well-spaced display title, the lines re-join to its lower-cased text, and every break was forced |
| Layout.Compose | src/utils/og-new.ts:53-62 | the document has one tspan per line carrying the escaped line; the first `dy` is 0 and each later `dy` is the line height; the size and `titleY` come from the layout; the palette, title font, byline and footer are as given |
| Layout.ShownLinesDecode | src/utils/og-fix.ts:85-87 | every title run is in escaped form and decodes back to its wrapped line |
| OgNew.SectionAccents | src/utils/og-new.ts:45 | `writing` gets orange accents and every other section the `thought` red ones, in both themes |
| OgNew.BuildSvgs | src/utils/og-new.ts:44-74 | both documents show the same layout and the same unescaped byline; the dark one uses the dark palette and the light one the light palette, each with the section's accent |
| OgNew.DarkLightDifferOnlyInPalette | src/utils/og-new.ts:55-71 | the light document is the dark one with only its palette replaced |
| OgNew.UnknownSectionIsThought | src/utils/og-new.ts:45 | any section other than `writing` is painted exactly like `thought` |
| OgNew.KnownSectionBylineNeedsNoEscape | src/utils/og-new.ts:58 | for `writing` and `thought`, the unescaped byline equals the escaped one |
| OgNew.UnescapedSectionSample | src/utils/og-new.ts:67 | a `<` in the section reaches the byline raw |
| OgNew.RenderOgImage | src/utils/og-new.ts:76-103 | an empty title or section throws the missing-parameters error; otherwise it succeeds iff both documents rasterise, and returns the two PNGs |
| OgFix.ConfigFor | src/utils/og-fix.ts:73 | the background is always `#0a0a0a`; the accent is `#f97316` for `writing` and `#ef4444` for anything else |
| OgFix.BuildSvg | src/utils/og-fix.ts:72-97 | the document shows the shared layout with the section's config, white title and grey meta colours; the byline ends with the escaped section |
| OgFix.BylineEscaped | src/utils/og-fix.ts:92 | the section part of the byline is in escaped form and decodes back to the section |
| OgFix.InitWasmOnce | src/utils/og-fix.ts:16-43 | it is a no-op when the flag is set; the flag ends set iff it was set or either loading path succeeded; the call throws iff the flag stays unset, and then nothing changes |
| OgFix.InitSeriesFlag | src/utils/og-fix.ts:17-25 | over any series of calls, the flag ends set iff it started set or some call loaded the engine |
| OgFix.RenderOgImage | src/utils/og-fix.ts:100-127 | empty arguments, and only they, give the missing-parameters error, thrown before initialisation with the flag untouched; otherwise the flag follows the init rules, a failed initialisation gives the init error, and the result is the rasterised document iff the engine is up and rasterising succeeds |
| OgFix.InitializedIgnoresLoaders | src/utils/og-fix.ts:17 | once the engine is up, the result does not depend on the loaders |
| OgNodejs.ColorsFor | src/utils/og-nodejs.ts:40 | the background is always `#0a0a0a`; the accent is `#f97316` for `writing` and `#ef4444` for anything else |
| OgNodejs.BuildSvg | src/utils/og-nodejs.ts:39-62 | the document shows the shared layout on the dark palette; the byline ends with the escaped section |
| OgNodejs.RenderOgImage | src/utils/og-nodejs.ts:65-92 | an empty title or section throws the missing-parameters error; otherwise it returns the rasterised document iff rasterising succeeds |
| Variants.FixAndNodejsAgree | src/utils/og-nodejs.ts:39-62 | og-fix and og-nodejs build identical documents for every input |
| Variants.NewDarkIsFixDocument | src/utils/og-new.ts:55-62 | for `writing` and `thought`, og-new's dark document is og-fix's with the title font changed to Noto Sans SC |
| Variants.FixAndNodejsRenderAlike | src/utils/og-fix.ts:109-122 | given the same rasteriser and with the engine up, og-fix returns exactly what og-nodejs returns: the two files hand the rasteriser the same document and apply the same argument check |
| OgRoute.Lookup | src/pages/og-new.ts:43 | a key is found iff some entry has it, and the value found belongs to an entry with that key |
| OgRoute.CollectionName | src/pages/og-new.ts:5-8 | `writings` maps to `writing`, `thoughts` maps to `thought`, and nothing else maps to a collection |
| OgRoute.PostPaths | src/pages/og-new.ts:16-24 | there are two paths per post: at `2k` the post's `section/slug.png`, at `2k+1` its `section/slug-light.png` |
| OgRoute.PostPathsMembership | src/pages/og-new.ts:16-24 | a path is listed for a collection iff it is the dark or light path of one of its posts |
| OgRoute.EntryPathsMembership | src/pages/og-new.ts:13-28 | a path is listed iff it belongs to a post of a collection whose lookup succeeded; a throwing lookup adds nothing |
| OgRoute.StaticPaths | src/pages/og-new.ts:10-31 | the list is the `writings` paths followed by the `thoughts` paths, each post's dark path before its light path; a collection whose lookup throws contributes nothing, so the length is twice the number of readable posts |
| OgRoute.StaticPathsMembership | src/pages/og-new.ts:10-31 | `getStaticPaths` lists exactly the dark and light paths of the posts of the readable collections, under their URL sections |
| OgRoute.StripPng | src/pages/og-new.ts:41 | a trailing `-light.png` is removed whole, otherwise a trailing `.png`; any other text is unchanged |
| OgRoute.ParsePath | src/pages/og-new.ts:37-41 | the section is the slash-free text before the first `/`; the rest is kept whole with its later slashes, or is empty when there is no `/`; `isLight` holds iff the rest ends in `-light.png`; the slug is the rest with the image suffix stripped |
| OgRoute.FindPost | src/pages/og-new.ts:47-49 | the result is absent iff no post has the slug; otherwise it is the first post carrying that slug |
| OgRoute.Get | src/pages/og-new.ts:33-67 | the answer is the fallback 302 or an image with exactly the two headers; it is not the fallback iff the section is known, the slug is non-empty, the lookup succeeds, the post is found and rendering succeeds; an image answer carries the light buffer iff the path ends in `-light.png`, otherwise the dark one |
| OgRoute.GetServesRoute | src/pages/og-new.ts:43-62 | when every stage succeeds for a path, the answer is the image of the theme the path names, with the two headers |
| OgRoute.ParseSectionAndRest | src/pages/og-new.ts:38-39 | a slash-free section, a `/` and any rest parse back into that section and that rest |
| OgRoute.ParseDarkPath | src/pages/og-new.ts:40-41 | a dark path parses back to its section and slug as not light, when the slug does not end in `-light` |
| OgRoute.ParseLightPath | src/pages/og-new.ts:40-41 | a light path always parses back to its section and slug as light |
| OgRoute.DarkPathOfLightSlug | src/pages/og-new.ts:19-22 | the dark path of slug `x-light` is the light path of slug `x`, and it parses as light `x` |
| OgRoute.EmptySlugFallsBack | src/pages/og-new.ts:44 | `writings/.png` has an empty slug and is redirected |
| OgRoute.MissingSlugFallsBack | src/pages/og-new.ts:44 | `writings` with no slug part is redirected |
| OgRoute.UnknownSectionFallsBack | src/pages/og-new.ts:43-44 | a missing path parameter, or a section outside the map, is redirected |
| OgRoute.NoPathParameterFallsBack | src/pages/og-new.ts:37-44 | a request without a `path` parameter, which is every request at the file's own static route, parses `""` and is redirected |
| OgRoute.MissingPostFallsBack | src/pages/og-new.ts:46-50 | a slug no post carries is redirected |
| OgRoute.StubAlwaysFallsBack | src/utils/og.ts:4-11 | with the always-throwing stub renderer, every request is redirected |
| OgRoute.ServesStaticPaths | src/pages/og-new.ts:54-62 | a listed path of a post is answered with the first same-slug post's image, in the theme the path names, with the cache headers, or redirected when rendering throws; for dark paths this needs a slug not ending in `-light` |
| OgRoute.ServesOgNewImage | src/pages/og-new.ts:52-57 | linked against og-new's renderer, a light path is answered with the rasterised light document of the post's title |

## Left out

- Rasterisation by `@resvg/resvg-js` and `@resvg/resvg-wasm` is not modelled. The rasteriser is an abstract `Document -> Option<Png>`, and PNG bytes are opaque.
- Variants.FixAndNodejsRenderAlike: compares the two files under one shared rasteriser. In the source they call different libraries: og-fix uses `@resvg/resvg-wasm` (src/utils/og-fix.ts:1, 113) and og-nodejs uses `@resvg/resvg-js` (src/utils/og-nodejs.ts:1, 77). Nothing here claims the two libraries produce the same bytes.
- Rasteriser font options are not modelled. og-new loads the Noto Sans SC font file and makes it the default family (src/utils/og-new.ts:82-99). og-fix and og-nodejs use the system `Inter` as the default family with a default size of 52 (src/utils/og-fix.ts:113-119, src/utils/og-nodejs.ts:77-83). The `fitTo` width option is left out as well.
- WASM loading through `fs`, `fetch` and `URL` is I/O, and so is `console` logging. Each `initWasmOnce` call sees only the outcomes of the two loading paths (`OgFix.Loaders`).
- Concurrent first calls to `initWasmOnce` are not modelled. The source has no guard against overlapping calls, and that is not a sequential property.
- The unused `fontCache` variable of og-fix is not modelled.
- SVG markup text is not produced: the document is a structure. Float formatting of `lineHeight` and `titleY` is left out, and neither is claimed equal to its printed string. Decorative coordinates, font-family lists other than the title font, and the fixed 24-unit byline size are not modelled either.
- Arithmetic is over `real` rather than IEEE binary64. The three character budgets used, 40, 34 and 30, are far from rounding boundaries and agree with binary64.
- Text.Lower: lower-cases ASCII letters only and leaves other characters unchanged. JavaScript's Unicode `toLowerCase`, which can change length, is not modelled.
- Characters outside the Basic Multilingual Plane, such as emoji, are one `char` here (a Unicode scalar value) but two UTF-16 code units in JavaScript. For titles holding such characters, the length tests of truncation (src/utils/og-new.ts:46), font tiering (src/utils/og-new.ts:47-48) and wrapping (src/utils/og-new.ts:33) count them once where the source counts them twice, and `substring(0, 80)` could split a surrogate pair. The model matches the source on text without such characters.
- Wrap.WrapText: requires a positive font size. The source only calls it with 48, 56 or 64. A zero size would make the JavaScript budget infinite.
- Section lookups on inherited object keys such as `constructor` are a JavaScript artefact and are not modelled.
- `getCollection`, `Response` and `URL` construction are external. Posts come from a `Store` function, and the redirect target is the path `/images/ogimage.png`, not resolved against the request URL.
- `renderOgImage` is not awaited by the page. With the stub, `pngBuffers` is a rejected promise, so `.light` and `.dark` are `undefined`, and reading `.buffer` of that at src/pages/og-new.ts:57 throws a `TypeError` that the `catch` answers with the fallback. The model shows this only as a renderer that fails. The unused `baseUrl` argument is dropped.
- `src/pages/og/[...path].ts`, `src/data/index.ts` and `tailwind.config.mjs` are not part of this model. They hold an older single-theme route and static configuration.
- Astro routes by file name, and this is not modelled. `src/pages/og-new.ts` sits at the static route `/og-new`, which has no `[...path]` segment. There it receives no `path` parameter, so today its `GET` parses `""` and always falls back, as `OgRoute.NoPathParameterFallsBack` states. The live `/og/...` URL is served by the older single-theme route in `src/pages/og/[...path].ts`. The model describes the handler as written, for the paths it was written to parse.
