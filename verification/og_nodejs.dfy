/** src/utils/og-nodejs.ts: one dark document per title, rasterised with the native backend. */
module OgNodejs {
  import opened Wrappers
  import opened Layout
  import opened Raster
  import Xml

  datatype SectionColors = SectionColors(accent: string, bg: string)

  const SectionTable: map<string, SectionColors> := map[
    "writing" := SectionColors("#f97316", "#0a0a0a"),
    "thought" := SectionColors("#ef4444", "#0a0a0a")
  ]

  /** `SECTION_COLORS[section] || SECTION_COLORS.thought`. */
  function ColorsFor(section: string): (c: SectionColors)
    ensures c.bg == "#0a0a0a"
    ensures c.accent == (if section == "writing" then "#f97316" else "#ef4444")
  {
    if section in SectionTable then SectionTable[section] else SectionTable["thought"]
  }

  const TitleFont: string := "Inter, -apple-system, BlinkMacSystemFont, Segoe UI, Roboto, sans-serif"

  /** `buildSvg`: the shared layout on the section's dark palette, with the section escaped in the byline. */
  function BuildSvg(title: string, section: string): (doc: Document)
    ensures ShowsLayout(doc, ComputeLayout(title))
    ensures doc.palette == Palette("#0a0a0a", "#ffffff", "#a3a3a3", ColorsFor(section).accent)
    ensures doc.byline == BylinePrefix + Xml.Escape(section)
    ensures doc.titleFont == TitleFont
  {
    var colors := ColorsFor(section);
    Compose(ComputeLayout(title), Palette(colors.bg, "#ffffff", "#a3a3a3", colors.accent), Xml.Escape(section), TitleFont)
  }

  /** `renderOgImage`: rejects an empty title or section, then rasterises; a rasteriser error propagates. */
  function RenderOgImage(title: string, section: string, raster: Rasterizer): (r: Result<Png, RenderError>)
    ensures r == Failure(MissingParameters) <==> title == "" || section == ""
    ensures r.Success? <==> title != "" && section != "" && raster(BuildSvg(title, section)).Some?
    ensures r.Success? ==> r.value == raster(BuildSvg(title, section)).value
  {
    if title == "" || section == "" then Failure(MissingParameters)
    else
      match raster(BuildSvg(title, section))
      case None => Failure(RenderFailed)
      case Some(png) => Success(png)
  }
}
