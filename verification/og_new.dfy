/** src/utils/og-new.ts: dark and light documents from one layout, rasterised with the native backend.
    The section label is put into the byline without escaping. */
module OgNew {
  import opened Wrappers
  import opened Layout
  import opened Raster
  import Xml

  /** Background, title and meta colours of one theme. */
  datatype Colors = Colors(bg: string, text: string, meta: string)

  const DarkColors: Colors := Colors("#0a0a0a", "#ffffff", "#a3a3a3")
  const LightColors: Colors := Colors("#f9fafb", "#111827", "#6b7280")

  /** Accent colour of a section in each theme. */
  datatype Accents = Accents(dark: string, light: string)

  const SectionColors: map<string, Accents> := map[
    "writing" := Accents("#f97316", "#ea580c"),
    "thought" := Accents("#ef4444", "#dc2626")
  ]

  /** `SECTION_COLORS[section] || SECTION_COLORS.thought`. */
  function SectionAccents(section: string): (a: Accents)
    ensures a == (if section == "writing" then Accents("#f97316", "#ea580c") else Accents("#ef4444", "#dc2626"))
  {
    if section in SectionColors then SectionColors[section] else SectionColors["thought"]
  }

  const TitleFont: string := "Noto Sans SC"

  datatype SvgPair = SvgPair(dark: Document, light: Document)

  /** `buildSvgs`: both themes show the same layout with the same byline; only the palette differs. */
  function BuildSvgs(title: string, section: string): (r: SvgPair)
    ensures ShowsLayout(r.dark, ComputeLayout(title)) && ShowsLayout(r.light, ComputeLayout(title))
    ensures r.dark.byline == r.light.byline == BylinePrefix + section
    ensures r.dark.palette == Palette(DarkColors.bg, DarkColors.text, DarkColors.meta, SectionAccents(section).dark)
    ensures r.light.palette == Palette(LightColors.bg, LightColors.text, LightColors.meta, SectionAccents(section).light)
    ensures r.dark.titleFont == r.light.titleFont == TitleFont
  {
    var l := ComputeLayout(title);
    var accent := SectionAccents(section);
    SvgPair(
      Compose(l, Palette(DarkColors.bg, DarkColors.text, DarkColors.meta, accent.dark), section, TitleFont),
      Compose(l, Palette(LightColors.bg, LightColors.text, LightColors.meta, accent.light), section, TitleFont))
  }

  /** The light document is the dark one repainted: identical title runs, start height and byline. */
  lemma DarkLightDifferOnlyInPalette(title: string, section: string)
    ensures var r := BuildSvgs(title, section); r.dark.(palette := r.light.palette) == r.light
  {
    var r := BuildSvgs(title, section);
    assert r.dark.tspans == r.light.tspans;
  }

  /** An unknown section is painted like `thought` in both themes. */
  lemma UnknownSectionIsThought(title: string, section: string)
    requires section != "writing"
    ensures BuildSvgs(title, section).dark.palette == BuildSvgs(title, "thought").dark.palette
    ensures BuildSvgs(title, section).light.palette == BuildSvgs(title, "thought").light.palette
  {
  }

  /** For the two section names the page passes, the unescaped byline equals an escaped one. */
  lemma KnownSectionBylineNeedsNoEscape(title: string, section: string)
    requires section == "writing" || section == "thought"
    ensures BuildSvgs(title, section).dark.byline == BylinePrefix + Xml.Escape(section)
  {
    assert forall c <- section :: !Xml.IsSpecial(c);
    Xml.EscapeIdentity(section);
  }

  /** A raw `<` in the section reaches the byline unescaped. */
  lemma UnescapedSectionSample()
    ensures '<' in BuildSvgs("t", "<").dark.byline
  {
    assert BuildSvgs("t", "<").dark.byline[|BylinePrefix|] == '<';
  }

  datatype PngPair = PngPair(dark: Png, light: Png)

  /** `renderOgImage`: rejects an empty title or section, then rasterises the dark and the light
      document; a rasteriser failure on either propagates. */
  function RenderOgImage(title: string, section: string, raster: Rasterizer): (r: Result<PngPair, RenderError>)
    ensures r == Failure(MissingParameters) <==> title == "" || section == ""
    ensures r.Success? <==>
      title != "" && section != ""
      && raster(BuildSvgs(title, section).dark).Some? && raster(BuildSvgs(title, section).light).Some?
    ensures r.Success? ==>
      r.value == PngPair(raster(BuildSvgs(title, section).dark).value, raster(BuildSvgs(title, section).light).value)
  {
    if title == "" || section == "" then Failure(MissingParameters)
    else
      var svgs := BuildSvgs(title, section);
      match raster(svgs.dark)
      case None => Failure(RenderFailed)
      case Some(dark) =>
        match raster(svgs.light)
        case None => Failure(RenderFailed)
        case Some(light) => Success(PngPair(dark, light))
  }
}
