/** How the three renderer files relate: the two single-document files draw the same document,
    and the dark document of og-new differs from it only in the title font. */
module Variants {
  import Layout
  import Raster
  import OgNew
  import OgFix
  import OgNodejs

  /** og-fix and og-nodejs build identical documents for every title and section. */
  lemma FixAndNodejsAgree(title: string, section: string)
    ensures OgFix.BuildSvg(title, section) == OgNodejs.BuildSvg(title, section)
  {
  }

  /** For the sections the page passes, og-new's dark document is og-fix's with the title font changed. */
  lemma NewDarkIsFixDocument(title: string, section: string)
    requires section == "writing" || section == "thought"
    ensures OgNew.BuildSvgs(title, section).dark == OgFix.BuildSvg(title, section).(titleFont := OgNew.TitleFont)
  {
    OgNew.KnownSectionBylineNeedsNoEscape(title, section);
    var a, b := OgNew.BuildSvgs(title, section).dark, OgFix.BuildSvg(title, section);
    assert a.tspans == b.tspans;
  }

  /** With the same rasteriser, og-fix (once initialised) and og-nodejs produce the same image or both fail. */
  lemma FixAndNodejsRenderAlike(title: string, section: string, l: OgFix.Loaders, raster: Raster.Rasterizer)
    ensures OgFix.RenderOgImage(OgFix.Engine(true), title, section, l, raster).result == OgNodejs.RenderOgImage(title, section, raster)
  {
    FixAndNodejsAgree(title, section);
  }
}
