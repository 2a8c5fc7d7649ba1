/** src/utils/og-fix.ts: one dark document per title, rasterised with the WASM backend, which is
    initialised at most once per process behind a flag. */
module OgFix {
  import opened Wrappers
  import opened Layout
  import opened Raster
  import Xml

  /** Accent and background of a section. */
  datatype SectionConfig = SectionConfig(accent: string, bg: string)

  const SectionConfigs: map<string, SectionConfig> := map[
    "writing" := SectionConfig("#f97316", "#0a0a0a"),
    "thought" := SectionConfig("#ef4444", "#0a0a0a")
  ]

  /** `SECTION_CONFIG[section] || SECTION_CONFIG.thought`. */
  function ConfigFor(section: string): (c: SectionConfig)
    ensures c.bg == "#0a0a0a"
    ensures c.accent == (if section == "writing" then "#f97316" else "#ef4444")
  {
    if section in SectionConfigs then SectionConfigs[section] else SectionConfigs["thought"]
  }

  const TitleFont: string := "Inter, -apple-system, BlinkMacSystemFont, Segoe UI, Roboto, sans-serif"
  const TextColor: string := "#ffffff"
  const MetaColor: string := "#a3a3a3"

  /** `buildSvg`: the shared layout on the section's dark palette, with the section escaped in the byline. */
  function BuildSvg(title: string, section: string): (doc: Document)
    ensures ShowsLayout(doc, ComputeLayout(title))
    ensures doc.palette == Palette(ConfigFor(section).bg, TextColor, MetaColor, ConfigFor(section).accent)
    ensures doc.byline == BylinePrefix + Xml.Escape(section)
    ensures doc.titleFont == TitleFont
  {
    var config := ConfigFor(section);
    Compose(ComputeLayout(title), Palette(config.bg, TextColor, MetaColor, config.accent), Xml.Escape(section), TitleFont)
  }

  /** The byline never carries raw markup from the section and decodes back to it. */
  lemma BylineEscaped(title: string, section: string)
    ensures var b := BuildSvg(title, section).byline;
      b[..|BylinePrefix|] == BylinePrefix
      && Xml.WellEscaped(b[|BylinePrefix|..]) && Xml.Unescape(b[|BylinePrefix|..]) == section
  {
    var b := BuildSvg(title, section).byline;
    assert b[|BylinePrefix|..] == Xml.Escape(section);
    Xml.EscapeIsWellEscaped(section);
    Xml.UnescapeEscape(section);
  }

  /** The module-level `wasmInitialized` flag. */
  datatype Engine = Engine(initialized: bool)

  /** What the fetch path of `initWasmOnce` meets: `fetch` throws, the response is not ok,
      or the response is ok and reading it and `initWasm` then succeed or not. */
  datatype FetchOutcome = FetchThrows | FetchNotOk | FetchOk(initSucceeds: bool)

  /** The outcomes of the two loading paths of one `initWasmOnce` call; the file-system path
      succeeds when `readFileSync` and `initWasm` both do. */
  datatype Loaders = Loaders(fsSucceeds: bool, fetch: FetchOutcome)

  /** Whether one attempt brings the engine up, through either path. */
  predicate Loads(l: Loaders) {
    l.fsSucceeds || l.fetch == FetchOk(true)
  }

  datatype InitResult = InitResult(engine: Engine, outcome: Outcome<RenderError>)

  /** `initWasmOnce`: a no-op once the flag is set; otherwise the file-system path, then the fetch
      path; the flag is set only right after a successful `initWasm`, and both failing throws. */
  function InitWasmOnce(e: Engine, l: Loaders): (r: InitResult)
    ensures e.initialized ==> r == InitResult(e, Pass)
    ensures r.engine.initialized <==> e.initialized || Loads(l)
    ensures r.outcome == Pass <==> r.engine.initialized
    ensures r.outcome != Pass ==> r == InitResult(e, Fail(WasmInitFailed))
  {
    if e.initialized then InitResult(e, Pass)
    else if l.fsSucceeds then InitResult(Engine(true), Pass)
    else
      match l.fetch
      case FetchOk(true) => InitResult(Engine(true), Pass)
      case _ => InitResult(e, Fail(WasmInitFailed))
  }

  /** The flag after a series of `initWasmOnce` calls. */
  function InitSeries(e: Engine, calls: seq<Loaders>): Engine
    decreases |calls|
  {
    if calls == [] then e else InitSeries(InitWasmOnce(e, calls[0]).engine, calls[1..])
  }

  /** Over any series of calls the flag ends up set exactly when it started set or some call loaded
      the engine; once set it never clears. */
  lemma {:induction false} InitSeriesFlag(e: Engine, calls: seq<Loaders>)
    ensures InitSeries(e, calls).initialized <==> e.initialized || exists i :: 0 <= i < |calls| && Loads(calls[i])
    decreases |calls|
  {
    if calls != [] {
      var e' := InitWasmOnce(e, calls[0]).engine;
      InitSeriesFlag(e', calls[1..]);
      if exists i :: 0 <= i < |calls| && Loads(calls[i]) {
        var i :| 0 <= i < |calls| && Loads(calls[i]);
        if i > 0 {
          assert Loads(calls[1..][i - 1]);
        }
      }
      if exists j :: 0 <= j < |calls[1..]| && Loads(calls[1..][j]) {
        var j :| 0 <= j < |calls[1..]| && Loads(calls[1..][j]);
        assert Loads(calls[j + 1]);
      }
    }
  }

  /** The result of `renderOgImage` together with the flag it leaves behind. */
  datatype FixRender = FixRender(engine: Engine, result: Result<Png, RenderError>)

  /** `renderOgImage`: empty arguments are rejected before initialisation is attempted; then the
      engine is brought up and the document rasterised, and any error propagates. */
  function RenderOgImage(e: Engine, title: string, section: string, l: Loaders, raster: Rasterizer): (r: FixRender)
    ensures title == "" || section == "" ==> r == FixRender(e, Failure(MissingParameters))
    ensures r.result == Failure(MissingParameters) <==> title == "" || section == ""
    ensures title != "" && section != "" && !e.initialized && !Loads(l) ==> r.result == Failure(WasmInitFailed)
    ensures r.engine.initialized <==> e.initialized || (title != "" && section != "" && Loads(l))
    ensures r.result.Success? <==>
      title != "" && section != "" && (e.initialized || Loads(l)) && raster(BuildSvg(title, section)).Some?
    ensures r.result.Success? ==> r.result.value == raster(BuildSvg(title, section)).value
  {
    if title == "" || section == "" then FixRender(e, Failure(MissingParameters))
    else
      var init := InitWasmOnce(e, l);
      if init.outcome != Pass then FixRender(init.engine, Failure(WasmInitFailed))
      else
        match raster(BuildSvg(title, section))
        case None => FixRender(init.engine, Failure(RenderFailed))
        case Some(png) => FixRender(init.engine, Success(png))
  }

  /** Once the engine is up, the loaders are never consulted again. */
  lemma InitializedIgnoresLoaders(title: string, section: string, l1: Loaders, l2: Loaders, raster: Rasterizer)
    ensures RenderOgImage(Engine(true), title, section, l1, raster) == RenderOgImage(Engine(true), title, section, l2, raster)
  {
  }
}
