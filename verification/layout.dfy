/** The title layout shared by the three renderer files (truncation, font-size tier, wrapping,
    vertical centring) and the SVG document they compose from it, kept as a structure
    rather than as markup text. */
module Layout {
  import opened Text
  import Xml
  import Wrap

  const CanvasHeight: nat := 630
  /** Longest title shown in full; longer ones are cut here and get "...". */
  const MaxTitleLength: nat := 80
  const Ellipsis: string := "..."
  /** Target width handed to `wrapText`. */
  const WrapWidth: nat := 1000
  /** Left margin of the title and of every tspan. */
  const TitleX: nat := 60
  const BylinePrefix: string := "Jesse Lin · 数字生命 · "
  const Footer: string := "them.selv.es"

  /** `title.length > 80 ? title.substring(0, 80) + "..." : title`. */
  function DisplayTitle(title: string): (d: string)
    ensures |d| <= MaxTitleLength + |Ellipsis|
    ensures |title| <= MaxTitleLength ==> d == title
    ensures |title| > MaxTitleLength ==>
      |d| == MaxTitleLength + |Ellipsis| && d[..MaxTitleLength] == title[..MaxTitleLength] && EndsWith(d, Ellipsis)
  {
    if |title| > MaxTitleLength then
      EndsWithConcat(title[..MaxTitleLength], Ellipsis);
      title[..MaxTitleLength] + Ellipsis
    else title
  }

  /** `len > 40 ? 48 : len > 25 ? 56 : 64` on the display length. */
  function FontSizeFor(len: nat): (fs: nat)
    ensures fs == 48 || fs == 56 || fs == 64
    ensures fs == 48 <==> len > 40
    ensures fs == 64 <==> len <= 25
  {
    if len > 40 then 48 else if len > 25 then 56 else 64
  }

  /** Longer titles never get a larger font. */
  lemma FontSizeAntitone(a: nat, b: nat)
    requires a <= b
    ensures FontSizeFor(b) <= FontSizeFor(a)
  {
  }

  /** The tier boundaries, on both sides of each threshold. */
  lemma FontSizeBoundaries()
    ensures FontSizeFor(10) == 64 && FontSizeFor(25) == 64 && FontSizeFor(26) == 56
    ensures FontSizeFor(30) == 56 && FontSizeFor(40) == 56 && FontSizeFor(41) == 48 && FontSizeFor(60) == 48
  {
  }

  /** `fontSize * 1.15`. */
  function LineHeight(fontSize: nat): real {
    fontSize as real * 1.15
  }

  /** `(630 - n * lineHeight) / 2 + fontSize * 0.8`. */
  function TitleY(n: nat, fontSize: nat): real {
    (CanvasHeight as real - n as real * LineHeight(fontSize)) / 2.0 + fontSize as real * 0.8
  }

  /** The derived layout of one title. */
  datatype TitleLayout = TitleLayout(
    display: string,
    fontSize: nat,
    lines: seq<string>,
    lineHeight: real,
    titleY: real)
  {
    /** Top of the title block: the baseline of the first line less the `0.8 * fontSize` ascent. */
    function BlockTop(): real {
      titleY - fontSize as real * 0.8
    }

    /** Bottom of the title block. */
    function BlockBottom(): real {
      BlockTop() + |lines| as real * lineHeight
    }
  }

  /** The layout part of `buildSvg`/`buildSvgs`: lines are wrapped from the lower-cased display title. */
  function ComputeLayout(title: string): (l: TitleLayout)
    ensures l.display == DisplayTitle(title)
    ensures l.fontSize == FontSizeFor(|l.display|)
    ensures l.lineHeight == LineHeight(l.fontSize)
    ensures l.lines == Wrap.WrapText(Lower(l.display), l.fontSize, WrapWidth)
    ensures forall line <- l.lines :: line != "" && Wrap.FitsOrToken(line, Wrap.CharsPerLine(l.fontSize, WrapWidth))
    ensures l.BlockTop() == CanvasHeight as real - l.BlockBottom()
  {
    var display := DisplayTitle(title);
    var fs := FontSizeFor(|display|);
    var lines := Wrap.WrapText(Lower(display), fs, WrapWidth);
    TitleLayout(display, fs, lines, LineHeight(fs), TitleY(|lines|, fs))
  }

  /** The budget each tier wraps against: 40, 34 or 30 characters. */
  lemma LayoutBudget(title: string)
    ensures var l := ComputeLayout(title);
      Wrap.CharsPerLine(l.fontSize, WrapWidth) == (if l.fontSize == 48 then 40 else if l.fontSize == 56 then 34 else 30)
  {
    Wrap.TitleBudgets();
  }

  /** A line within its budget has an estimated width within the 1000-unit target. */
  lemma LayoutLineWidth(title: string, line: string)
    requires line in ComputeLayout(title).lines
    requires |line| <= Wrap.CharsPerLine(ComputeLayout(title).fontSize, WrapWidth)
    ensures |line| as real * Wrap.AvgCharWidth(ComputeLayout(title).fontSize) <= WrapWidth as real
  {
    var fs := ComputeLayout(title).fontSize;
    var n := Wrap.CharsPerLine(fs, WrapWidth);
    var w := Wrap.AvgCharWidth(fs);
    assert w > 0.0;
    assert |line| as real <= n as real;
    assert |line| as real * w <= n as real * w;
  }

  /** A title longer than 80 characters is shown as 83 characters at the smallest size. */
  lemma TruncatedTitleLayout(title: string)
    requires |title| > MaxTitleLength
    ensures |ComputeLayout(title).display| == 83
    ensures ComputeLayout(title).fontSize == 48
  {
  }

  /** An empty title lays out as no lines, centred on an empty block. */
  lemma EmptyTitleLayout()
    ensures ComputeLayout("").lines == []
    ensures ComputeLayout("").fontSize == 64
    ensures ComputeLayout("").BlockTop() == 315.0
  {
  }

  /** Lower-casing keeps every space where it was, so it keeps the spacing pattern. */
  lemma {:induction false} LowerKeepsSingleSpacing(s: string)
    ensures Wrap.SingleSpaced(Lower(s)) <==> Wrap.SingleSpaced(s)
    decreases |s|
  {
    if |s| >= 2 {
      LowerKeepsSingleSpacing(s[1..]);
      assert Lower(s)[1..] == Lower(s[1..]);
    }
  }

  /** A well-spaced display title wraps into lines that re-join to its lower-cased text exactly,
      with every line break forced by the budget. */
  lemma LayoutLossless(title: string)
    requires Wrap.WellSpaced(DisplayTitle(title))
    ensures var l := ComputeLayout(title);
      Join(l.lines, ' ') == Lower(l.display) && Wrap.Greedy(l.lines, Wrap.CharsPerLine(l.fontSize, WrapWidth))
  {
    var d := DisplayTitle(title);
    LowerKeepsSingleSpacing(d);
    Wrap.NoEmptyTokensIff(Lower(d));
    Wrap.WrapTextGreedyLossless(Lower(d), FontSizeFor(|d|), WrapWidth);
  }

  /** One text run of the title. */
  datatype Tspan = Tspan(dy: real, text: string)

  /** The colours of one document. */
  datatype Palette = Palette(background: string, text: string, meta: string, accent: string)

  /** The SVG document: background rectangle, accent dot, byline, title runs, footer and accent bar
      (the dot and the bar share the accent colour). */
  datatype Document = Document(
    palette: Palette,
    byline: string,
    titleX: nat,
    titleY: real,
    titleFont: string,
    fontSize: nat,
    tspans: seq<Tspan>,
    footer: string)

  /** `lines.map((line, i) => <tspan x="60" dy=...>escapeXml(line)</tspan>)`. */
  function Tspans(lines: seq<string>, lineHeight: real): (ts: seq<Tspan>)
    ensures |ts| == |lines|
    ensures forall i :: 0 <= i < |ts| ==> ts[i].dy == (if i == 0 then 0.0 else lineHeight)
    ensures forall i :: 0 <= i < |ts| ==> '<' !in ts[i].text && Xml.Unescape(ts[i].text) == lines[i]
  {
    EscapedLinesDecode(lines);
    seq(|lines|, i requires 0 <= i < |lines| => Tspan(if i == 0 then 0.0 else lineHeight, Xml.Escape(lines[i])))
  }

  /** Every escaped line decodes back to the line. */
  lemma EscapedLinesDecode(lines: seq<string>)
    ensures forall i :: 0 <= i < |lines| ==> Xml.Unescape(Xml.Escape(lines[i])) == lines[i]
  {
    forall i | 0 <= i < |lines| {
      Xml.UnescapeEscape(lines[i]);
    }
  }

  /** A document shows a layout: at its size and start height, one escaped run per line,
      the first with no offset and each later one a line height below. */
  predicate ShowsLayout(doc: Document, l: TitleLayout) {
    && doc.fontSize == l.fontSize
    && doc.titleX == TitleX
    && doc.titleY == l.titleY
    && |doc.tspans| == |l.lines|
    && (forall i :: 0 <= i < |doc.tspans| ==>
          doc.tspans[i].text == Xml.Escape(l.lines[i])
          && doc.tspans[i].dy == (if i == 0 then 0.0 else l.lineHeight))
  }

  /** The SVG template of every renderer file, over a layout, a palette, the byline's section text and a title font. */
  function Compose(l: TitleLayout, palette: Palette, section: string, titleFont: string): (doc: Document)
    ensures ShowsLayout(doc, l)
    ensures doc.palette == palette && doc.titleFont == titleFont && doc.byline == BylinePrefix + section && doc.footer == Footer
  {
    Document(palette, BylinePrefix + section, TitleX, l.titleY, titleFont, l.fontSize, Tspans(l.lines, l.lineHeight), Footer)
  }

  /** The title runs carry no raw markup and decode back to the wrapped lines. */
  lemma ShownLinesDecode(doc: Document, l: TitleLayout, i: nat)
    requires ShowsLayout(doc, l)
    requires i < |doc.tspans|
    ensures Xml.WellEscaped(doc.tspans[i].text)
    ensures Xml.Unescape(doc.tspans[i].text) == l.lines[i]
  {
    Xml.EscapeIsWellEscaped(l.lines[i]);
    Xml.UnescapeEscape(l.lines[i]);
  }
}
