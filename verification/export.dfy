/** What the icon menu's copy and download actions produce: the markup
    with the chosen size and stroke substituted, the same markup converted
    to JSX, the `<IconName />` snippet, and the download file names. The
    rendered markup of an icon is an input; parsing it is an input too. */
module Export {
  import opened Wrappers
  import opened Strings
  import opened Dom
  import opened Jsx
  import opened Slug

  /** The size a user can pick, as the class suffix `4` to `7`. */
  datatype Size = Size4 | Size5 | Size6 | Size7

  /** The stroke width a user can pick, `1` or `2`. */
  datatype Stroke = Stroke1 | Stroke2

  function SizeDigit(size: Size): (r: char)
    ensures '4' <= r <= '7'
  {
    match size
    case Size4 => '4'
    case Size5 => '5'
    case Size6 => '6'
    case Size7 => '7'
  }

  function StrokeDigit(stroke: Stroke): (r: char)
    ensures r == '1' || r == '2'
  {
    match stroke
    case Stroke1 => '1'
    case Stroke2 => '2'
  }

  /** The stroke text the rendered icon carries. */
  const StrokeToken: string := "stroke-width=\"2\""

  /** The size class the SVG copy looks for. */
  const SvgSizeToken: string := "size-5"

  /** The size class the JSX copy looks for. */
  const JsxSizeToken: string := "size-4"

  /** The Tailwind class `size-N`; it is the class the SVG copy looks for
      exactly at size 5, and the one the JSX copy looks for exactly at 4. */
  function SizeClass(size: Size): (r: string)
    ensures |r| == 6 && r[..5] == "size-" && r[5] == SizeDigit(size)
    ensures r == SvgSizeToken <==> size == Size5
    ensures r == JsxSizeToken <==> size == Size4
  {
    "size-" + [SizeDigit(size)]
  }

  /** The attribute text `stroke-width="N"`; it is the text the rendered
      icon carries exactly for the default stroke 2. */
  function StrokeAttr(stroke: Stroke): (r: string)
    ensures |r| == 16 && r[..14] == "stroke-width=\"" && r[14] == StrokeDigit(stroke) && r[15] == '"'
    ensures r == StrokeToken <==> stroke == Stroke2
  {
    "stroke-width=\"" + [StrokeDigit(stroke)] + "\""
  }

  /** The two first-occurrence replacements of a copy action, size first. */
  function Substitute(markup: string, sizeToken: string, size: Size, stroke: Stroke): string
  {
    ReplaceFirst(ReplaceFirst(markup, sizeToken, SizeClass(size)), StrokeToken, StrokeAttr(stroke))
  }

  /** The text `copySvgToClipboard` writes. */
  function CopySvgText(markup: string, size: Size, stroke: Stroke): string
  {
    Substitute(markup, SvgSizeToken, size, stroke)
  }

  /** The text `copyJsxSvgToClipboard` writes: substitute, parse, convert. */
  function CopyJsxText(parse: string -> Node, markup: string, size: Size, stroke: Stroke): string
  {
    ConvertSvgToJsx(parse(Substitute(markup, JsxSizeToken, size, stroke)))
  }

  /** The text `copyJsxToClipboard` writes. */
  function CopyNameText(name: string): (r: string)
    ensures |r| == |name| + 8
  {
    "<Icon" + name + " />"
  }

  /** Reads an icon name back out of a copied snippet. */
  function ParseCopyName(s: string): (r: Option<string>)
  {
    if |s| >= 8 && s[..5] == "<Icon" && s[|s| - 3..] == " />" then Some(s[5..|s| - 3]) else None
  }

  /** The file name `downloadSvg` offers. */
  function SvgFileName(name: string): string
  {
    Slugify(name) + ".svg"
  }

  /** The file name `downloadPng` offers. */
  function PngFileName(name: string): string
  {
    Slugify(name) + ".png"
  }

  // ---------------------------------------------------------------------
  // Substitution.
  // ---------------------------------------------------------------------

  lemma SvgTokensApart(size: Size)
    ensures Apart(SvgSizeToken, StrokeToken)
    ensures Apart(StrokeToken, SizeClass(size))
  {
    assert StrokeToken[1..] == "troke-width=\"2\"";
    assert 's' !in StrokeToken[1..];
    assert SvgSizeToken[1..] == "ize-5";
    assert SvgSizeToken[..2] == "si";
    var c := SizeClass(size);
    assert c[0] == 's' && c[1] == 'i';
    assert c[1..] == "ize-" + [SizeDigit(size)];
    assert StrokeToken[..2] == "st" && c[..2] == "si";
  }

  /** With the default size and stroke the SVG is copied as rendered. */
  lemma CopySvgDefaults(markup: string)
    ensures CopySvgText(markup, Size5, Stroke2) == markup
  {
    assert SizeClass(Size5) == SvgSizeToken;
    assert StrokeAttr(Stroke2) == StrokeToken;
    ReplaceFirstSame(markup, SvgSizeToken);
    ReplaceFirstSame(markup, StrokeToken);
  }

  /** Markup carrying neither token is copied as rendered. */
  lemma CopySvgWithoutTokens(markup: string, size: Size, stroke: Stroke)
    requires !Contains(markup, SvgSizeToken) && !Contains(markup, StrokeToken)
    ensures CopySvgText(markup, size, stroke) == markup
  {
  }

  /** The copied SVG carries the chosen stroke whenever the rendered markup
      had the default one. */
  lemma CopySvgSetsStroke(markup: string, size: Size, stroke: Stroke)
    requires Contains(markup, StrokeToken)
    ensures Contains(CopySvgText(markup, size, stroke), StrokeAttr(stroke))
  {
    SvgTokensApart(size);
    var sized := ReplaceFirst(markup, SvgSizeToken, SizeClass(size));
    ReplaceFirstKeeps(markup, SvgSizeToken, SizeClass(size), StrokeToken);
    ReplaceFirstInstalls(sized, StrokeToken, StrokeAttr(stroke));
  }

  /** The copied SVG carries the chosen size whenever the rendered markup
      had the `size-5` class. */
  lemma CopySvgSetsSize(markup: string, size: Size, stroke: Stroke)
    requires Contains(markup, SvgSizeToken)
    ensures Contains(CopySvgText(markup, size, stroke), SizeClass(size))
  {
    SvgTokensApart(size);
    var sized := ReplaceFirst(markup, SvgSizeToken, SizeClass(size));
    ReplaceFirstInstalls(markup, SvgSizeToken, SizeClass(size));
    ReplaceFirstKeeps(sized, StrokeToken, StrokeAttr(stroke), SizeClass(size));
  }

  /** The JSX copy looks for `size-4`, not `size-5`: markup rendered with
      the `size-5` class keeps it, whatever size was chosen, and only the
      stroke is substituted. */
  lemma CopyJsxIgnoresSize5(parse: string -> Node, markup: string, size: Size, stroke: Stroke)
    requires !Contains(markup, JsxSizeToken)
    ensures CopyJsxText(parse, markup, size, stroke)
         == ConvertSvgToJsx(parse(ReplaceFirst(markup, StrokeToken, StrokeAttr(stroke))))
  {
  }

  /** The stroke the JSX copy substitutes is shown under the camel-case
      name: when the substituted markup parses to an element whose
      `stroke-width` carries the chosen stroke, the JSX contains
      `strokeWidth="N"`. */
  lemma CopyJsxShowsStroke(parse: string -> Node, markup: string, size: Size, stroke: Stroke, root: Node)
    requires parse(Substitute(markup, JsxSizeToken, size, stroke)) == root
    requires root.Element? && UniqueNames(root.attrs)
    requires Attr("stroke-width", [StrokeDigit(stroke)]) in root.attrs
    requires forall b :: b in root.attrs && !IsCamel(b.name) && CamelCase(b.name) == "strokeWidth"
                         ==> b.value == [StrokeDigit(stroke)]
    ensures Contains(CopyJsxText(parse, markup, size, stroke), RenderAttr(Attr("strokeWidth", [StrokeDigit(stroke)])))
  {
    ShownStroke(root, [StrokeDigit(stroke)]);
  }

  lemma ShownStroke(root: Node, v: string)
    requires root.Element? && UniqueNames(root.attrs)
    requires Attr("stroke-width", v) in root.attrs
    requires forall b :: b in root.attrs && !IsCamel(b.name) && CamelCase(b.name) == "strokeWidth"
                         ==> b.value == v
    ensures Contains(ConvertSvgToJsx(root), RenderAttr(Attr("strokeWidth", v)))
  {
    var a := Attr("stroke-width", v);
    CamelCaseStrokeWidth();
    assert !IsCamel(a.name);
    RenamedAttributeShown(root.tag, root.attrs, root.children, a);
  }

  // ---------------------------------------------------------------------
  // Copy-name snippet.
  // ---------------------------------------------------------------------

  /** The snippet names exactly the icon it was made for, and every
      well-formed snippet comes from exactly one name. */
  lemma CopyNameRoundTrip(name: string, s: string)
    ensures ParseCopyName(CopyNameText(name)) == Some(name)
    ensures ParseCopyName(s) == Some(name) <==> s == CopyNameText(name)
  {
    var t := CopyNameText(name);
    assert t[..5] == "<Icon" && t[|t| - 3..] == " />" && t[5..|t| - 3] == name;
    if ParseCopyName(s) == Some(name) {
      assert s == s[..5] + s[5..|s| - 3] + s[|s| - 3..];
    }
  }

  // ---------------------------------------------------------------------
  // Download names.
  // ---------------------------------------------------------------------

  /** The SVG download is named by the slug and `.svg`; the stem has no
      capitals and spells the name, lower-cased, up to hyphens. */
  lemma SvgDownloadName(name: string)
    ensures var f := SvgFileName(name);
            && f[..|f| - 4] == Slugify(name) && f[|f| - 4..] == ".svg"
            && (forall i :: 0 <= i < |f| ==> !IsUpper(f[i]))
            && Delete(f[..|f| - 4], '-') == Lower(Delete(name, '-'))
  {
    SlugifyOnlyInserts(name);
  }

  /** The PNG download is named by the same slug and `.png`. */
  lemma PngDownloadName(name: string)
    ensures var f := PngFileName(name);
            && f[..|f| - 4] == Slugify(name) && f[|f| - 4..] == ".png"
            && f[..|f| - 4] == SvgFileName(name)[..|f| - 4]
            && (forall i :: 0 <= i < |f| ==> !IsUpper(f[i]))
  {
  }

  lemma CamelSlug()
    ensures Slugify("aB") == "a-b"
  {
    assert Hyphenate(LowerUpper, "aB") == "a-B" by {
      assert "aB"[2..] == "";
    }
    HyphenateIdentity(UpperUpper, "a-B");
    HyphenateIdentity(LetterDigit, "a-B");
  }

  /** Distinct icon names can download under the same file name: a capital
      and a hyphen before a lower-case letter give the same slug. */
  lemma DownloadNamesCollide()
    ensures "aB" != "a-b"
    ensures SvgFileName("aB") == SvgFileName("a-b")
    ensures PngFileName("aB") == PngFileName("a-b")
  {
    CamelSlug();
    SlugifyFixed("a-b");
  }
}
