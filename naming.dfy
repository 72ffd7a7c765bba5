/**
 * Download names: `fileNameFromUrl`, the decoded last segment of a URL's path, and
 * `parseTemplate`, which fills the placeholders {HOST}, {PTITLE}, {N}, {N0001} and {EXT} of a
 * name template. `new URL(...)` and `decodeURIComponent` are library calls and are passed in.
 */
module Naming {
  import opened Wrappers
  import opened Strings

  /** The fields of a parsed `URL` the rules read: `host` (with any port), `hostname`, `pathname`. */
  datatype ParsedUrl = ParsedUrl(host: string, hostname: string, pathname: string)

  /**
   * The library calls: `new URL(u)`, None where it throws, and `decodeURIComponent`, None
   * where it throws on a malformed escape.
   */
  datatype UrlLib = UrlLib(parse: string -> Option<ParsedUrl>, decode: string -> Option<string>)

  /** `fileNameFromUrl(u)`: every failure and every empty result falls back to "image". */
  function FileNameFromUrl(lib: UrlLib, u: string): (name: string)
    ensures name != ""
  {
    match lib.parse(u)
    case None => "image"
    case Some(url) =>
      var seg := Last(Split(url.pathname, '/'));
      var name := if seg == "" then "image" else seg;
      match lib.decode(Split(name, '?')[0])
      case None => "image"
      case Some(d) => if d == "" then "image" else d
  }

  /** The `ext` of `parseTemplate`: the lowercased text after the last '.', or "jpg" when it is empty. */
  function Extension(lib: UrlLib, u: string): (ext: string)
    ensures ext != "" && '.' !in ext
  {
    var e := ToLower(Last(Split(FileNameFromUrl(lib, u), '.')));
    if e == "" then "jpg" else e
  }

  /** `pageTitle || document.title || 'page'`. */
  function TitleFor(pageTitle: string, documentTitle: string): (t: string)
    ensures t != ""
  {
    if pageTitle != "" then pageTitle else if documentTitle != "" then documentTitle else "page"
  }

  /**
   * `parseTemplate(tpl, url, idx, pageTitle)`: each placeholder in turn, every occurrence
   * replaced. `documentTitle` is the page's `document.title`. A template without '{' holds no
   * placeholder and is the name itself.
   */
  function ParseTemplate(lib: UrlLib, documentTitle: string, tpl: string, url: string, idx: nat,
                         pageTitle: string): (r: string)
    ensures '{' !in tpl ==> r == tpl
  {
    var u := lib.parse(url);
    var ext := Extension(lib, url);
    var n := Decimal(idx + 1);
    var n0001 := PadStart(n, 4, '0');
    var host := if u.Some? then u.value.host else "host";
    var replaced := ReplaceAll(tpl, "{HOST}", host);
    var replaced := ReplaceAll(replaced, "{PTITLE}", TitleFor(pageTitle, documentTitle));
    var replaced := ReplaceAll(replaced, "{N}", n);
    var replaced := ReplaceAll(replaced, "{N0001}", n0001);
    ReplaceAll(replaced, "{EXT}", ext)
  }

  // ---------------------------------------------------------------------------
  // The file name and the extension

  /** A URL that does not parse is named "image". */
  lemma FileNameUnparsable(lib: UrlLib, u: string)
    requires lib.parse(u).None?
    ensures FileNameFromUrl(lib, u) == "image"
  {
  }

  /** A segment after the last '/' that decodes to a non-empty name gives that name. */
  lemma FileNameOfSegment(lib: UrlLib, u: string, dir: string, seg: string, d: string)
    requires lib.parse(u).Some? && lib.parse(u).value.pathname == dir + "/" + seg
    requires seg != "" && '/' !in seg && '?' !in seg
    requires lib.decode(seg) == Some(d) && d != ""
    ensures FileNameFromUrl(lib, u) == d
  {
    LastSplitAfter(dir, '/', seg);
    SplitWithout(seg, '?');
  }

  /** A path ending in '/' has an empty last segment, and the name is the decoded "image". */
  lemma FileNameOfDirectory(lib: UrlLib, u: string, dir: string)
    requires lib.parse(u).Some? && lib.parse(u).value.pathname == dir + "/"
    ensures FileNameFromUrl(lib, u) == (if lib.decode("image") == Some("") || lib.decode("image").None? then "image"
                                        else lib.decode("image").value)
  {
    LastSplitAfter(dir, '/', "");
    assert dir + "/" == dir + ['/'] + "";
    SplitWithout("image", '?');
  }

  /** The extension is the lowercased text after the name's last '.', and "jpg" only when that is empty. */
  lemma ExtensionAfterLastDot(lib: UrlLib, u: string, stem: string, t: string)
    requires FileNameFromUrl(lib, u) == stem + "." + t && '.' !in t
    ensures Extension(lib, u) == if t == "" then "jpg" else ToLower(t)
  {
    LastSplitAfter(stem, '.', t);
  }

  /** A name without a '.' is its own extension, lowercased. */
  lemma ExtensionNoDot(lib: UrlLib, u: string)
    requires '.' !in FileNameFromUrl(lib, u)
    ensures Extension(lib, u) == ToLower(FileNameFromUrl(lib, u))
  {
    SplitWithout(FileNameFromUrl(lib, u), '.');
  }

  /** A URL that does not parse gets the extension "image", not "jpg". */
  lemma ExtensionUnparsable(lib: UrlLib, u: string)
    requires lib.parse(u).None?
    ensures Extension(lib, u) == "image"
  {
    ExtensionNoDot(lib, u);
    assert ToLower("image") == "image";
  }

  // ---------------------------------------------------------------------------
  // The numbers

  /** {N} is the decimal of idx + 1; {N0001} is that padded with '0' to at least four digits, same value. */
  lemma IndexFields(idx: nat)
    ensures var n := Decimal(idx + 1);
      && DigitsValue(n) == idx + 1
      && var p := PadStart(n, 4, '0');
      && |p| == (if |n| < 4 then 4 else |n|)
      && p[|p| - |n|..] == n
      && (forall i :: 0 <= i < |p| ==> IsDigit(p[i]))
      && DigitsValue(p) == idx + 1
  {
    var n := Decimal(idx + 1);
    DecimalValue(idx + 1);
    var k := if |n| < 4 then 4 - |n| else 0;
    ZerosValue(k, n);
    if k == 0 {
      assert Repeat('0', k) + n == n;
    }
    assert PadStart(n, 4, '0') == Repeat('0', k) + n;
  }

  // ---------------------------------------------------------------------------
  // Templates

  /** A template with none of the five placeholders comes back unchanged. */
  lemma ParseTemplateUnchanged(lib: UrlLib, documentTitle: string, tpl: string, url: string, idx: nat,
                               pageTitle: string)
    requires !Occurs(tpl, "{HOST}") && !Occurs(tpl, "{PTITLE}") && !Occurs(tpl, "{N}")
    requires !Occurs(tpl, "{N0001}") && !Occurs(tpl, "{EXT}")
    ensures ParseTemplate(lib, documentTitle, tpl, url, idx, pageTitle) == tpl
  {
  }

  /** The template "{N}" names the attempt idx by the decimal of idx + 1. */
  lemma ParseTemplateNumber(lib: UrlLib, documentTitle: string, url: string, idx: nat, pageTitle: string)
    ensures ParseTemplate(lib, documentTitle, "{N}", url, idx, pageTitle) == Decimal(idx + 1)
  {
    var u := lib.parse(url);
    var host := if u.Some? then u.value.host else "host";
    var n := Decimal(idx + 1);
    ReplaceAllCharAbsent("{N}", "{HOST}", host, 1);
    ReplaceAllCharAbsent("{N}", "{PTITLE}", TitleFor(pageTitle, documentTitle), 1);
    ReplaceAllWhole("{N}", n);
    DigitsHaveNoDollar(n);
    ReplaceAllCharAbsent(n, "{N0001}", PadStart(n, 4, '0'), 0);
    ReplaceAllCharAbsent(n, "{EXT}", Extension(lib, url), 0);
  }

  /**
   * The template "{PTITLE}" is the page's title as `replaceAll` substitutes it, when that
   * substitution holds no '{'.
   */
  lemma ParseTemplateTitle(lib: UrlLib, documentTitle: string, url: string, idx: nat, pageTitle: string)
    requires '{' !in Substitute(TitleFor(pageTitle, documentTitle), "{PTITLE}", "", "")
    ensures ParseTemplate(lib, documentTitle, "{PTITLE}", url, idx, pageTitle)
      == Substitute(TitleFor(pageTitle, documentTitle), "{PTITLE}", "", "")
  {
    var u := lib.parse(url);
    var host := if u.Some? then u.value.host else "host";
    ReplaceAllCharAbsent("{PTITLE}", "{HOST}", host, 1);
    ReplaceAllWhole("{PTITLE}", TitleFor(pageTitle, documentTitle));
  }

  lemma DollarSpelling()
    ensures "$$$ Deals" == "$$" + ("$" + " Deals") && "$$" + " Deals" == "$$ Deals"
    ensures '$' !in " Deals" && " Deals"[0] == ' '
  {
  }

  /** Each "$$" of a title reads as one '$': the page title "$$$ Deals" gives "$$ Deals". */
  lemma ExampleDollarTitle(lib: UrlLib, documentTitle: string, url: string, idx: nat, title: string)
    requires title == "$$$ Deals"
    ensures ParseTemplate(lib, documentTitle, "{PTITLE}", url, idx, title) == "$$ Deals"
  {
    assert Substitute(title, "{PTITLE}", "", "") == "$$ Deals" by {
      DollarSpelling();
      DollarCodes(" Deals", "{PTITLE}");
    }
    ParseTemplateTitle(lib, documentTitle, url, idx, title);
  }

  /**
   * A placeholder `ph` that `pat` does not match is passed over whole by the textual
   * replacement, together with any text before it in which `pat` cannot start.
   */
  lemma SkipPlaceholder(pre: string, ph: string, rest: string, pat: string, rep: string)
    requires pat != [] && ph != [] && pat[0] !in pre && pat[0] !in ph[1..]
    requires |pat| <= |ph + rest| ==> (ph + rest)[..|pat|] != pat
    ensures ReplaceLiteral(pre + ph + rest, pat, rep) == pre + ph + ReplaceLiteral(rest, pat, rep)
  {
    assert pre + ph + rest == pre + (ph + rest);
    LiteralSkip(pre, ph + rest, pat, rep);
    PlaceholderPassed(ph, rest, pat, rep);
  }

  /** A placeholder that `pat` does not match, and in whose tail `pat` cannot start, is kept whole. */
  lemma PlaceholderPassed(ph: string, rest: string, pat: string, rep: string)
    requires pat != [] && ph != [] && pat[0] !in ph[1..]
    requires |pat| <= |ph + rest| ==> (ph + rest)[..|pat|] != pat
    ensures ReplaceLiteral(ph + rest, pat, rep) == ph + ReplaceLiteral(rest, pat, rep)
  {
    var c, tl := ph[0], ph[1..];
    var r := ReplaceLiteral(rest, pat, rep);
    assert ReplaceLiteral(ph + rest, pat, rep) == [c] + ReplaceLiteral(tl + rest, pat, rep) by {
      assert ph + rest == [c] + (tl + rest);
      LiteralCons(c, tl + rest, pat, rep);
    }
    assert ReplaceLiteral(tl + rest, pat, rep) == tl + r by { LiteralSkip(tl, rest, pat, rep); }
    assert [c] + (tl + r) == ph + r by { assert ph == [c] + tl; }
  }

  /** The text between the placeholders of `pre{N0001}mid{EXT}` is left alone by `pat`. */
  lemma PassOverTemplate(pre: string, mid: string, pat: string, rep: string)
    requires pat != [] && pat[0] == '{' && '{' !in pre && '{' !in mid
    requires |pat| <= |"{N0001}" + mid + "{EXT}"| ==> ("{N0001}" + mid + "{EXT}")[..|pat|] != pat
    requires |pat| <= |"{EXT}"| ==> "{EXT}"[..|pat|] != pat
    ensures ReplaceLiteral(pre + "{N0001}" + mid + "{EXT}", pat, rep) == pre + "{N0001}" + mid + "{EXT}"
  {
    var tail := mid + "{EXT}";
    assert pre + "{N0001}" + mid + "{EXT}" == pre + "{N0001}" + tail;
    assert "{N0001}" + mid + "{EXT}" == "{N0001}" + tail;
    SkipPlaceholder(pre, "{N0001}", tail, pat, rep);
    assert tail == mid + "{EXT}" + "";
    assert "{EXT}" + "" == "{EXT}";
    SkipPlaceholder(mid, "{EXT}", "", pat, rep);
    LiteralShort("", pat, rep);
  }

  /** {HOST}, {PTITLE} and {N} leave `pre{N0001}mid{EXT}` alone. */
  lemma FirstStepsPassOver(pre: string, mid: string, host: string, title: string, n: string)
    requires '{' !in pre && '{' !in mid
    ensures var tpl := pre + "{N0001}" + mid + "{EXT}";
      ReplaceAll(ReplaceAll(ReplaceAll(tpl, "{HOST}", host), "{PTITLE}", title), "{N}", n) == tpl
  {
    var tpl, P, E := pre + "{N0001}" + mid + "{EXT}", "{N0001}", "{EXT}";
    assert !Occurs(tpl, "{HOST}") by {
      assert (P + mid + E)[1] == 'N' && E[1] == 'E';
      PassOverTemplate(pre, mid, "{HOST}", "");
      LiteralUnchangedAbsent(tpl, "{HOST}");
    }
    assert !Occurs(tpl, "{PTITLE}") by {
      assert (P + mid + E)[1] == 'N' && E[1] == 'E';
      PassOverTemplate(pre, mid, "{PTITLE}", "");
      LiteralUnchangedAbsent(tpl, "{PTITLE}");
    }
    assert !Occurs(tpl, "{N}") by {
      assert (P + mid + E)[..3][2] == '0' && E[1] == 'E';
      PassOverTemplate(pre, mid, "{N}", "");
      LiteralUnchangedAbsent(tpl, "{N}");
    }
  }

  /** {N0001} is replaced in `pre{N0001}mid{EXT}`. */
  lemma PaddedStep(pre: string, mid: string, p: string)
    requires '{' !in pre && '{' !in mid && '$' !in p
    ensures ReplaceAll(pre + "{N0001}" + mid + "{EXT}", "{N0001}", p) == pre + p + mid + "{EXT}"
  {
    var P, E := "{N0001}", "{EXT}";
    var tail := mid + E;
    assert ReplaceLiteral(tail, P, p) == tail by {
      LiteralSkip(mid, E, P, p);
      LiteralShort(E, P, p);
    }
    assert ReplaceLiteral(P + tail, P, p) == p + tail by {
      LiteralFront(P, p, tail);
    }
    assert ReplaceLiteral(pre + (P + tail), P, p) == pre + ReplaceLiteral(P + tail, P, p) by {
      LiteralSkip(pre, P + tail, P, p);
    }
    assert pre + P + mid + E == pre + (P + tail);
    assert pre + (p + tail) == pre + p + mid + E;
  }

  /** {EXT} is replaced in `pre p mid{EXT}` by the substitution of the extension. */
  lemma ExtensionStep(pre: string, mid: string, p: string, ext: string)
    requires '{' !in pre && '{' !in mid && '{' !in p
    ensures ReplaceAll(pre + p + mid + "{EXT}", "{EXT}", ext)
      == pre + p + mid + Substitute(ext, "{EXT}", pre + p + mid, "")
  {
    ReplaceAllLast(pre + p + mid, "{EXT}", ext);
  }

  /**
   * A template `pre{N0001}mid{EXT}` whose literal text holds no '{' is named `pre`, the padded
   * number, `mid` and the extension as `replaceAll` substitutes it (itself when it holds no
   * '$'): the {N} step does not touch {N0001}.
   */
  lemma ParseTemplateFields(lib: UrlLib, documentTitle: string, tpl: string, pre: string, mid: string, url: string,
                            idx: nat, pageTitle: string, p: string, ext: string)
    requires tpl == pre + "{N0001}" + mid + "{EXT}" && '{' !in pre && '{' !in mid
    requires p == PadStart(Decimal(idx + 1), 4, '0') && ext == Extension(lib, url)
    ensures ParseTemplate(lib, documentTitle, tpl, url, idx, pageTitle)
      == pre + p + mid + Substitute(ext, "{EXT}", pre + p + mid, "")
    ensures '$' !in ext ==> ParseTemplate(lib, documentTitle, tpl, url, idx, pageTitle) == pre + p + mid + ext
  {
    var u := lib.parse(url);
    var host := if u.Some? then u.value.host else "host";
    var n := Decimal(idx + 1);
    FirstStepsPassOver(pre, mid, host, TitleFor(pageTitle, documentTitle), n);
    IndexFields(idx);
    DigitsHaveNoDollar(p);
    PaddedStep(pre, mid, p);
    ExtensionStep(pre, mid, p, ext);
  }

  /** An extension "$&" stands for the matched "{EXT}", so "P_{N0001}.{EXT}" gives "P_0001.{EXT}". */
  lemma ExampleDollarExtension(lib: UrlLib, documentTitle: string, pageTitle: string, tpl: string, url: string)
    requires tpl == "P_{N0001}.{EXT}" && Extension(lib, url) == "$&"
    ensures ParseTemplate(lib, documentTitle, tpl, url, 0, pageTitle) == "P_0001.{EXT}"
  {
    assert ParseTemplate(lib, documentTitle, tpl, url, 0, pageTitle) == "P_" + "0001" + "." + "{EXT}" by {
      assert tpl == "P_" + "{N0001}" + "." + "{EXT}" by { ExampleSpelling(); }
      assert PadStart(Decimal(1), 4, '0') == "0001" by { ExamplePadding(); }
      ParseTemplateFields(lib, documentTitle, tpl, "P_", ".", url, 0, pageTitle, "0001", "$&");
      assert Substitute("$&", "{EXT}", "P_" + "0001" + ".", "") == "{EXT}" by {
        assert "$&" == "$&" + "";
        SubstituteMatched("", "{EXT}", "P_" + "0001" + ".", "");
      }
    }
    assert "P_" + "0001" + "." + "{EXT}" == "P_0001.{EXT}" by { ExampleSpelling(); }
  }

  /** The name of the example URL is its last segment, "img.PNG". */
  lemma ExampleFileName(lib: UrlLib, url: string)
    requires url == "https://x.example/a/img.PNG?q=1"
    requires lib.parse(url).Some? && lib.parse(url).value.pathname == "/a/img.PNG"
    requires lib.decode("img.PNG") == Some("img.PNG")
    ensures FileNameFromUrl(lib, url) == "img.PNG"
  {
    assert "/a/img.PNG" == "/a" + "/" + "img.PNG";
    FileNameOfSegment(lib, url, "/a", "img.PNG", "img.PNG");
  }

  lemma LowerPng()
    ensures ToLower("PNG") == "png"
  {
  }

  /** "img.PNG" at the end of the path: the extension is "png". */
  lemma ExampleExtension(lib: UrlLib, url: string)
    requires url == "https://x.example/a/img.PNG?q=1"
    requires lib.parse(url).Some? && lib.parse(url).value.pathname == "/a/img.PNG"
    requires lib.decode("img.PNG") == Some("img.PNG")
    ensures Extension(lib, url) == "png"
  {
    ExampleFileName(lib, url);
    assert "img.PNG" == "img" + "." + "PNG";
    ExtensionAfterLastDot(lib, url, "img", "PNG");
    LowerPng();
  }

  lemma ExamplePadding()
    ensures PadStart(Decimal(1), 4, '0') == "0001"
  {
  }

  lemma ExampleSpelling()
    ensures "P_{N0001}.{EXT}" == "P_" + "{N0001}" + "." + "{EXT}"
    ensures "P_" + "0001" + "." + "png" == "P_0001.png"
    ensures "P_" + "0001" + "." + "{EXT}" == "P_0001.{EXT}"
  {
  }

  /**
   * The first URL with the template "P_{N0001}.{EXT}" is named "P_0001.png", whatever its host
   * and the page's titles.
   */
  lemma ExampleName(lib: UrlLib, documentTitle: string, pageTitle: string, tpl: string, url: string)
    requires tpl == "P_{N0001}.{EXT}" && url == "https://x.example/a/img.PNG?q=1"
    requires lib.parse(url).Some? && lib.parse(url).value.pathname == "/a/img.PNG"
    requires lib.decode("img.PNG") == Some("img.PNG")
    ensures ParseTemplate(lib, documentTitle, tpl, url, 0, pageTitle) == "P_0001.png"
  {
    assert ParseTemplate(lib, documentTitle, tpl, url, 0, pageTitle) == "P_" + "0001" + "." + "png" by {
      assert tpl == "P_" + "{N0001}" + "." + "{EXT}" by { ExampleSpelling(); }
      assert Extension(lib, url) == "png" by { ExampleExtension(lib, url); }
      assert PadStart(Decimal(1), 4, '0') == "0001" by { ExamplePadding(); }
      assert '$' !in "png";
      ParseTemplateFields(lib, documentTitle, tpl, "P_", ".", url, 0, pageTitle, "0001", "png");
    }
    assert "P_" + "0001" + "." + "png" == "P_0001.png" by { ExampleSpelling(); }
  }
}
