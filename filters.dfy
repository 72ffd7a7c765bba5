/**
 * The output page's card filter (`applyFilters`), the select-all and invert buttons, and the
 * drag-selection rectangle test (`overlap`).
 */
module Filters {
  import opened Strings
  import opened Naming

  // ---------------------------------------------------------------------------
  // One card

  /** What the page keeps per image: `src`, the lowercased `ext`, `hostname`, and the loaded size. */
  datatype ImageInfo = ImageInfo(src: string, ext: string, domain: string, width: int, height: int, loaded: bool)

  /** The `ext` `render` records: the lowercased text after the last '.', or "" (no 'jpg' fallback here). */
  function CardExt(lib: UrlLib, src: string): (ext: string)
    ensures '.' !in ext && ToLower(ext) == ext
  {
    ToLowerIdempotent(Last(Split(FileNameFromUrl(lib, src), '.')));
    ToLower(Last(Split(FileNameFromUrl(lib, src), '.')))
  }

  /** The extension `parseTemplate` uses is the card's, with 'jpg' for the empty one. */
  lemma CardExtAndExtension(lib: UrlLib, src: string)
    ensures Extension(lib, src) == if CardExt(lib, src) == "" then "jpg" else CardExt(lib, src)
  {
  }

  /**
   * The filter inputs as typed: keyword, comma-separated formats, minimum width and height
   * (after `parseInt(...) || 0`), quality band, source kind and domain.
   */
  datatype Filters = Filters(keyword: string, format: string, minWidth: int, minHeight: int,
                             quality: string, source: string, domain: string)

  const Blank := Filters("", "", 0, 0, "", "", "")

  function MaxDimension(img: ImageInfo): int
  {
    if img.width >= img.height then img.width else img.height
  }

  /** The `switch (quality)`: an unknown band leaves `matches` as it is. */
  function QualityStep(quality: string, maxDimension: int, matches: bool): bool
  {
    if quality == "high" then matches && maxDimension >= 1000
    else if quality == "medium" then matches && maxDimension >= 500 && maxDimension < 1000
    else if quality == "low" then matches && maxDimension < 500
    else matches
  }

  /** The URL-based guess at where the image came from, and the `switch (source)`. */
  function SourceStep(source: string, src: string, matches: bool): bool
  {
    var isImg := Includes(src, "img") || Includes(src, "image");
    var isBackground := Includes(src, "background") || Includes(src, "bg");
    if source == "img" then matches && isImg
    else if source == "background" then matches && isBackground
    else matches
  }

  /**
   * The per-card rule of `applyFilters`, step by step as the code updates `matches`: each step
   * runs only while the card still matches, and an image that has not loaded is let through
   * the size and the quality steps. A card matches exactly when it passes every filter that is
   * set, the size and quality filters binding only images that have loaded.
   */
  function Matches(lib: UrlLib, f: Filters, img: ImageInfo): (r: bool)
    ensures r <==>
      && KeywordOk(lib, f, img) && FormatOk(f, img)
      && (img.loaded && (f.minWidth > 0 || f.minHeight > 0) ==> SizeOk(f, img))
      && (img.loaded && f.quality != "" ==> QualityOk(f, img))
      && SourceOk(f, img) && DomainOk(f, img)
  {
    assert ToLower("") == "";
    var kw := ToLower(f.keyword);
    var m1 := kw == "" || Includes(ToLower(img.src), kw) || Includes(ToLower(FileNameFromUrl(lib, img.src)), kw);
    var m2 := if f.format != "" && m1 then m1 && img.ext in Split(f.format, ',') else m1;
    var m3 := if m2 && (f.minWidth > 0 || f.minHeight > 0) then
                (if img.loaded then m2 && img.width >= f.minWidth && img.height >= f.minHeight else true)
              else m2;
    var m4 := if m3 && f.quality != "" then
                (if img.loaded then QualityStep(f.quality, MaxDimension(img), m3) else true)
              else m3;
    var m5 := if m4 && f.source != "" then SourceStep(f.source, img.src, m4) else m4;
    var m6 := if m5 && f.domain != "" then m5 && Includes(ToLower(img.domain), ToLower(f.domain)) else m5;
    m6
  }

  // The same rule stated filter by filter.

  predicate KeywordOk(lib: UrlLib, f: Filters, img: ImageInfo)
  {
    var kw := ToLower(f.keyword);
    kw == "" || Includes(ToLower(img.src), kw) || Includes(ToLower(FileNameFromUrl(lib, img.src)), kw)
  }

  predicate FormatOk(f: Filters, img: ImageInfo)
  {
    f.format == "" || img.ext in Split(f.format, ',')
  }

  predicate SizeOk(f: Filters, img: ImageInfo)
  {
    img.width >= f.minWidth && img.height >= f.minHeight
  }

  predicate QualityOk(f: Filters, img: ImageInfo)
  {
    QualityStep(f.quality, MaxDimension(img), true)
  }

  predicate SourceOk(f: Filters, img: ImageInfo)
  {
    SourceStep(f.source, img.src, true)
  }

  predicate DomainOk(f: Filters, img: ImageInfo)
  {
    f.domain == "" || Includes(ToLower(img.domain), ToLower(f.domain))
  }

  /** With every filter blank every card matches. */
  lemma BlankMatchesAll(lib: UrlLib, img: ImageInfo)
    ensures Matches(lib, Blank, img)
  {
    assert ToLower("") == "";
  }

  /** An image that has not loaded is judged as if no size or quality were asked for. */
  lemma UnloadedIgnoresSize(lib: UrlLib, f: Filters, img: ImageInfo)
    requires !img.loaded
    ensures Matches(lib, f, img) == Matches(lib, f.(minWidth := 0, minHeight := 0, quality := ""), img)
  {
  }

  /** A loaded image falls in exactly one quality band. */
  lemma QualityBands(img: ImageInfo)
    ensures var m := MaxDimension(img);
      && (QualityOk(Blank.(quality := "high"), img) <==> m >= 1000)
      && (QualityOk(Blank.(quality := "medium"), img) <==> 500 <= m < 1000)
      && (QualityOk(Blank.(quality := "low"), img) <==> m < 500)
    ensures (if QualityOk(Blank.(quality := "high"), img) then 1 else 0)
          + (if QualityOk(Blank.(quality := "medium"), img) then 1 else 0)
          + (if QualityOk(Blank.(quality := "low"), img) then 1 else 0) == 1
  {
  }

  // ---------------------------------------------------------------------------
  // All cards

  /**
   * `Matches` for fixed filter inputs, as a value: the loops below are stated for any rule, so
   * that their proofs need not look inside it.
   */
  function CardRule(lib: UrlLib, f: Filters): ImageInfo -> bool
  {
    (img: ImageInfo) => Matches(lib, f, img)
  }

  /** The cards whose `data-index` names an image and which pass `rule`. */
  function CountMatching(rule: ImageInfo -> bool, cards: seq<nat>, data: seq<ImageInfo>): (n: nat)
    ensures n <= |cards|
  {
    if cards == [] then 0
    else
      var c := cards[|cards| - 1];
      CountMatching(rule, cards[..|cards| - 1], data) + (if c < |data| && rule(data[c]) then 1 else 0)
  }

  function CountTrue(bs: seq<bool>): (n: nat)
    ensures n <= |bs|
  {
    if bs == [] then 0 else CountTrue(bs[..|bs| - 1]) + (if bs[|bs| - 1] then 1 else 0)
  }

  /** The cards shown whose checkbox is ticked. */
  function CountBoth(shown: seq<bool>, checked: seq<bool>): (n: nat)
    requires |shown| == |checked|
    ensures n <= CountTrue(shown)
  {
    if shown == [] then 0
    else
      var k := |shown| - 1;
      CountBoth(shown[..k], checked[..k]) + (if shown[k] && checked[k] then 1 else 0)
  }

  /**
   * `applyFilters()`: shows exactly the matching cards (a card whose `data-index` names no image
   * keeps its display), counts them in `visibleCount`, and then counts the shown cards whose
   * checkbox is ticked.
   */
  method ApplyFilters(lib: UrlLib, f: Filters, cards: seq<nat>, data: seq<ImageInfo>, shown: array<bool>, checked: seq<bool>)
    returns (visibleCount: nat, selectedVisible: nat)
    requires shown.Length == |cards| == |checked|
    modifies shown
    ensures forall i :: 0 <= i < |cards| ==>
      shown[i] == if cards[i] < |data| then Matches(lib, f, data[cards[i]]) else old(shown[i])
    ensures visibleCount == CountMatching(CardRule(lib, f), cards, data)
    ensures (forall i :: 0 <= i < |cards| ==> cards[i] < |data|) ==> visibleCount == CountTrue(shown[..])
    ensures selectedVisible == CountBoth(shown[..], checked)
  {
    visibleCount := ShowMatching(CardRule(lib, f), cards, data, shown);
    selectedVisible := CountSelectedVisible(shown[..], checked);
  }

  /** The `cards.forEach` pass of `applyFilters` for a given rule. */
  method ShowMatching(rule: ImageInfo -> bool, cards: seq<nat>, data: seq<ImageInfo>, shown: array<bool>)
    returns (visibleCount: nat)
    requires shown.Length == |cards|
    modifies shown
    ensures forall i :: 0 <= i < |cards| ==>
      shown[i] == if cards[i] < |data| then rule(data[cards[i]]) else old(shown[i])
    ensures visibleCount == CountMatching(rule, cards, data)
    ensures (forall i :: 0 <= i < |cards| ==> cards[i] < |data|) ==> visibleCount == CountTrue(shown[..])
  {
    visibleCount := 0;
    var i := 0;
    while i < |cards|
      invariant 0 <= i <= |cards|
      invariant forall j :: 0 <= j < i ==>
        shown[j] == if cards[j] < |data| then rule(data[cards[j]]) else old(shown[j])
      invariant forall j :: i <= j < |cards| ==> shown[j] == old(shown[j])
      invariant visibleCount == CountMatching(rule, cards[..i], data)
    {
      assert cards[..i + 1][..i] == cards[..i];
      if cards[i] < |data| {
        var matches := rule(data[cards[i]]);
        shown[i] := matches;
        if matches {
          visibleCount := visibleCount + 1;
        }
      }
      i := i + 1;
    }
    assert cards[..i] == cards;
    if forall j :: 0 <= j < |cards| ==> cards[j] < |data| {
      CountMatchingShown(rule, cards, data, shown[..]);
    }
  }

  /** When every card names an image, the cards counted are the cards shown. */
  lemma {:induction false} CountMatchingShown(rule: ImageInfo -> bool, cards: seq<nat>, data: seq<ImageInfo>, shown: seq<bool>)
    requires |shown| == |cards|
    requires forall j :: 0 <= j < |cards| ==> cards[j] < |data| && shown[j] == rule(data[cards[j]])
    ensures CountMatching(rule, cards, data) == CountTrue(shown)
  {
    if cards != [] {
      var k := |cards| - 1;
      CountMatchingShown(rule, cards[..k], data, shown[..k]);
    }
  }

  /** `Array.from(cards).filter(card => shown and checked).length`. */
  method CountSelectedVisible(shown: seq<bool>, checked: seq<bool>) returns (n: nat)
    requires |shown| == |checked|
    ensures n == CountBoth(shown, checked)
  {
    n := 0;
    var i := 0;
    while i < |shown|
      invariant 0 <= i <= |shown|
      invariant n == CountBoth(shown[..i], checked[..i])
    {
      assert shown[..i + 1][..i] == shown[..i] && checked[..i + 1][..i] == checked[..i];
      if shown[i] && checked[i] {
        n := n + 1;
      }
      i := i + 1;
    }
    assert shown[..i] == shown && checked[..i] == checked;
  }

  // ---------------------------------------------------------------------------
  // Select all, invert

  predicate AllTrue(bs: seq<bool>)
  {
    forall i :: 0 <= i < |bs| ==> bs[i]
  }

  /** "Select all": every box takes the opposite of `checkboxes.every(cb => cb.checked)`. */
  function SelectAllOf(bs: seq<bool>): (r: seq<bool>)
    ensures |r| == |bs|
  {
    seq(|bs|, _ => !AllTrue(bs))
  }

  /** "Invert": every box flips. */
  function InvertOf(bs: seq<bool>): (r: seq<bool>)
    ensures |r| == |bs|
  {
    seq(|bs|, i requires 0 <= i < |bs| => !bs[i])
  }

  /** Select all checks every box unless all were checked, and then clears them all. */
  lemma SelectAllMeaning(bs: seq<bool>)
    requires bs != []
    ensures AllTrue(SelectAllOf(bs)) <==> !AllTrue(bs)
    ensures !AllTrue(SelectAllOf(bs)) ==> forall i :: 0 <= i < |bs| ==> !SelectAllOf(bs)[i]
  {
    assert SelectAllOf(bs)[0] == !AllTrue(bs);
  }

  /** Pressing select all twice leaves every box checked exactly when all were checked before. */
  lemma SelectAllTwice(bs: seq<bool>)
    ensures SelectAllOf(SelectAllOf(bs)) == seq(|bs|, _ => AllTrue(bs))
  {
    if bs != [] {
      SelectAllMeaning(bs);
      assert SelectAllOf(bs)[0] == !AllTrue(bs);
    }
  }

  /** Inverting twice restores the selection. */
  lemma InvertTwice(bs: seq<bool>)
    ensures InvertOf(InvertOf(bs)) == bs
  {
  }

  /** Inverting changes the number of checked boxes from `n` to `|bs| - n`. */
  lemma {:induction false} InvertCount(bs: seq<bool>)
    ensures CountTrue(InvertOf(bs)) == |bs| - CountTrue(bs)
  {
    if bs != [] {
      var k := |bs| - 1;
      InvertCount(bs[..k]);
      assert InvertOf(bs)[..k] == InvertOf(bs[..k]);
    }
  }

  /** The select-all handler: one pass for `every`, one to set each box. */
  method SelectAll(checked: array<bool>) returns (allChecked: bool)
    modifies checked
    ensures allChecked == AllTrue(old(checked[..]))
    ensures checked[..] == SelectAllOf(old(checked[..]))
  {
    allChecked := true;
    var i := 0;
    while i < checked.Length
      invariant 0 <= i <= checked.Length
      invariant allChecked == AllTrue(checked[..i])
    {
      allChecked := allChecked && checked[i];
      i := i + 1;
    }
    assert checked[..i] == checked[..];
    ghost var before := checked[..];
    i := 0;
    while i < checked.Length
      invariant 0 <= i <= checked.Length
      invariant forall j :: 0 <= j < i ==> checked[j] == !allChecked
    {
      checked[i] := !allChecked;
      i := i + 1;
    }
    assert checked[..] == SelectAllOf(before);
  }

  /** The invert handler. */
  method Invert(checked: array<bool>)
    modifies checked
    ensures checked[..] == InvertOf(old(checked[..]))
  {
    var i := 0;
    while i < checked.Length
      invariant 0 <= i <= checked.Length
      invariant forall j :: 0 <= j < i ==> checked[j] == !old(checked[j])
      invariant forall j :: i <= j < checked.Length ==> checked[j] == old(checked[j])
    {
      checked[i] := !checked[i];
      i := i + 1;
    }
  }

  // ---------------------------------------------------------------------------
  // Drag selection

  /** A page rectangle (whole pixels). */
  datatype Box = Box(left: int, top: int, right: int, bottom: int)

  /** The rectangle two boxes have in common, empty when they are apart. */
  function Intersection(a: Box, b: Box): Box
  {
    Box(if a.left < b.left then b.left else a.left, if a.top < b.top then b.top else a.top,
        if a.right < b.right then a.right else b.right, if a.bottom < b.bottom then a.bottom else b.bottom)
  }

  /** One box lies wholly to the left of, right of, above or below the other; shared edges count as apart. */
  predicate Separated(a: Box, b: Box)
  {
    b.right <= a.left || a.right <= b.left || b.bottom <= a.top || a.bottom <= b.top
  }

  /**
   * `overlap(a, b)`: the boxes overlap exactly when no side separates them; between boxes of
   * some size, exactly when what they have in common has some width and height.
   */
  function Overlap(a: Box, b: Box): (r: bool)
    ensures r <==> !Separated(a, b)
    ensures Proper(a) && Proper(b) ==> (r <==> Proper(Intersection(a, b)))
  {
    a.left < b.right && a.right > b.left && a.top < b.bottom && a.bottom > b.top
  }

  predicate Upright(a: Box)
  {
    a.left <= a.right && a.top <= a.bottom
  }

  /** Upright with some width and height. */
  predicate Proper(a: Box)
  {
    a.left < a.right && a.top < a.bottom
  }

  /** The pixel `(x, y)` lies in `a`, right and bottom edges excluded. */
  predicate Covers(a: Box, x: int, y: int)
  {
    a.left <= x < a.right && a.top <= y < a.bottom
  }

  /** The `mousemove` box: the corners sorted with `Math.min`/`Math.max`. */
  function DragBox(x0: int, y0: int, x1: int, y1: int): (b: Box)
    ensures Upright(b)
    ensures b.left == x0 || b.left == x1
    ensures b.right == x0 || b.right == x1
    ensures b.top == y0 || b.top == y1
    ensures b.bottom == y0 || b.bottom == y1
  {
    Box(if x0 <= x1 then x0 else x1, if y0 <= y1 then y0 else y1,
        if x0 <= x1 then x1 else x0, if y0 <= y1 then y1 else y0)
  }

  lemma OverlapSymmetric(a: Box, b: Box)
    ensures Overlap(a, b) == Overlap(b, a)
  {
  }

  /** Two boxes of some size overlap exactly when some pixel lies in both. */
  lemma OverlapMeaning(a: Box, b: Box)
    requires Proper(a) && Proper(b)
    ensures Overlap(a, b) <==> exists x, y :: Covers(a, x, y) && Covers(b, x, y)
  {
    if Overlap(a, b) {
      var x := if a.left >= b.left then a.left else b.left;
      var y := if a.top >= b.top then a.top else b.top;
      assert Covers(a, x, y) && Covers(b, x, y);
    }
  }

  /**
   * A drag that has not moved gives a box of no size, which still overlaps every box that has
   * the point strictly inside: it covers no pixel, yet it can select a card.
   */
  lemma PointBoxOverlap(x: int, y: int, b: Box)
    ensures Overlap(DragBox(x, y, x, y), b) <==> b.left < x < b.right && b.top < y < b.bottom
    ensures !exists px, py :: Covers(DragBox(x, y, x, y), px, py)
  {
  }

  /** The `mousemove` pass: each shown card's box is ticked exactly when it meets the drag box. */
  method DragSelect(box: Box, shown: seq<bool>, rects: seq<Box>, checked: array<bool>)
    requires |shown| == |rects| == checked.Length
    modifies checked
    ensures forall i :: 0 <= i < checked.Length ==>
      checked[i] == if shown[i] then Overlap(box, rects[i]) else old(checked[i])
  {
    var i := 0;
    while i < checked.Length
      invariant 0 <= i <= checked.Length
      invariant forall j :: 0 <= j < i ==> checked[j] == if shown[j] then Overlap(box, rects[j]) else old(checked[j])
      invariant forall j :: i <= j < checked.Length ==> checked[j] == old(checked[j])
    {
      if shown[i] {
        checked[i] := Overlap(box, rects[i]);
      }
      i := i + 1;
    }
  }
}
