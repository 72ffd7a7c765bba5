/**
 * Collecting image URLs from a page (`collectAll` in the content script, and the same code
 * injected by the background page's `collect`): the `srcset` rule of `pickFromImg`, the
 * background URLs, and `dedupe`, which keeps one item per file name and host in a `Map`.
 */
module Collect {
  import opened Wrappers
  import opened Strings
  import opened Naming

  datatype Source = FromImg | FromBackground

  /** `{ url, source }`. */
  datatype Item = Item(url: string, source: Source)

  // ---------------------------------------------------------------------------
  // pickFromImg

  /** The attributes `pickFromImg` reads; a missing `srcset` is "". */
  datatype ImgAttrs = ImgAttrs(srcset: string, currentSrc: string, src: string)

  /** `.map(s => s.trim())`. */
  function Trims(parts: seq<string>): (ts: seq<string>)
    ensures |ts| == |parts| && forall i :: 0 <= i < |parts| ==> ts[i] == Trim(parts[i])
  {
    seq(|parts|, i requires 0 <= i < |parts| => Trim(parts[i]))
  }

  /** `.filter(Boolean)` on strings. */
  function NonEmpty(ts: seq<string>): (cs: seq<string>)
    ensures |cs| <= |ts|
    ensures forall i :: 0 <= i < |cs| ==> cs[i] != ""
  {
    if ts == [] then []
    else
      var t := ts[|ts| - 1];
      NonEmpty(ts[..|ts| - 1]) + (if t == "" then [] else [t])
  }

  /** The `srcset` candidates: the trimmed comma-separated parts that are not blank. */
  function Candidates(parts: seq<string>): seq<string>
  {
    NonEmpty(Trims(parts))
  }

  /** `t.split(' ')[0]`: a prefix of `t` without a space, empty only when `t` starts with one. */
  function FirstToken(t: string): (token: string)
    ensures |token| <= |t| && token == t[..|token|] && ' ' !in token
    ensures t != [] && t[0] != ' ' ==> token != ""
  {
    SplitHead(t, ' ');
    Split(t, ' ')[0]
  }

  /**
   * `pickFromImg(img)`: `currentSrc || src || ''`, replaced by the first space-separated token
   * of the last non-blank `srcset` candidate when there is one; then made absolute.
   */
  function PickFromImg(absolutize: string -> string, img: ImgAttrs): (item: Item)
    ensures item.source == FromImg
  {
    var fallback := if img.currentSrc != "" then img.currentSrc else img.src;
    var best :=
      if img.srcset != "" then
        var parts := Candidates(Split(img.srcset, ','));
        if parts != [] then
          var token := FirstToken(Last(parts));
          if token != "" then token else fallback
        else fallback
      else fallback;
    Item(absolutize(best), FromImg)
  }

  /** The first piece of a split is the text before the first separator. */
  lemma {:induction false} SplitHead(s: string, c: char)
    ensures var h := Split(s, c)[0]; |h| <= |s| && h == s[..|h|]
    ensures |Split(s, c)| == 1 ==> Split(s, c)[0] == s
    ensures s != [] && s[0] != c ==> Split(s, c)[0] != ""
  {
    if s != [] {
      var n := |s| - 1;
      SplitHead(s[..n], c);
      var init := Split(s[..n], c);
      var x := s[n];
      if x == c {
        assert Split(s, c) == init + [""];
        assert s[..n][..|init[0]|] == s[..|init[0]|];
      } else if |init| == 1 {
        assert Split(s, c) == [init[0] + [x]];
        assert s == s[..n] + [x];
      } else {
        assert Split(s, c)[0] == init[0];
        assert s[..n][..|init[0]|] == s[..|init[0]|];
      }
    }
  }

  /** The last string kept is the last one that is not empty. */
  lemma {:induction false} LastNonEmpty(ts: seq<string>, j: nat)
    requires j < |ts| && ts[j] != ""
    requires forall j' :: j < j' < |ts| ==> ts[j'] == ""
    ensures NonEmpty(ts) != [] && Last(NonEmpty(ts)) == ts[j]
  {
    var n := |ts| - 1;
    if j < n {
      LastNonEmpty(ts[..n], j);
    }
  }

  /** Nothing is kept from strings that are all empty. */
  lemma {:induction false} NoneNonEmpty(ts: seq<string>)
    requires forall j :: 0 <= j < |ts| ==> ts[j] == ""
    ensures NonEmpty(ts) == []
  {
    if ts != [] {
      NoneNonEmpty(ts[..|ts| - 1]);
    }
  }

  /**
   * When `ts`, the trimmed comma-separated parts of `srcset`, has `j` as its last non-blank
   * entry, the URL is that entry's first token, which is a non-empty prefix without a space.
   */
  lemma PickFromSrcset(absolutize: string -> string, img: ImgAttrs, ts: seq<string>, j: nat)
    requires ts == Trims(Split(img.srcset, ','))
    requires j < |ts| && ts[j] != "" && forall j' :: j < j' < |ts| ==> ts[j'] == ""
    ensures var token := FirstToken(ts[j]);
      && token != "" && ' ' !in token && token == ts[j][..|token|]
      && PickFromImg(absolutize, img).url == absolutize(token)
  {
    LastNonEmpty(ts, j);
    var parts := Split(img.srcset, ',');
    TrimEnds(parts[j]);
    assert img.srcset != "";
    assert Candidates(parts) == NonEmpty(ts);
    assert !IsSpace(ts[j][0]);
  }

  /** With every part of `srcset` blank, the URL is `currentSrc || src`. */
  lemma PickFallback(absolutize: string -> string, img: ImgAttrs, ts: seq<string>)
    requires ts == Trims(Split(img.srcset, ','))
    requires forall j :: 0 <= j < |ts| ==> ts[j] == ""
    ensures PickFromImg(absolutize, img).url == absolutize(if img.currentSrc != "" then img.currentSrc else img.src)
  {
    NoneNonEmpty(ts);
  }

  // ---------------------------------------------------------------------------
  // dedupe

  /**
   * The key `dedupe` files an item under: `(pathname.split('/').pop() || pathname) + '|' + host`
   * when `new URL(url)` parses, `None` when it throws. The part before the '|' is the last
   * path segment, without '/', or the whole pathname when that segment is empty.
   */
  function UrlKey(lib: UrlLib): (key: string -> Option<string>)
    ensures forall url :: key(url).None? <==> lib.parse(url).None?
    ensures forall url :: lib.parse(url).Some? ==>
      var p, k := lib.parse(url).value, key(url).value;
      && |k| > |p.host| && k[|k| - |p.host| - 1..] == "|" + p.host
      && var name := k[..|k| - |p.host| - 1];
         name == p.pathname || (name != "" && '/' !in name)
  {
    (url: string) =>
      match lib.parse(url)
      case None => None
      case Some(p) =>
        var seg := Last(Split(p.pathname, '/'));
        Some((if seg == "" then p.pathname else seg) + "|" + p.host)
  }

  /** The `Map` key an item ends up under: the `catch` files it under its URL. */
  function KeyFor(key: string -> Option<string>, url: string): string
  {
    match key(url)
    case None => url
    case Some(k) => k
  }

  /** A `Map`: its keys in insertion order, and the value of each. */
  datatype Table = Table(keys: seq<string>, values: map<string, Item>)

  ghost predicate Distinct(keys: seq<string>)
  {
    forall i, j :: 0 <= i < j < |keys| ==> keys[i] != keys[j]
  }

  ghost predicate WellFormed(t: Table)
  {
    Distinct(t.keys) && (forall i :: 0 <= i < |t.keys| ==> t.keys[i] in t.values)
    && (forall k :: k in t.values ==> k in t.keys)
  }

  /** `map.set(k, v)`: a new key goes last, an old one keeps its place. */
  function SetKey(t: Table, k: string, v: Item): Table
  {
    Table(if k in t.values then t.keys else t.keys + [k], t.values[k := v])
  }

  /** One turn of `dedupe`'s loop. */
  function DedupeStep(key: string -> Option<string>, t: Table, item: Item): (r: Table)
    ensures item.url == "" ==> r == t
    ensures item.url != "" ==>
      r.keys == t.keys + (if KeyFor(key, item.url) in t.values then [] else [KeyFor(key, item.url)])
  {
    if item.url == "" then t
    else
      match key(item.url)
      case None => SetKey(t, item.url, item)
      case Some(k) =>
        if k !in t.values || |item.url| > |t.values[k].url| then SetKey(t, k, item) else t
  }

  /** The `Map` after the loop. */
  function DedupeTable(key: string -> Option<string>, items: seq<Item>): (t: Table)
    ensures |t.keys| <= |items| && forall i :: 0 <= i < |t.keys| ==> t.keys[i] in t.values
  {
    if items == [] then Table([], map[])
    else
      var t0 := DedupeTable(key, items[..|items| - 1]);
      var item := items[|items| - 1];
      DedupeStep(key, t0, item)
  }

  /** `Array.from(map.values())`. */
  function Values(t: Table): (vs: seq<Item>)
    requires forall i :: 0 <= i < |t.keys| ==> t.keys[i] in t.values
    ensures |vs| == |t.keys| && forall i :: 0 <= i < |vs| ==> vs[i] == t.values[t.keys[i]]
  {
    seq(|t.keys|, i requires 0 <= i < |t.keys| && t.keys[i] in t.values => t.values[t.keys[i]])
  }

  /** The keys of the items with a URL, in input order. */
  function KeySeq(key: string -> Option<string>, items: seq<Item>): seq<string>
  {
    if items == [] then []
    else
      var item := items[|items| - 1];
      KeySeq(key, items[..|items| - 1]) + (if item.url == "" then [] else [KeyFor(key, item.url)])
  }

  /** Each key once, where it first occurs. */
  function FirstOccurrences(xs: seq<string>): seq<string>
  {
    if xs == [] then []
    else
      var init := xs[..|xs| - 1];
      FirstOccurrences(init) + (if xs[|xs| - 1] in init then [] else [xs[|xs| - 1]])
  }

  lemma {:induction false} FirstOccurrencesIn(xs: seq<string>, k: string)
    ensures k in FirstOccurrences(xs) <==> k in xs
  {
    if xs != [] {
      FirstOccurrencesIn(xs[..|xs| - 1], k);
      assert xs == xs[..|xs| - 1] + [xs[|xs| - 1]];
    }
  }

  /** After one turn each value is the old one or the item, filed under the item's key. */
  lemma StepValues(key: string -> Option<string>, t0: Table, item: Item)
    ensures var t := DedupeStep(key, t0, item);
      forall k :: k in t.values ==>
        (k in t0.values && t.values[k] == t0.values[k]) || (t.values[k] == item && item.url != "" && KeyFor(key, item.url) == k)
  {
  }

  /**
   * After one turn every old key is still there, with a URL no shorter unless the `catch`
   * overwrote it, and the item's key is there with a URL at least as long as the item's.
   */
  lemma StepCovers(key: string -> Option<string>, t0: Table, item: Item)
    ensures var t := DedupeStep(key, t0, item);
      && (forall k :: k in t0.values ==> k in t.values)
      && (forall k :: k in t0.values && !(item.url == k && key(k).None?) ==> |t0.values[k].url| <= |t.values[k].url|)
      && (item.url != "" ==> KeyFor(key, item.url) in t.values && |item.url| <= |t.values[KeyFor(key, item.url)].url|)
  {
  }

  /**
   * The output order is the order in which the keys first occur: `map.set` on a key already
   * present keeps its position.
   */
  lemma {:induction false} DedupeOrder(key: string -> Option<string>, items: seq<Item>)
    ensures DedupeTable(key, items).keys == FirstOccurrences(KeySeq(key, items))
  {
    if items != [] {
      var n := |items| - 1;
      DedupeOrder(key, items[..n]);
      DedupeWellFormed(key, items[..n]);
      var t0 := DedupeTable(key, items[..n]);
      var ks := KeySeq(key, items[..n]);
      assert DedupeTable(key, items) == DedupeStep(key, t0, items[n]);
      var ks' := KeySeq(key, items);
      if items[n].url != "" {
        var k := KeyFor(key, items[n].url);
        FirstOccurrencesIn(ks, k);
        assert k in t0.values <==> k in ks;
        assert ks' == ks + [k];
        assert ks'[..|ks'| - 1] == ks;
        assert FirstOccurrences(ks') == FirstOccurrences(ks) + (if k in ks then [] else [k]);
      } else {
        assert ks' == ks;
      }
    }
  }

  /** The `Map` holds each of its keys once, and every key it holds is in its order. */
  lemma {:induction false} DedupeWellFormed(key: string -> Option<string>, items: seq<Item>)
    ensures WellFormed(DedupeTable(key, items))
  {
    if items != [] {
      DedupeWellFormed(key, items[..|items| - 1]);
    }
  }

  /** `v` is an item of `items` with a URL, filed under its own key `k`. */
  ghost predicate From(key: string -> Option<string>, items: seq<Item>, k: string, v: Item)
  {
    v in items && v.url != "" && KeyFor(key, v.url) == k
  }

  /** Every value is an input item with a URL, filed under its own key. */
  lemma {:induction false} DedupeFrom(key: string -> Option<string>, items: seq<Item>)
    ensures forall k :: k in DedupeTable(key, items).values ==> From(key, items, k, DedupeTable(key, items).values[k])
  {
    if items != [] {
      var n := |items| - 1;
      DedupeFrom(key, items[..n]);
      var t0 := DedupeTable(key, items[..n]);
      assert DedupeTable(key, items) == DedupeStep(key, t0, items[n]);
      StepValues(key, t0, items[n]);
      var t := DedupeTable(key, items);
      forall k | k in t.values
        ensures From(key, items, k, t.values[k])
      {
        if k in t0.values && t.values[k] == t0.values[k] {
          var v := t0.values[k];
          assert From(key, items[..n], k, v);
          var i :| 0 <= i < n && items[..n][i] == v;
          assert items[i] == v;
        } else {
          assert t.values[k] == items[n];
        }
      }
    }
  }

  /** Every item with a URL in a group whose URLs all parse has its key present, with a URL at least as long. */
  lemma {:induction false} DedupeCovers(key: string -> Option<string>, items: seq<Item>, k: string)
    requires forall j :: 0 <= j < |items| && items[j].url != "" && KeyFor(key, items[j].url) == k ==> key(items[j].url).Some?
    ensures var t := DedupeTable(key, items);
      forall i :: 0 <= i < |items| && items[i].url != "" && KeyFor(key, items[i].url) == k ==>
        k in t.values && |items[i].url| <= |t.values[k].url|
  {
    if items != [] {
      var n := |items| - 1;
      assert forall j :: 0 <= j < n ==> items[..n][j] == items[j];
      DedupeCovers(key, items[..n], k);
      var t0 := DedupeTable(key, items[..n]);
      assert DedupeTable(key, items) == DedupeStep(key, t0, items[n]);
      StepCovers(key, t0, items[n]);
      assert items[n].url == k && key(k).None? ==> KeyFor(key, items[n].url) == k;
    }
  }

  /** No item of group `k` has a longer URL than `v`, and none before position `i` one as long. */
  ghost predicate Longest(key: string -> Option<string>, items: seq<Item>, k: string, v: Item, i: nat)
  {
    forall j :: 0 <= j < |items| && items[j].url != "" && KeyFor(key, items[j].url) == k ==>
      |items[j].url| <= |v.url| && (j < i ==> |items[j].url| < |v.url|)
  }

  /**
   * Within a key whose URLs all parse, the item kept is the earliest of the longest: a later
   * item replaces it only when its URL is strictly longer.
   */
  lemma {:induction false} DedupeEarliestLongest(key: string -> Option<string>, items: seq<Item>, k: string)
    requires forall j :: 0 <= j < |items| && items[j].url != "" && KeyFor(key, items[j].url) == k ==> key(items[j].url).Some?
    requires k in DedupeTable(key, items).values
    ensures exists i ::
      0 <= i < |items| && items[i] == DedupeTable(key, items).values[k] && Longest(key, items, k, DedupeTable(key, items).values[k], i)
  {
    var n := |items| - 1;
    var t0 := DedupeTable(key, items[..n]);
    var t := DedupeTable(key, items);
    assert t == DedupeStep(key, t0, items[n]);
    var v := t.values[k];
    var last := items[n];
    assert forall j :: 0 <= j < n ==> items[..n][j] == items[j];
    DedupeCovers(key, items[..n], k);
    if last.url != "" && KeyFor(key, last.url) == k && (k !in t0.values || |last.url| > |t0.values[k].url|) {
      assert v == last;
      assert Longest(key, items, k, v, n);
    } else {
      assert k in t0.values && v == t0.values[k];
      DedupeEarliestLongest(key, items[..n], k);
      var i :| 0 <= i < n && items[..n][i] == v && Longest(key, items[..n], k, v, i);
      assert items[i] == v;
      assert Longest(key, items, k, v, i) by {
        forall j | 0 <= j < |items| && items[j].url != "" && KeyFor(key, items[j].url) == k
          ensures |items[j].url| <= |v.url| && (j < i ==> |items[j].url| < |v.url|)
        {
          if j < n {
            assert items[..n][j] == items[j];
          }
        }
      }
    }
  }

  /** The result of `dedupe(items)`. */
  function DedupeSpec(key: string -> Option<string>, items: seq<Item>): seq<Item>
  {
    Values(DedupeTable(key, items))
  }

  /** At most one item per key in the output, no empty URL, each one from the input, no more than came in. */
  lemma DedupeOutput(key: string -> Option<string>, items: seq<Item>)
    ensures var out := DedupeSpec(key, items);
      && |out| <= |items|
      && (forall i :: 0 <= i < |out| ==> out[i] in items && out[i].url != "")
      && (forall i, j :: 0 <= i < j < |out| ==> KeyFor(key, out[i].url) != KeyFor(key, out[j].url))
  {
    DedupeWellFormed(key, items);
    DedupeFrom(key, items);
    var t := DedupeTable(key, items);
    var out := Values(t);
    forall i | 0 <= i < |out|
      ensures out[i] in items && out[i].url != "" && KeyFor(key, out[i].url) == t.keys[i]
    {
      assert out[i] == t.values[t.keys[i]];
      assert From(key, items, t.keys[i], out[i]);
    }
  }

  /** The table after one more item is one more step of the loop. */
  lemma DedupeTableSnoc(key: string -> Option<string>, items: seq<Item>, i: nat)
    requires i < |items|
    ensures DedupeTable(key, items[..i + 1]) == DedupeStep(key, DedupeTable(key, items[..i]), items[i])
  {
    assert items[..i + 1][..i] == items[..i];
  }

  /** `dedupe(items)`: the `Map` updated in place by the loop, then its values in order. */
  method Dedupe(lib: UrlLib, items: seq<Item>) returns (out: seq<Item>)
    ensures out == DedupeSpec(UrlKey(lib), items)
  {
    var key := UrlKey(lib);
    var keys: seq<string> := [];
    var m: map<string, Item> := map[];
    var i := 0;
    while i < |items|
      invariant 0 <= i <= |items|
      invariant Table(keys, m) == DedupeTable(key, items[..i])
    {
      ghost var t0 := Table(keys, m);
      var item := items[i];
      if item.url != "" {
        var parsed := key(item.url);
        if parsed.None? {
          if item.url !in m {
            keys := keys + [item.url];
          }
          m := m[item.url := item];
        } else {
          var k := parsed.value;
          if k !in m || |item.url| > |m[k].url| {
            if k !in m {
              keys := keys + [k];
            }
            m := m[k := item];
          }
        }
      }
      assert Table(keys, m) == DedupeStep(key, t0, item);
      DedupeTableSnoc(key, items, i);
      i := i + 1;
    }
    assert items[..i] == items;
    out := MapValues(keys, m);
  }

  /** `Array.from(map.values())`: the values in the order their keys were first set. */
  method MapValues(keys: seq<string>, m: map<string, Item>) returns (out: seq<Item>)
    requires forall i :: 0 <= i < |keys| ==> keys[i] in m
    ensures out == Values(Table(keys, m))
  {
    out := [];
    var j := 0;
    while j < |keys|
      invariant 0 <= j <= |keys|
      invariant out == Values(Table(keys, m))[..j]
    {
      out := out + [m[keys[j]]];
      j := j + 1;
    }
  }

  // ---------------------------------------------------------------------------
  // collectAll, collect

  /** The items `collectAll` pushes: picks from `img` elements, then background URLs, each only with a URL. */
  function Gathered(absolutize: string -> string, imgs: seq<ImgAttrs>, bgUrls: seq<string>): (items: seq<Item>)
    ensures forall i :: 0 <= i < |items| ==> items[i].url != ""
  {
    ImgItems(absolutize, imgs) + BgItems(bgUrls)
  }

  function ImgItems(absolutize: string -> string, imgs: seq<ImgAttrs>): (items: seq<Item>)
    ensures forall i :: 0 <= i < |items| ==> items[i].url != "" && items[i].source == FromImg
  {
    if imgs == [] then []
    else
      var r := PickFromImg(absolutize, imgs[|imgs| - 1]);
      ImgItems(absolutize, imgs[..|imgs| - 1]) + (if r.url != "" then [r] else [])
  }

  function BgItems(bgUrls: seq<string>): (items: seq<Item>)
    ensures forall i :: 0 <= i < |items| ==> items[i].url != "" && items[i].source == FromBackground
  {
    if bgUrls == [] then []
    else
      var u := bgUrls[|bgUrls| - 1];
      BgItems(bgUrls[..|bgUrls| - 1]) + (if u != "" then [Item(u, FromBackground)] else [])
  }

  function Urls(items: seq<Item>): (us: seq<string>)
    ensures |us| == |items| && forall i :: 0 <= i < |items| ==> us[i] == items[i].url
  {
    seq(|items|, i requires 0 <= i < |items| => items[i].url)
  }

  /** Every image item comes before every background item among those gathered. */
  lemma GatheredOrder(absolutize: string -> string, imgs: seq<ImgAttrs>, bgUrls: seq<string>)
    ensures var items := Gathered(absolutize, imgs, bgUrls);
      forall i, j :: 0 <= i < j < |items| && items[j].source == FromImg ==> items[i].source == FromImg
  {
    var a, b := ImgItems(absolutize, imgs), BgItems(bgUrls);
    var items := a + b;
    forall i, j | 0 <= i < j < |items| && items[j].source == FromImg
      ensures items[i].source == FromImg
    {
    }
  }

  /**
   * `collectAll()` with the `img` attributes and, per element, the URL `pickFromBg` extracted
   * ("" for none): the URLs of the de-duplicated items.
   */
  method CollectAll(lib: UrlLib, absolutize: string -> string, imgs: seq<ImgAttrs>, bgUrls: seq<string>)
    returns (urls: seq<string>)
    ensures urls == Urls(DedupeSpec(UrlKey(lib), Gathered(absolutize, imgs, bgUrls)))
    ensures forall i :: 0 <= i < |urls| ==> urls[i] != ""
  {
    var items := PushImgs(absolutize, imgs);
    items := PushBackgrounds(items, bgUrls);
    var out := Dedupe(lib, items);
    DedupeOutput(UrlKey(lib), items);
    urls := Urls(out);
  }

  /** The first loop of `collectAll`: one item per `img` whose pick has a URL. */
  method PushImgs(absolutize: string -> string, imgs: seq<ImgAttrs>) returns (items: seq<Item>)
    ensures items == ImgItems(absolutize, imgs)
  {
    items := [];
    var i := 0;
    while i < |imgs|
      invariant 0 <= i <= |imgs|
      invariant items == ImgItems(absolutize, imgs[..i])
    {
      assert imgs[..i + 1][..i] == imgs[..i];
      var result := PickFromImg(absolutize, imgs[i]);
      if result.url != "" {
        items := items + [result];
      }
      i := i + 1;
    }
    assert imgs[..i] == imgs;
  }

  /** The second loop of `collectAll`: one item per background URL that is not empty, after `items0`. */
  method PushBackgrounds(items0: seq<Item>, bgUrls: seq<string>) returns (items: seq<Item>)
    ensures items == items0 + BgItems(bgUrls)
  {
    items := items0;
    var j := 0;
    while j < |bgUrls|
      invariant 0 <= j <= |bgUrls|
      invariant items == items0 + BgItems(bgUrls[..j])
    {
      assert bgUrls[..j + 1][..j] == bgUrls[..j];
      if bgUrls[j] != "" {
        items := items + [Item(bgUrls[j], FromBackground)];
      }
      j := j + 1;
    }
    assert bgUrls[..j] == bgUrls;
  }

  /**
   * How `chrome.scripting.executeScript` came back: it threw; it resolved without an injection
   * result, so `result` is `undefined` and not an array; or the injected function ran in the
   * tab and its return value came back.
   */
  datatype ScriptRun = Threw | NoResult | Ran

  /**
   * `collect(tabId)`: `executeScript` runs `collectAll` in the tab, and the array it returns is
   * what the popup gets; `Array.isArray(result) ? result : []` and the `catch` give [] otherwise.
   */
  method CollectFromTab(lib: UrlLib, absolutize: string -> string, imgs: seq<ImgAttrs>, bgUrls: seq<string>,
                        run: ScriptRun)
    returns (images: seq<string>)
    ensures !run.Ran? ==> images == []
    ensures run.Ran? ==> images == Urls(DedupeSpec(UrlKey(lib), Gathered(absolutize, imgs, bgUrls)))
    ensures forall i :: 0 <= i < |images| ==> images[i] != ""
  {
    var result: Option<seq<string>> := None;
    if run.Ran? {
      var urls := CollectAll(lib, absolutize, imgs, bgUrls);
      result := Some(urls);
    }
    images := if result.Some? then result.value else [];
  }

  // ---------------------------------------------------------------------------
  // The storage key

  /** `images_${tabId}`, as `openOutput` writes it. */
  function StorageKey(tabId: nat): (key: string)
    ensures |key| >= 8 && key[..7] == "images_"
    ensures forall i :: 7 <= i < |key| ==> IsDigit(key[i])
  {
    "images_" + Decimal(tabId)
  }

  /** The key the output page reads, from the `tab` parameter of its URL, when that is a string of digits. */
  function OutputKey(tabParam: string): string
    requires forall i :: 0 <= i < |tabParam| ==> IsDigit(tabParam[i])
  {
    StorageKey(DigitsValue(tabParam))
  }

  /** The output page opened as `output.html#tab=${tabId}` reads the key the background page wrote. */
  lemma OutputReadsWrittenKey(tabId: nat)
    ensures OutputKey(Decimal(tabId)) == StorageKey(tabId)
  {
    DecimalValue(tabId);
  }

  /** Different tabs use different keys. */
  lemma StorageKeyInjective(a: nat, b: nat)
    requires StorageKey(a) == StorageKey(b)
    ensures a == b
  {
    assert Decimal(a) == StorageKey(a)[7..];
    assert Decimal(b) == StorageKey(b)[7..];
    DecimalInjective(a, b);
  }
}
