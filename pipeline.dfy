/**
 * `downloadAsZip`: one URL at a time, each fetched through the background page and, when the
 * fetch gives bytes, added to a `MiniZipWriter` under the name its position gives it; then the
 * archive is finalised and saved under the page title. When saving throws, every URL is
 * downloaded on its own with `downloadMany` instead.
 */
module Pipeline {
  import opened Wrappers
  import opened Bytes
  import opened DosTime
  import opened Zip
  import opened ZipLayout
  import opened ZipWriting
  import opened Naming
  import opened Dispatcher

  /**
   * What the zip path cannot see: `TextEncoder`, `fetchArrayBuffer` (`None` for a failed fetch),
   * the clock reading `addFile` takes for the file of URL `k`, and whether the download call
   * that saves the archive resolves.
   */
  datatype ZipEnv = ZipEnv(encode: string -> seq<Byte>, fetch: string -> Option<seq<Byte>>,
                           clock: nat -> DateParts, zipSaved: bool)

  /** The archive was saved under `fileName`, or saving threw and `downloadMany` ran instead. */
  datatype ZipOutcome =
    | Saved(fileName: string, blob: seq<Byte>)
    | FellBack(attempts: seq<Attempt>, pauses: seq<Pause>, releases: seq<Release>)

  /** The characters the title loses to `_` in the archive's file name. */
  predicate Unsafe(c: char)
  {
    c in ['/', '\\', ':', '*', '?', '"', '<', '>', '|']
  }

  function SafeChar(c: char): (d: char)
    ensures !Unsafe(d)
    ensures !Unsafe(c) ==> d == c
  {
    if Unsafe(c) then '_' else c
  }

  /** `${(document.title || 'images').replace(/[/\\:*?"<>|]/g, '_')}.zip`. */
  function ZipFileName(documentTitle: string): (name: string)
    ensures var base := if documentTitle == "" then "images" else documentTitle;
      && |name| == |base| + 4 && name[|base|..] == ".zip"
      && (forall i :: 0 <= i < |base| ==> name[i] == SafeChar(base[i]))
  {
    var base := if documentTitle == "" then "images" else documentTitle;
    seq(|base|, i requires 0 <= i < |base| => SafeChar(base[i])) + ".zip"
  }

  /** The title part of the archive's name holds no character a file name cannot. */
  lemma ZipFileNameSafe(documentTitle: string)
    ensures var name := ZipFileName(documentTitle);
      forall i :: 0 <= i < |name| - 4 ==> !Unsafe(name[i])
  {
  }

  /** A title with no such character is kept as it is. */
  lemma ZipFileNameOfSafeTitle(documentTitle: string)
    requires documentTitle != "" && forall i :: 0 <= i < |documentTitle| ==> !Unsafe(documentTitle[i])
    ensures ZipFileName(documentTitle) == documentTitle + ".zip"
  {
    var name := ZipFileName(documentTitle);
    assert name[..|documentTitle|] == documentTitle;
    assert name == name[..|documentTitle|] + name[|documentTitle|..];
  }

  /** The empty title gives `images.zip`. */
  lemma ZipFileNameUntitled()
    ensures ZipFileName("") == "images.zip"
  {
    ZipFileNameOfSafeTitle("images");
  }

  /**
   * The name of URL `u` at position `k`: here the page title falls back to `'page'`, not to
   * `document.title`.
   */
  function ZipNamer(o: Options, w: World): (string, nat) -> string
  {
    (u: string, k: nat) =>
      ParseTemplate(w.lib, w.documentTitle, o.template, u, k, if o.pageTitle == "" then "page" else o.pageTitle)
  }

  /**
   * The archive names file `k` as `downloadMany` names try `k`, except that without a page title
   * it uses "page" where `downloadMany` would fall back on `document.title`.
   */
  lemma ZipNamesAgree(o: Options, w: World, u: string, k: nat)
    ensures o.pageTitle != "" ==> ZipNamer(o, w)(u, k) == NameOf(o, w)(u, k)
    ensures o.pageTitle == "" ==> ZipNamer(o, w)(u, k) == NameOf(o.(pageTitle := "page"), w)(u, k)
  {
  }

  /** The file URL `k` of `urls` adds when its fetch gives bytes. */
  function FileAt(env: ZipEnv, nm: (string, nat) -> string, urls: seq<string>, k: nat): FileInput
    requires k < |urls| && env.fetch(urls[k]).Some?
  {
    FileInput(env.encode(nm(urls[k], k)), env.fetch(urls[k]).value, env.clock(k))
  }

  /** The positions of the URLs whose fetch gives bytes. */
  function Fetched(env: ZipEnv, urls: seq<string>): (ks: seq<nat>)
  {
    if urls == [] then []
    else
      var n := |urls| - 1;
      Fetched(env, urls[..n]) + (if env.fetch(urls[n]).Some? then [n] else [])
  }

  /** The files the loop adds, in order: one per fetched URL, named by that URL's position. */
  function ZipFiles(env: ZipEnv, nm: (string, nat) -> string, urls: seq<string>): (fs: seq<FileInput>)
    ensures |fs| <= |urls|
  {
    if urls == [] then []
    else
      var n := |urls| - 1;
      ZipFiles(env, nm, urls[..n]) + (if env.fetch(urls[n]).Some? then [FileAt(env, nm, urls, n)] else [])
  }

  /** One more URL adds its file when its fetch gives bytes, and nothing otherwise. */
  lemma ZipFilesSnoc(env: ZipEnv, nm: (string, nat) -> string, urls: seq<string>, i: nat)
    requires i < |urls|
    ensures ZipFiles(env, nm, urls[..i + 1]) ==
      ZipFiles(env, nm, urls[..i]) + (if env.fetch(urls[i]).Some? then [FileAt(env, nm, urls, i)] else [])
  {
    assert urls[..i + 1][..i] == urls[..i];
  }

  /** `Fetched` lists, in increasing order, exactly the positions whose fetch gives bytes. */
  lemma {:induction false} FetchedMeaning(env: ZipEnv, urls: seq<string>)
    ensures var ks := Fetched(env, urls);
      && (forall j :: 0 <= j < |ks| ==> ks[j] < |urls|)
      && (forall j1, j2 :: 0 <= j1 < j2 < |ks| ==> ks[j1] < ks[j2])
      && (forall k :: 0 <= k < |urls| ==> (k in ks <==> env.fetch(urls[k]).Some?))
  {
    if urls != [] {
      var n := |urls| - 1;
      FetchedMeaning(env, urls[..n]);
      var ks := Fetched(env, urls[..n]);
      forall k | 0 <= k < n
        ensures urls[..n][k] == urls[k]
      {
      }
      assert n !in ks;
    }
  }

  /** File `j` is the file of the `j`-th fetched URL: skipped fetches do not shift the names. */
  lemma {:induction false} ZipFilesFetched(env: ZipEnv, nm: (string, nat) -> string, urls: seq<string>)
    ensures var fs, ks := ZipFiles(env, nm, urls), Fetched(env, urls);
      && |fs| == |ks|
      && forall j :: 0 <= j < |ks| ==> ks[j] < |urls| && env.fetch(urls[ks[j]]).Some? && fs[j] == FileAt(env, nm, urls, ks[j])
  {
    if urls != [] {
      var n := |urls| - 1;
      var pre := urls[..n];
      ZipFilesFetched(env, nm, pre);
      FetchedMeaning(env, pre);
      var fs, ks := ZipFiles(env, nm, urls), Fetched(env, urls);
      var fs', ks' := ZipFiles(env, nm, pre), Fetched(env, pre);
      forall j | 0 <= j < |ks'|
        ensures ks[j] < |urls| && env.fetch(urls[ks[j]]).Some? && fs[j] == FileAt(env, nm, urls, ks[j])
      {
        assert ks[j] == ks'[j] && fs[j] == fs'[j] && pre[ks'[j]] == urls[ks'[j]];
      }
    }
  }

  /** Every fetch failing still gives a list of no files, so an archive with an end record only. */
  lemma {:induction false} NothingFetched(env: ZipEnv, nm: (string, nat) -> string, urls: seq<string>)
    requires forall k :: 0 <= k < |urls| ==> env.fetch(urls[k]).None?
    ensures ZipFiles(env, nm, urls) == []
    ensures Archive(ZipFiles(env, nm, urls)) == Eocd(0, 0, 0)
  {
    if urls != [] {
      var n := |urls| - 1;
      assert forall k :: 0 <= k < n ==> urls[..n][k] == urls[k];
      NothingFetched(env, nm, urls[..n]);
    }
    assert Members([]) == [];
    assert LocalParts([]) == [] && EntriesOf([]) == [] && CentralParts([]) == [];
    assert Flatten([]) == [];
  }

  /**
   * The `try` block of `downloadAsZip` up to `finalizeBlob`. The loop's counter `i` gives URL `k`
   * the name number `k` whether earlier fetches failed or not; a failed fetch adds nothing.
   */
  method BuildArchive(urls: seq<string>, nm: (string, nat) -> string, env: ZipEnv) returns (blob: seq<Byte>)
    ensures blob == Archive(ZipFiles(env, nm, urls))
  {
    var writer := new ZipWriter();
    var i := 0;
    while i < |urls|
      invariant 0 <= i <= |urls|
      invariant writer.Valid() && writer.finalized == 0
      invariant writer.added == ZipFiles(env, nm, urls[..i])
    {
      var name := nm(urls[i], i);
      var buf := env.fetch(urls[i]);
      if buf.Some? {
        writer.AddFile(env.encode(name), buf.value, env.clock(i));
      }
      ZipFilesSnoc(env, nm, urls, i);
      i := i + 1;
    }
    assert urls[..i] == urls;
    blob := writer.FinalizeBlob();
  }

  /**
   * `downloadAsZip(urls, options)`: the archive is built and saved under the title's name; when
   * saving throws, `downloadMany` runs on the whole list with the same options.
   */
  method DownloadAsZip(urls: seq<string>, o: Options, w: World, env: ZipEnv) returns (outcome: ZipOutcome)
    requires env.zipSaved || o.concurrency >= 1 || urls == []
    ensures outcome.Saved? <==> env.zipSaved
    ensures outcome.Saved? ==>
      outcome.fileName == ZipFileName(w.documentTitle) && outcome.blob == Archive(ZipFiles(env, ZipNamer(o, w), urls))
    ensures outcome.FellBack? ==> ManyOutcome(urls, o, w, outcome.attempts, outcome.pauses, outcome.releases)
  {
    var blob := BuildArchive(urls, ZipNamer(o, w), env);
    if env.zipSaved {
      outcome := Saved(ZipFileName(w.documentTitle), blob);
    } else {
      var attempts, pauses, releases := DownloadMany(urls, o, w);
      outcome := FellBack(attempts, pauses, releases);
    }
  }
}
