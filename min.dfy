/**
 * `min.js`: minify every stylesheet, script and SVG in place, keep the minified text only
 * when it is strictly smaller in UTF-8 bytes, and count per asset type. Files are text
 * by path; the three minifiers are one function `minify` whose `None` stands for a
 * minifier that threw or returned nothing.
 */
module Min {
  import opened Wrappers
  import opened NodePath
  import opened Utils

  /** The three buckets of `stats`. */
  datatype AssetType = Css | Js | Svg

  /** The files' contents as text, by path. */
  type TextMap = map<string, string>

  /** The minifier's answer for one file: `None` when it threw or produced nothing. */
  type Minifier = (AssetType, string) -> Option<string>

  /** The asset type `run` gives an extension: `.js` and `.mjs` share a bucket; other extensions are not processed. */
  function TypeOf(ext: string): (t: Option<AssetType>)
    ensures t.None? <==> ext !in [".css", ".js", ".mjs", ".svg"]
    ensures t == Some(Css) <==> ext == ".css"
    ensures t == Some(Js) <==> ext == ".js" || ext == ".mjs"
    ensures t == Some(Svg) <==> ext == ".svg"
  {
    if ext == ".css" then Some(Css)
    else if ext == ".js" || ext == ".mjs" then Some(Js)
    else if ext == ".svg" then Some(Svg)
    else None
  }

  /** The asset type of a walked path, by its `path.extname`. */
  function Classify(p: string): Option<AssetType>
  {
    TypeOf(Extname(p))
  }

  // ---------------------------------------------------------------------------------------
  // Sizes

  /** Bytes of one character in UTF-8. */
  function Utf8Width(c: char): (w: nat)
    ensures 1 <= w <= 4
  {
    if c as int < 0x80 then 1
    else if c as int < 0x800 then 2
    else if c as int < 0x10000 then 3
    else 4
  }

  /** `Buffer.byteLength(s, "utf8")`: the UTF-8 size of a text, which is also the size of the file holding it. */
  function Utf8Len(s: string): (n: nat)
    ensures |s| <= n <= 4 * |s|
  {
    if s == [] then 0 else Utf8Width(s[0]) + Utf8Len(s[1..])
  }

  // ---------------------------------------------------------------------------------------
  // Counters

  /** One entry of `stats`. */
  datatype Bucket = Bucket(count: nat, ogSize: nat, minSize: nat, skip: nat)

  /** The `stats` object: one bucket per asset type. */
  datatype Stats = Stats(css: Bucket, js: Bucket, svg: Bucket)

  /** All counters at zero, as `run` starts. */
  const Initial := Stats(Bucket(0, 0, 0, 0), Bucket(0, 0, 0, 0), Bucket(0, 0, 0, 0))

  /** `stats[type]`. */
  function Get(s: Stats, t: AssetType): Bucket
  {
    match t
    case Css => s.css
    case Js => s.js
    case Svg => s.svg
  }

  /** `stats[type] = b`: one bucket replaced, the two others kept. */
  function Put(s: Stats, t: AssetType, b: Bucket): (r: Stats)
    ensures Get(r, t) == b
    ensures forall u :: u != t ==> Get(r, u) == Get(s, u)
  {
    match t
    case Css => s.(css := b)
    case Js => s.(js := b)
    case Svg => s.(svg := b)
  }

  /** What every bucket keeps: skipped files were counted, and minification never added bytes. */
  predicate BucketValid(b: Bucket)
  {
    b.skip <= b.count && b.minSize <= b.ogSize
  }

  predicate StatsValid(s: Stats)
  {
    forall t :: BucketValid(Get(s, t))
  }

  // ---------------------------------------------------------------------------------------
  // One file

  /** The text `run` tries: the minifier's output, or the original when there is none. */
  function Candidate(og: string, result: Option<string>): string
  {
    if result.Some? then result.value else og
  }

  /** Whether `run` overwrites the file: only when the candidate is strictly smaller in UTF-8 bytes. */
  predicate Smaller(og: string, result: Option<string>)
  {
    Utf8Len(Candidate(og, result)) < Utf8Len(og)
  }

  /**
   * The text the file holds after `run` has seen it. The file is rewritten exactly when the
   * minifier produced a strictly smaller text, and then holds that text; a minifier that
   * fails leaves the original.
   */
  function Kept(og: string, result: Option<string>): (text: string)
    ensures text != og ==> result.Some? && text == result.value && Utf8Len(text) < Utf8Len(og)
    ensures Utf8Len(text) <= Utf8Len(og)
    ensures result.None? ==> text == og
    ensures result.Some? && Utf8Len(result.value) < Utf8Len(og) ==> text == result.value
  {
    if Smaller(og, result) then Candidate(og, result) else og
  }

  /**
   * The bucket after one file: counted once, its original size added, a skip exactly when
   * the file was not rewritten, and never more bytes after than before.
   */
  function Tally(b: Bucket, og: string, result: Option<string>): (b': Bucket)
    ensures b'.count == b.count + 1 && b'.ogSize == b.ogSize + Utf8Len(og)
    ensures b'.minSize == b.minSize + Utf8Len(Kept(og, result))
    ensures b'.minSize - b.minSize <= b'.ogSize - b.ogSize
    ensures b'.skip == b.skip + 1 <==> !Smaller(og, result)
    ensures b'.skip == b.skip <==> Smaller(og, result)
    ensures BucketValid(b) ==> BucketValid(b')
  {
    Bucket(b.count + 1, b.ogSize + Utf8Len(og), b.minSize + Utf8Len(Kept(og, result)),
           if Smaller(og, result) then b.skip else b.skip + 1)
  }

  // ---------------------------------------------------------------------------------------
  // The loop

  /** What the loop has done: the counters, the files, and a file it could not read. */
  datatype MinState = MinState(stats: Stats, files: TextMap, unreadable: Option<string>)

  /**
   * The loop of `run` over the walked paths: skip paths of no asset type, read the text,
   * keep the minified text when smaller, count the file in its bucket. Reading a missing
   * file stops the loop. Classification is a parameter, so that the bookkeeping is proved
   * apart from the string functions.
   */
  function MinAll(paths: seq<string>, stats: Stats, files: TextMap,
                  classify: string -> Option<AssetType>, minify: Minifier): (m: MinState)
    ensures m.files.Keys == files.Keys
  {
    if paths == [] then MinState(stats, files, None)
    else
      var p := paths[0];
      var t := classify(p);
      if t.None? then MinAll(paths[1..], stats, files, classify, minify)
      else if p !in files then MinState(stats, files, Some(p))
      else
        var og := files[p];
        var result := minify(t.value, og);
        var stats' := Put(stats, t.value, Tally(Get(stats, t.value), og, result));
        MinAll(paths[1..], stats', files[p := Kept(og, result)], classify, minify)
  }

  /** `skip <= count` and `minSize <= ogSize` hold in every bucket throughout `run`. */
  lemma {:induction false} MinAllKeepsValid(paths: seq<string>, stats: Stats, files: TextMap,
                                            classify: string -> Option<AssetType>, minify: Minifier)
    requires StatsValid(stats)
    ensures StatsValid(MinAll(paths, stats, files, classify, minify).stats)
  {
    if paths != [] {
      var p := paths[0];
      var t := classify(p);
      if t.None? {
        MinAllKeepsValid(paths[1..], stats, files, classify, minify);
      } else if p in files {
        var og := files[p];
        var result := minify(t.value, og);
        var stats' := Put(stats, t.value, Tally(Get(stats, t.value), og, result));
        assert StatsValid(stats') by {
          forall u ensures BucketValid(Get(stats', u)) {
            if u != t.value { assert Get(stats', u) == Get(stats, u); }
          }
        }
        MinAllKeepsValid(paths[1..], stats', files[p := Kept(og, result)], classify, minify);
      }
    }
  }

  /** The number of walked paths of type `t`. */
  function CountOf(paths: seq<string>, classify: string -> Option<AssetType>, t: AssetType): (n: nat)
    ensures n <= |paths|
  {
    if paths == [] then 0
    else (if classify(paths[0]) == Some(t) then 1 else 0) + CountOf(paths[1..], classify, t)
  }

  /**
   * `count` goes up exactly once per processed file of its type: when every file could be
   * read, each bucket grows by the number of walked paths of its type, and never by more.
   */
  lemma {:induction false} MinAllCounts(paths: seq<string>, stats: Stats, files: TextMap,
                                        classify: string -> Option<AssetType>, minify: Minifier, t: AssetType)
    ensures var m := MinAll(paths, stats, files, classify, minify);
      && Get(stats, t).count <= Get(m.stats, t).count <= Get(stats, t).count + CountOf(paths, classify, t)
      && (m.unreadable.None? ==> Get(m.stats, t).count == Get(stats, t).count + CountOf(paths, classify, t))
  {
    if paths != [] {
      var p := paths[0];
      var u := classify(p);
      if u.None? {
        MinAllCounts(paths[1..], stats, files, classify, minify, t);
      } else if p in files {
        var og := files[p];
        var result := minify(u.value, og);
        var stats' := Put(stats, u.value, Tally(Get(stats, u.value), og, result));
        assert Get(stats', t).count == Get(stats, t).count + (if u == Some(t) then 1 else 0);
        MinAllCounts(paths[1..], stats', files[p := Kept(og, result)], classify, minify, t);
      }
    }
  }

  /**
   * Files never grow, and a file the loop does not process (not walked, or of no asset
   * type) keeps its contents.
   */
  lemma {:induction false} MinAllFiles(paths: seq<string>, stats: Stats, files: TextMap,
                                       classify: string -> Option<AssetType>, minify: Minifier)
    ensures var m := MinAll(paths, stats, files, classify, minify);
      && (forall q :: q in files ==> Utf8Len(m.files[q]) <= Utf8Len(files[q]))
      && (forall q :: q in files && (q !in paths || classify(q).None?) ==> m.files[q] == files[q])
  {
    if paths != [] {
      var p := paths[0];
      var t := classify(p);
      if t.None? {
        MinAllFiles(paths[1..], stats, files, classify, minify);
      } else if p in files {
        var og := files[p];
        var result := minify(t.value, og);
        var stats' := Put(stats, t.value, Tally(Get(stats, t.value), og, result));
        var files' := files[p := Kept(og, result)];
        MinAllFiles(paths[1..], stats', files', classify, minify);
      }
    }
  }

  /** The loop of `run`: classify, read, minify, keep if smaller, and update `stats[type]` in place. */
  method MinifyFiles(paths: seq<string>, files: TextMap, classify: string -> Option<AssetType>, minify: Minifier)
    returns (stats: Stats, files': TextMap, unreadable: Option<string>)
    ensures var m := MinAll(paths, Initial, files, classify, minify);
      stats == m.stats && files' == m.files && unreadable == m.unreadable
  {
    stats := Initial;
    files' := files;
    unreadable := None;
    var i := 0;
    while i < |paths|
      invariant 0 <= i <= |paths|
      invariant var m := MinAll(paths, Initial, files, classify, minify);
        var rest := MinAll(paths[i..], stats, files', classify, minify);
        m.stats == rest.stats && m.files == rest.files && m.unreadable == rest.unreadable
    {
      var p := paths[i];
      assert paths[i..][0] == p && paths[i..][1..] == paths[i + 1..];
      var t := classify(p);
      if t.None? {
        i := i + 1;
        continue;
      }
      if p !in files' {
        unreadable := Some(p);
        return;
      }
      var og := files'[p];
      var ogSize := Utf8Len(og);
      var min := minify(t.value, og);
      var text := if min.Some? then min.value else og;
      var b := Get(stats, t.value);
      ghost var tallied := Tally(b, og, min);
      ghost var kept := files'[p := Kept(og, min)];
      assert MinAll(paths[i..], stats, files', classify, minify)
          == MinAll(paths[i + 1..], Put(stats, t.value, tallied), kept, classify, minify);
      if Utf8Len(text) < Utf8Len(og) {
        files' := files'[p := text];
      } else {
        text := og;
        b := b.(skip := b.skip + 1);
      }
      b := b.(count := b.count + 1, ogSize := b.ogSize + ogSize, minSize := b.minSize + Utf8Len(files'[p]));
      assert files' == kept && b == tallied;
      stats := Put(stats, t.value, b);
      i := i + 1;
    }
    assert paths[i..] == [];
  }

  /** The UTF-8 size of the files of type `t` among `paths`, as `files` holds them. */
  function OgBytes(paths: seq<string>, files: TextMap, classify: string -> Option<AssetType>, t: AssetType): nat
  {
    if paths == [] then 0
    else
      var p := paths[0];
      (if classify(p) == Some(t) && p in files then Utf8Len(files[p]) else 0) + OgBytes(paths[1..], files, classify, t)
  }

  /** The UTF-8 size of the same files once each holds the text `run` keeps for it. */
  function MinBytes(paths: seq<string>, files: TextMap, classify: string -> Option<AssetType>,
                    minify: Minifier, t: AssetType): nat
  {
    if paths == [] then 0
    else
      var p := paths[0];
      (if classify(p) == Some(t) && p in files then Utf8Len(Kept(files[p], minify(t, files[p]))) else 0)
        + MinBytes(paths[1..], files, classify, minify, t)
  }

  /** The sizes depend only on the files at the listed paths. */
  lemma {:induction false} BytesFrame(paths: seq<string>, files: TextMap, classify: string -> Option<AssetType>,
                                      minify: Minifier, t: AssetType, q: string, text: string)
    requires q !in paths
    ensures OgBytes(paths, files[q := text], classify, t) == OgBytes(paths, files, classify, t)
    ensures MinBytes(paths, files[q := text], classify, minify, t) == MinBytes(paths, files, classify, minify, t)
  {
    if paths != [] {
      assert paths[0] != q;
      BytesFrame(paths[1..], files, classify, minify, t, q, text);
    }
  }

  /**
   * When every file could be read and no path is walked twice, `ogSize` and `minSize` of a
   * bucket grow by the sizes of its files before and after, so the savings `run` reports
   * are exactly what the kept texts save.
   */
  lemma {:induction false} MinAllSizes(paths: seq<string>, stats: Stats, files: TextMap,
                                       classify: string -> Option<AssetType>, minify: Minifier, t: AssetType)
    requires Distinct(paths)
    ensures var m := MinAll(paths, stats, files, classify, minify);
      m.unreadable.None? ==>
        && Get(m.stats, t).ogSize == Get(stats, t).ogSize + OgBytes(paths, files, classify, t)
        && Get(m.stats, t).minSize == Get(stats, t).minSize + MinBytes(paths, files, classify, minify, t)
  {
    if paths != [] {
      DistinctTail(paths);
      var p := paths[0];
      var u := classify(p);
      if u.None? {
        MinAllSizes(paths[1..], stats, files, classify, minify, t);
      } else if p in files {
        var og := files[p];
        var result := minify(u.value, og);
        var stats' := Put(stats, u.value, Tally(Get(stats, u.value), og, result));
        var files' := files[p := Kept(og, result)];
        MinAllSizes(paths[1..], stats', files', classify, minify, t);
        BytesFrame(paths[1..], files, classify, minify, t, p, Kept(og, result));
        if u != Some(t) {
          assert Get(stats', t) == Get(stats, t);
        }
      }
    }
  }

  /**
   * When every file could be read and no path is walked twice, each walked file of an
   * asset type ends holding the text `Kept` chooses for its original contents.
   */
  lemma {:induction false} MinAllKept(paths: seq<string>, stats: Stats, files: TextMap,
                                      classify: string -> Option<AssetType>, minify: Minifier)
    requires Distinct(paths)
    ensures var m := MinAll(paths, stats, files, classify, minify);
      m.unreadable.None? ==>
        forall q :: q in paths && q in files && classify(q).Some? ==>
          m.files[q] == Kept(files[q], minify(classify(q).value, files[q]))
  {
    if paths != [] {
      DistinctTail(paths);
      var p := paths[0];
      var u := classify(p);
      if u.None? {
        MinAllKept(paths[1..], stats, files, classify, minify);
      } else if p in files {
        var og := files[p];
        var result := minify(u.value, og);
        var stats' := Put(stats, u.value, Tally(Get(stats, u.value), og, result));
        var files' := files[p := Kept(og, result)];
        MinAllKept(paths[1..], stats', files', classify, minify);
        MinAllFiles(paths[1..], stats', files', classify, minify);
      }
    }
  }

  /**
   * `min.run(directory)`: walk the tree, then minify every stylesheet, script and SVG,
   * counting per type. Files rewritten before an error stay rewritten.
   */
  method Run(directory: string, tree: seq<Entry>, files: TextMap, minify: Minifier)
    returns (stats: Stats, files': TextMap, error: Option<RunError>)
    ensures var walk := Walk(directory, tree, None);
      var m := MinAll(walk.paths, Initial, files, Classify, minify);
      && stats == m.stats
      && files' == m.files
      && error == (if m.unreadable.Some? then Some(ReadFailed(m.unreadable.value))
                   else if walk.failure.Some? then Some(UnexpectedEntry(walk.failure.value))
                   else None)
  {
    var walk := Walk(directory, tree, None);
    var unreadable;
    stats, files', unreadable := MinifyFiles(walk.paths, files, Classify, minify);
    error := if unreadable.Some? then Some(ReadFailed(unreadable.value))
             else if walk.failure.Some? then Some(UnexpectedEntry(walk.failure.value))
             else None;
  }

  /** `run`'s counters are valid at the end: in every bucket, `skip <= count` and `minSize <= ogSize`. */
  lemma RunStatsValid(paths: seq<string>, files: TextMap, minify: Minifier)
    ensures StatsValid(MinAll(paths, Initial, files, Classify, minify).stats)
  {
    MinAllKeepsValid(paths, Initial, files, Classify, minify);
  }
}
