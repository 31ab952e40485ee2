/**
 * `utils.js`: the recursive directory walk and the choice of a unit for a byte count.
 * The file system is given as a tree of entries, in the order `readdirSync` lists them.
 */
module Utils {
  import opened Wrappers
  import opened NodePath

  /** A directory entry as `readdirSync(..., { withFileTypes: true })` describes it. */
  datatype Entry =
    | File(name: string)
    | Dir(name: string, entries: seq<Entry>)
    | Special(name: string)  // a symbolic link, socket, device or FIFO

  /** Every name in the tree is one `readdirSync` can return. */
  predicate WellFormed(entries: seq<Entry>)
  {
    forall i :: 0 <= i < |entries| ==> WellFormedEntry(entries[i])
  }

  predicate WellFormedEntry(e: Entry)
  {
    ValidName(e.name) && (e.Dir? ==> WellFormed(e.entries))
  }

  /**
   * What the generator yields before it stops: the file paths, and the path of the entry
   * that made it throw, if any.
   */
  datatype Walked = Walked(paths: seq<string>, failure: Option<string>)

  /** Why a pass's `run` stopped early: the walk met a special entry, or a file could not be read. */
  datatype RunError = UnexpectedEntry(path: string) | ReadFailed(path: string)

  /** No path is walked twice, as in a tree whose directories list distinct names. */
  predicate Distinct(paths: seq<string>)
  {
    forall i, j :: 0 <= i < j < |paths| ==> paths[i] != paths[j]
  }

  lemma DistinctTail(paths: seq<string>)
    requires paths != [] && Distinct(paths)
    ensures Distinct(paths[1..]) && paths[0] !in paths[1..]
  {
    forall i | 0 <= i < |paths[1..]| ensures paths[1..][i] != paths[0] {
      assert paths[1..][i] == paths[i + 1];
    }
  }

  /** The extension filter of `options.ext`; `None` stands for `ext == null` (no filter). */
  predicate Accepts(ext: Option<seq<string>>, p: string)
  {
    ext.None? || Extname(p) in ext.value
  }

  /** The filter as a test on paths. */
  function Accepter(ext: Option<seq<string>>): string -> bool
  {
    p => Accepts(ext, p)
  }

  /**
   * `walkDir(directory, options)`: files are yielded as they are met, a directory's files
   * in its place among its siblings; any other kind of entry throws.
   */
  function Walk(dir: string, entries: seq<Entry>, ext: Option<seq<string>>): Walked
  {
    WalkWith(dir, entries, Accepter(ext))
  }

  /** The walk with its filter given as a test on paths, so that its proofs do not unfold `path.extname`. */
  function WalkWith(dir: string, entries: seq<Entry>, keep: string -> bool): Walked
    decreases entries
  {
    if entries == [] then Walked([], None)
    else
      var e := entries[0];
      var p := Join(dir, e.name);
      match e
      case File(_) =>
        var rest := WalkWith(dir, entries[1..], keep);
        Walked((if keep(p) then [p] else []) + rest.paths, rest.failure)
      case Dir(_, children) =>
        var sub := WalkWith(p, children, keep);
        if sub.failure.Some? then sub
        else
          var rest := WalkWith(dir, entries[1..], keep);
          Walked(sub.paths + rest.paths, rest.failure)
      case Special(_) => Walked([], Some(p))
  }

  // ---------------------------------------------------------------------------------------
  // A reference description of the walk: list every entry of the tree in depth-first
  // pre-order, then read the yielded files and the failure off that list.

  datatype Kind = FileKind | DirKind | SpecialKind

  /** An entry of the tree with its full path. */
  datatype Visit = Visit(path: string, kind: Kind)

  /** All entries of the tree, each directory before its contents, siblings in listing order. */
  function Preorder(dir: string, entries: seq<Entry>): seq<Visit>
    decreases entries
  {
    if entries == [] then []
    else
      var e := entries[0];
      var p := Join(dir, e.name);
      match e
      case File(_) => [Visit(p, FileKind)] + Preorder(dir, entries[1..])
      case Dir(_, children) => [Visit(p, DirKind)] + Preorder(p, children) + Preorder(dir, entries[1..])
      case Special(_) => [Visit(p, SpecialKind)] + Preorder(dir, entries[1..])
  }

  /** The paths of the files among `vs` that `keep` accepts, in order. */
  function FilePaths(vs: seq<Visit>, keep: string -> bool): seq<string>
  {
    if vs == [] then []
    else
      var rest := FilePaths(vs[1..], keep);
      if vs[0].kind == FileKind && keep(vs[0].path) then [vs[0].path] + rest else rest
  }

  /**
   * What a walk over the listing `vs` yields: the files `keep` accepts, in order, up to the
   * first entry that is neither a file nor a directory, where it fails.
   */
  function Expected(vs: seq<Visit>, keep: string -> bool): Walked
  {
    if vs == [] then Walked([], None)
    else if vs[0].kind == SpecialKind then Walked([], Some(vs[0].path))
    else
      var rest := Expected(vs[1..], keep);
      if vs[0].kind == FileKind && keep(vs[0].path) then Walked([vs[0].path] + rest.paths, rest.failure)
      else rest
  }

  /** How the expected outcome of a listing splits over its two halves. */
  lemma {:induction false} ExpectedAppend(a: seq<Visit>, b: seq<Visit>, keep: string -> bool)
    ensures Expected(a + b, keep).paths ==
      Expected(a, keep).paths + (if Expected(a, keep).failure.Some? then [] else Expected(b, keep).paths)
    ensures Expected(a + b, keep).failure ==
      if Expected(a, keep).failure.Some? then Expected(a, keep).failure else Expected(b, keep).failure
  {
    if a == [] {
      assert a + b == b;
    } else {
      var v := a[0];
      var a' := a[1..];
      assert a == [v] + a';
      assert a + b == [v] + (a' + b);
      ExpectedAppend(a', b, keep);
      ExpectedCons(v, a', keep);
      ExpectedCons(v, a' + b, keep);
      if v.kind == FileKind && keep(v.path) {
        var pa := Expected(a', keep).paths;
        var pb := if Expected(a', keep).failure.Some? then [] else Expected(b, keep).paths;
        assert [v.path] + (pa + pb) == ([v.path] + pa) + pb;
      }
    }
  }

  /**
   * The walk yields exactly the accepted regular files that precede, in depth-first
   * pre-order, the first entry that is neither a file nor a directory; it fails on that entry.
   */
  lemma WalkIsPreorder(dir: string, entries: seq<Entry>, ext: Option<seq<string>>)
    ensures Walk(dir, entries, ext) == Expected(Preorder(dir, entries), Accepter(ext))
  {
    WalkWithIsPreorder(dir, entries, Accepter(ext));
  }

  lemma {:induction false} WalkWithIsPreorder(dir: string, entries: seq<Entry>, keep: string -> bool)
    ensures WalkWith(dir, entries, keep) == Expected(Preorder(dir, entries), keep)
    decreases entries
  {
    if entries != [] {
      WalkWithIsPreorder(dir, entries[1..], keep);
      match entries[0]
      case File(_) =>
        FileIsPreorder(dir, entries, keep);
      case Dir(name, children) =>
        WalkWithIsPreorder(Join(dir, name), children, keep);
        DirIsPreorder(dir, entries, keep);
      case Special(_) =>
        SpecialIsPreorder(dir, entries, keep);
    }
  }

  /** The step of `WalkWithIsPreorder` at a regular file. */
  lemma FileIsPreorder(dir: string, entries: seq<Entry>, keep: string -> bool)
    requires entries != [] && entries[0].File?
    requires WalkWith(dir, entries[1..], keep) == Expected(Preorder(dir, entries[1..]), keep)
    ensures WalkWith(dir, entries, keep) == Expected(Preorder(dir, entries), keep)
  {
    var p := Join(dir, entries[0].name);
    var rest := WalkWith(dir, entries[1..], keep);
    assert Preorder(dir, entries) == [Visit(p, FileKind)] + Preorder(dir, entries[1..]);
    ExpectedCons(Visit(p, FileKind), Preorder(dir, entries[1..]), keep);
    if !keep(p) {
      assert [] + rest.paths == rest.paths;
    }
  }

  /** The step of `WalkWithIsPreorder` at a directory. */
  lemma DirIsPreorder(dir: string, entries: seq<Entry>, keep: string -> bool)
    requires entries != [] && entries[0].Dir?
    requires WalkWith(dir, entries[1..], keep) == Expected(Preorder(dir, entries[1..]), keep)
    requires WalkWith(Join(dir, entries[0].name), entries[0].entries, keep) ==
      Expected(Preorder(Join(dir, entries[0].name), entries[0].entries), keep)
    ensures WalkWith(dir, entries, keep) == Expected(Preorder(dir, entries), keep)
  {
    var p := Join(dir, entries[0].name);
    var inner := Preorder(p, entries[0].entries);
    var tail := Preorder(dir, entries[1..]);
    var sub := WalkWith(p, entries[0].entries, keep);
    var rest := WalkWith(dir, entries[1..], keep);
    assert WalkWith(dir, entries, keep) ==
      if sub.failure.Some? then sub else Walked(sub.paths + rest.paths, rest.failure);
    assert Preorder(dir, entries) == [Visit(p, DirKind)] + (inner + tail);
    ExpectedCons(Visit(p, DirKind), inner + tail, keep);
    ExpectedAppend(inner, tail, keep);
    if sub.failure.Some? {
      assert sub.paths + [] == sub.paths;
    }
  }

  /** The step of `WalkWithIsPreorder` at an entry that is neither a file nor a directory. */
  lemma SpecialIsPreorder(dir: string, entries: seq<Entry>, keep: string -> bool)
    requires entries != [] && entries[0].Special?
    ensures WalkWith(dir, entries, keep) == Expected(Preorder(dir, entries), keep)
  {
    var p := Join(dir, entries[0].name);
    ExpectedCons(Visit(p, SpecialKind), Preorder(dir, entries[1..]), keep);
  }

  /** One unfolding of `Expected` on a listing written as its head and its tail. */
  lemma ExpectedCons(v: Visit, tail: seq<Visit>, keep: string -> bool)
    ensures Expected([v] + tail, keep) ==
      if v.kind == SpecialKind then Walked([], Some(v.path))
      else if v.kind == FileKind && keep(v.path) then
        Walked([v.path] + Expected(tail, keep).paths, Expected(tail, keep).failure)
      else Expected(tail, keep)
  {
    assert ([v] + tail)[1..] == tail;
  }

  /** Every path of the expected outcome is a file of the listing that `keep` accepts. */
  lemma {:induction false} ExpectedFiles(vs: seq<Visit>, keep: string -> bool)
    ensures forall p :: p in Expected(vs, keep).paths ==> keep(p) && Visit(p, FileKind) in vs
  {
    if vs != [] && vs[0].kind != SpecialKind {
      ExpectedFiles(vs[1..], keep);
    }
  }

  /** With no special entry, the expected outcome is every accepted file and no failure. */
  lemma {:induction false} ExpectedNoSpecial(vs: seq<Visit>, keep: string -> bool)
    requires forall i :: 0 <= i < |vs| ==> vs[i].kind != SpecialKind
    ensures Expected(vs, keep) == Walked(FilePaths(vs, keep), None)
  {
    if vs != [] {
      assert vs[0].kind != SpecialKind;
      forall i | 0 <= i < |vs[1..]| ensures vs[1..][i].kind != SpecialKind {
        assert vs[1..][i] == vs[i + 1];
      }
      ExpectedNoSpecial(vs[1..], keep);
    }
  }

  /** Walk results are files the filter accepts, and regular files of the tree. */
  lemma WalkYieldsAcceptedFiles(dir: string, entries: seq<Entry>, ext: Option<seq<string>>)
    ensures forall p :: p in Walk(dir, entries, ext).paths ==>
      Accepts(ext, p) && Visit(p, FileKind) in Preorder(dir, entries)
  {
    WalkIsPreorder(dir, entries, ext);
    ExpectedFiles(Preorder(dir, entries), Accepter(ext));
  }

  /** Without special entries and without a filter, every regular file of the tree is yielded, in pre-order. */
  lemma WalkYieldsEveryFile(dir: string, entries: seq<Entry>)
    requires forall i :: 0 <= i < |Preorder(dir, entries)| ==> Preorder(dir, entries)[i].kind != SpecialKind
    ensures Walk(dir, entries, None) == Walked(FilePaths(Preorder(dir, entries), Accepter(None)), None)
    ensures forall v :: v in Preorder(dir, entries) && v.kind == FileKind ==> v.path in Walk(dir, entries, None).paths
  {
    WalkIsPreorder(dir, entries, None);
    var vs := Preorder(dir, entries);
    ExpectedNoSpecial(vs, Accepter(None));
    forall v | v in vs && v.kind == FileKind ensures v.path in FilePaths(vs, Accepter(None)) {
      FilePathsComplete(vs, v);
    }
  }

  lemma {:induction false} FilePathsComplete(vs: seq<Visit>, v: Visit)
    requires v in vs && v.kind == FileKind
    ensures v.path in FilePaths(vs, Accepter(None))
  {
    if vs[0] != v {
      FilePathsComplete(vs[1..], v);
    }
  }

  /** The files of `ps` whose extension is listed in `exts`, in order. */
  function KeepExt(ps: seq<string>, exts: seq<string>): seq<string>
  {
    if ps == [] then []
    else (if Extname(ps[0]) in exts then [ps[0]] else []) + KeepExt(ps[1..], exts)
  }

  /** Filtering the listing's outcome is filtering the unfiltered outcome's paths. */
  lemma {:induction false} ExpectedFilter(vs: seq<Visit>, exts: seq<string>)
    ensures Expected(vs, Accepter(Some(exts))) ==
      Walked(KeepExt(Expected(vs, Accepter(None)).paths, exts), Expected(vs, Accepter(None)).failure)
  {
    if vs != [] && vs[0].kind != SpecialKind {
      ExpectedFilter(vs[1..], exts);
      if vs[0].kind == FileKind {
        KeepExtCons(vs[0].path, Expected(vs[1..], Accepter(None)).paths, exts);
      }
    }
  }

  lemma KeepExtCons(p: string, rest: seq<string>, exts: seq<string>)
    ensures KeepExt([p] + rest, exts) == (if Extname(p) in exts then [p] else []) + KeepExt(rest, exts)
  {
    assert ([p] + rest)[1..] == rest;
  }

  /**
   * A filter only drops files: a filtered walk yields the unfiltered walk's files whose
   * extension is listed, in the same order, and fails at the same entry.
   */
  lemma WalkFilterOnlyDrops(dir: string, entries: seq<Entry>, exts: seq<string>)
    ensures Walk(dir, entries, Some(exts)) ==
      Walked(KeepExt(Walk(dir, entries, None).paths, exts), Walk(dir, entries, None).failure)
  {
    WalkIsPreorder(dir, entries, Some(exts));
    WalkIsPreorder(dir, entries, None);
    ExpectedFilter(Preorder(dir, entries), exts);
  }

  /** Every visit's path splits back into its directory and its name. */
  predicate AllInDir(vs: seq<Visit>)
  {
    forall i :: 0 <= i < |vs| ==> InDir(vs[i].path)
  }

  /**
   * Below a directory in normal form, every entry of a well-formed tree has a path that
   * `path.parse` splits back into its parent directory and its own name.
   */
  lemma {:induction false} PreorderPathsInDir(dir: string, entries: seq<Entry>)
    requires NormalDir(dir) && WellFormed(entries)
    ensures AllInDir(Preorder(dir, entries))
    decreases entries
  {
    if entries != [] {
      var e := entries[0];
      var p := Join(dir, e.name);
      assert WellFormedEntry(e);
      JoinParse(dir, e.name);
      WellFormedTail(entries);
      PreorderPathsInDir(dir, entries[1..]);
      var tail := Preorder(dir, entries[1..]);
      var head := [Visit(p, if e.File? then FileKind else if e.Dir? then DirKind else SpecialKind)];
      SingleInDir(head[0]);
      if e.Dir? {
        PreorderPathsInDir(p, e.entries);
        AllInDirAppend(head, Preorder(p, e.entries));
        AllInDirAppend(head + Preorder(p, e.entries), tail);
        assert Preorder(dir, entries) == head + Preorder(p, e.entries) + tail;
      } else {
        AllInDirAppend(head, tail);
        assert Preorder(dir, entries) == head + tail;
      }
    }
  }

  lemma SingleInDir(v: Visit)
    requires InDir(v.path)
    ensures AllInDir([v])
  {
  }

  lemma AllInDirAppend(a: seq<Visit>, b: seq<Visit>)
    requires AllInDir(a) && AllInDir(b)
    ensures AllInDir(a + b)
  {
    forall i | 0 <= i < |a + b| ensures InDir((a + b)[i].path) {
      if i >= |a| { assert (a + b)[i] == b[i - |a|]; }
    }
  }

  lemma WellFormedTail(entries: seq<Entry>)
    requires entries != [] && WellFormed(entries)
    ensures WellFormed(entries[1..])
  {
    forall i | 0 <= i < |entries[1..]| ensures WellFormedEntry(entries[1..][i]) {
      assert entries[1..][i] == entries[i + 1];
    }
  }

  /** Every path the walk yields from a normal directory over a well-formed tree splits back into directory and name. */
  lemma WalkPathsInDir(dir: string, entries: seq<Entry>, ext: Option<seq<string>>)
    requires NormalDir(dir) && WellFormed(entries)
    ensures forall p :: p in Walk(dir, entries, ext).paths ==> InDir(p)
  {
    WalkYieldsAcceptedFiles(dir, entries, ext);
    PreorderPathsInDir(dir, entries);
    var vs := Preorder(dir, entries);
    forall p | p in Walk(dir, entries, ext).paths ensures InDir(p) {
      var i :| 0 <= i < |vs| && vs[i] == Visit(p, FileKind);
    }
  }

  /**
   * `walkDir(directory)` exactly as `hash.js` and `min.js` call it, with no options object:
   * the first regular file reached evaluates `options.ext` on `undefined` and throws, so the
   * walk fails at that file (or at an earlier special entry) and yields nothing.
   */
  function WalkWithoutOptions(dir: string, entries: seq<Entry>): (r: Walked)
    ensures r.paths == []
    decreases entries
  {
    if entries == [] then Walked([], None)
    else
      var e := entries[0];
      var p := Join(dir, e.name);
      match e
      case File(_) => Walked([], Some(p))
      case Dir(_, children) =>
        var sub := WalkWithoutOptions(p, children);
        if sub.failure.Some? then sub else WalkWithoutOptions(dir, entries[1..])
      case Special(_) => Walked([], Some(p))
  }

  /**
   * A directory holding one script: called without options the walk throws at the script and
   * yields nothing; with the evidently intended "no filter" it yields the script.
   */
  lemma WalkWithoutOptionsFails()
    ensures WalkWithoutOptions("dist", [File("app.js")]) == Walked([], Some("dist/app.js"))
    ensures Walk("dist", [File("app.js")], None) == Walked(["dist/app.js"], None)
  {
    assert Join("dist", "app.js") == "dist/app.js";
    assert [File("app.js")][1..] == [];
  }

  // ---------------------------------------------------------------------------------------
  // humanSize

  datatype SizeUnit = KiB | MiB | GiB

  /** 1024 raised to `k`. */
  function Pow1024(k: nat): (r: nat)
    ensures r >= 1
  {
    if k == 0 then 1 else 1024 * Pow1024(k - 1)
  }

  /** The unit after `k` divisions by 1024. */
  function UnitAfter(k: nat): Option<SizeUnit>
    requires k <= 3
  {
    [None, Some(KiB), Some(MiB), Some(GiB)][k]
  }

  /**
   * `humanSize(bytes)` without its text rendering: the scaled size and the unit. The size is
   * divided by 1024 while it is at least 1024, at most three times.
   */
  method HumanSize(bytes: int) returns (size: real, unit: Option<SizeUnit>)
    ensures unit == None <==> bytes < 1024
    ensures unit == Some(KiB) <==> 1024 <= bytes < 1024 * 1024
    ensures unit == Some(MiB) <==> 1024 * 1024 <= bytes < 1024 * 1024 * 1024
    ensures unit == Some(GiB) <==> 1024 * 1024 * 1024 <= bytes
    ensures unit != Some(GiB) ==> size < 1024.0
    ensures unit != None ==> size >= 1.0
    ensures size * UnitBytes(unit) == bytes as real
  {
    size := bytes as real;
    unit := None;
    var units := [KiB, MiB, GiB];
    var k := 0;
    while k < |units|
      invariant 0 <= k <= 3
      invariant unit == UnitAfter(k)
      invariant size * (Pow1024(k) as real) == bytes as real
      invariant k > 0 ==> Pow1024(k) <= bytes
    {
      if size < 1024.0 {
        break;
      }
      ScaleStep(size, Pow1024(k), bytes);
      size := size / 1024.0;
      unit := Some(units[k]);
      k := k + 1;
    }
    UnitRanges(size, k, bytes);
  }

  /** The number of bytes in one unit. */
  function UnitBytes(unit: Option<SizeUnit>): real
  {
    match unit
    case None => 1.0
    case Some(KiB) => 1024.0
    case Some(MiB) => 1048576.0
    case Some(GiB) => 1073741824.0
  }

  /** Where the loop of `HumanSize` stops, the unit matches the byte count's range. */
  lemma UnitRanges(size: real, k: nat, bytes: int)
    requires k <= 3 && size * (Pow1024(k) as real) == bytes as real
    requires k > 0 ==> Pow1024(k) <= bytes
    requires k < 3 ==> size < 1024.0
    ensures UnitAfter(k) == None <==> bytes < 1024
    ensures UnitAfter(k) == Some(KiB) <==> 1024 <= bytes < 1024 * 1024
    ensures UnitAfter(k) == Some(MiB) <==> 1024 * 1024 <= bytes < 1024 * 1024 * 1024
    ensures UnitAfter(k) == Some(GiB) <==> 1024 * 1024 * 1024 <= bytes
    ensures UnitAfter(k) != Some(GiB) ==> size < 1024.0
    ensures UnitAfter(k) != None ==> size >= 1.0
    ensures size * UnitBytes(UnitAfter(k)) == bytes as real
  {
    BoundFromScale(size, Pow1024(k), bytes);
    assert Pow1024(0) == 1;
    assert Pow1024(1) == 1024;
    assert Pow1024(2) == 1048576;
    assert Pow1024(3) == 1073741824;
    assert UnitBytes(UnitAfter(k)) == Pow1024(k) as real;
  }

  lemma ScaleStep(size: real, scale: nat, bytes: int)
    requires scale >= 1 && size * (scale as real) == bytes as real && size >= 1024.0
    ensures (size / 1024.0) * ((1024 * scale) as real) == bytes as real
    ensures 1024 * scale <= bytes
  {
    assert (1024 * scale) as real == 1024.0 * (scale as real);
  }

  lemma BoundFromScale(size: real, scale: nat, bytes: int)
    requires scale >= 1 && size * (scale as real) == bytes as real
    ensures size < 1024.0 <==> bytes < 1024 * scale
    ensures size >= 1.0 <==> bytes >= scale
  {
    var s := scale as real;
    assert (1024 * scale) as real == 1024.0 * s;
    MulMonotone(size, 1024.0, s);
    assert size < 1024.0 <==> bytes as real < (1024 * scale) as real;
    MulMonotone(size, 1.0, s);
    assert 1.0 * s == s;
    assert size < 1.0 <==> (bytes as real) < s;
  }

  lemma MulMonotone(x: real, y: real, s: real)
    requires s > 0.0
    ensures x < y <==> x * s < y * s
  {
    assert y * s - x * s == (y - x) * s;
  }
}
