/**
 * `hash.js`: content fingerprints and the renaming of every asset to a name that carries
 * its fingerprint. The file system is a map from path to bytes; BLAKE2b-512 followed by
 * base64 encoding is the function `digest`, about which nothing is known but that it is a
 * function of the bytes.
 */
module Hash {
  import opened Wrappers
  import opened NodePath
  import opened Utils

  newtype byte = x: int | 0 <= x < 256

  /** The contents of the files, by path. */
  type FileMap = map<string, seq<byte>>

  /** Number of base64 characters of the digest kept in a fingerprint. */
  const HashLength: nat := 16

  /** Extensions whose files keep their names: documents, data and extension-less files. */
  predicate Excluded(ext: string)
  {
    ext in ["", ".htm", ".html", ".json", ".txt", ".xml"]
  }

  // ---------------------------------------------------------------------------------------
  // Base64 and its URL-safe form

  predicate IsBase64Char(c: char)
  {
    ('A' <= c <= 'Z') || ('a' <= c <= 'z') || ('0' <= c <= '9') || c == '+' || c == '/' || c == '='
  }

  predicate IsUrlSafeChar(c: char)
  {
    ('A' <= c <= 'Z') || ('a' <= c <= 'z') || ('0' <= c <= '9') || c == '-' || c == '_'
  }

  predicate IsBase64(s: string)
  {
    forall i :: 0 <= i < |s| ==> IsBase64Char(s[i])
  }

  predicate IsUrlSafe(s: string)
  {
    forall i :: 0 <= i < |s| ==> IsUrlSafeChar(s[i])
  }

  /** The `UrlFriendly` table: `+` becomes `-`, `/` becomes `_`, `=` is dropped. */
  function UrlFriendly(c: char): string
  {
    if c == '+' then "-" else if c == '/' then "_" else if c == '=' then "" else [c]
  }

  /** `base64Url`: every character replaced through the `UrlFriendly` table. */
  function Base64Url(s: string): (r: string)
    ensures |r| <= |s|
    ensures forall i :: 0 <= i < |r| ==> r[i] != '+' && r[i] != '/' && r[i] != '='
    ensures IsBase64(s) ==> IsUrlSafe(r)
  {
    if s == [] then [] else UrlFriendly(s[0]) + Base64Url(s[1..])
  }

  /** The mapping works character by character, so it distributes over concatenation. */
  lemma {:induction false} Base64UrlAppend(a: string, b: string)
    ensures Base64Url(a + b) == Base64Url(a) + Base64Url(b)
  {
    if a == [] {
      assert a + b == b;
    } else {
      assert (a + b)[0] == a[0];
      assert (a + b)[1..] == a[1..] + b;
      Base64UrlAppend(a[1..], b);
    }
  }

  /** The way back from the URL-safe alphabet: `-` becomes `+`, `_` becomes `/`. */
  function FromUrl(s: string): string
  {
    if s == [] then []
    else [if s[0] == '-' then '+' else if s[0] == '_' then '/' else s[0]] + FromUrl(s[1..])
  }

  /** Exactly the padding is removed: the output is shorter by the number of `=`. */
  lemma {:induction false} Base64UrlLength(s: string)
    ensures |Base64Url(s)| == |s| - multiset(s)['=']
  {
    if s != [] {
      Base64UrlLength(s[1..]);
      assert s == [s[0]] + s[1..];
      assert multiset(s) == multiset([s[0]]) + multiset(s[1..]);
    }
  }

  /** Without padding, characters map one to one and in order. */
  lemma {:induction false} Base64UrlPointwise(s: string)
    requires '=' !in s
    ensures |Base64Url(s)| == |s|
    ensures forall i :: 0 <= i < |s| ==> Base64Url(s)[i] == UrlFriendly(s[i])[0]
  {
    if s != [] {
      Base64UrlPointwise(s[1..]);
      var r := Base64Url(s);
      assert r == [UrlFriendly(s[0])[0]] + Base64Url(s[1..]);
      forall i | 0 < i < |s| ensures r[i] == UrlFriendly(s[i])[0] {
        assert r[i] == Base64Url(s[1..])[i - 1];
        assert s[1..][i - 1] == s[i];
      }
    }
  }

  /** A string with no `+`, `/` or `=` is left as it is. */
  lemma {:induction false} Base64UrlFixes(t: string)
    requires forall i :: 0 <= i < |t| ==> t[i] != '+' && t[i] != '/' && t[i] != '='
    ensures Base64Url(t) == t
  {
    if t != [] {
      Base64UrlFixes(t[1..]);
      assert t == [t[0]] + t[1..];
    }
  }

  /** Applying `base64Url` twice is the same as applying it once. */
  lemma Base64UrlIdempotent(s: string)
    ensures Base64Url(Base64Url(s)) == Base64Url(s)
  {
    Base64UrlFixes(Base64Url(s));
  }

  /** Unpadded base64 text comes back from its URL-safe form. */
  lemma {:induction false} FromUrlBase64Url(s: string)
    requires IsBase64(s) && '=' !in s
    ensures FromUrl(Base64Url(s)) == s
  {
    if s != [] {
      assert IsBase64(s[1..]) by {
        forall i | 0 <= i < |s[1..]| ensures IsBase64Char(s[1..][i]) { assert s[1..][i] == s[i + 1]; }
      }
      FromUrlBase64Url(s[1..]);
      assert Base64Url(s) == UrlFriendly(s[0]) + Base64Url(s[1..]);
      assert |UrlFriendly(s[0])| == 1;
      assert (UrlFriendly(s[0]) + Base64Url(s[1..]))[1..] == Base64Url(s[1..]);
    }
  }

  /** URL-safe text comes back from its base64 form. */
  lemma {:induction false} Base64UrlFromUrl(t: string)
    requires IsUrlSafe(t)
    ensures Base64Url(FromUrl(t)) == t
  {
    if t != [] {
      assert IsUrlSafe(t[1..]) by {
        forall i | 0 <= i < |t[1..]| ensures IsUrlSafeChar(t[1..][i]) { assert t[1..][i] == t[i + 1]; }
      }
      Base64UrlFromUrl(t[1..]);
      var u := FromUrl(t);
      assert u[1..] == FromUrl(t[1..]);
      assert t == [t[0]] + t[1..];
    }
  }

  // ---------------------------------------------------------------------------------------
  // Fingerprints

  /** `computeHash`: the first `HashLength` characters of the base64 digest, made URL-safe. */
  function Fingerprint(digest: seq<byte> -> string, bytes: seq<byte>): (fp: string)
    ensures |fp| <= HashLength
    ensures forall i :: 0 <= i < |fp| ==> fp[i] != '+' && fp[i] != '/' && fp[i] != '='
  {
    var d := digest(bytes);
    Base64Url(if |d| <= HashLength then d else d[..HashLength])
  }

  /** A full fingerprint: 16 characters whenever the digest's first 16 hold no padding. */
  lemma FingerprintLength(digest: seq<byte> -> string, bytes: seq<byte>)
    requires |digest(bytes)| >= HashLength && '=' !in digest(bytes)[..HashLength]
    ensures |Fingerprint(digest, bytes)| == HashLength
  {
    var d := digest(bytes);
    var prefix := if |d| <= HashLength then d else d[..HashLength];
    assert prefix == d[..HashLength];
    Base64UrlPointwise(prefix);
  }

  /** A digest that is base64 text for every input, as Node's `digest("base64")` is. */
  ghost predicate Base64Digest(digest: seq<byte> -> string)
  {
    forall bytes :: IsBase64(digest(bytes))
  }

  /** Over base64 text a fingerprint uses only letters, digits, `-` and `_`. */
  lemma FingerprintUrlSafe(digest: seq<byte> -> string, bytes: seq<byte>)
    requires IsBase64(digest(bytes))
    ensures IsUrlSafe(Fingerprint(digest, bytes))
    ensures '.' !in Fingerprint(digest, bytes) && '/' !in Fingerprint(digest, bytes)
  {
    var d := digest(bytes);
    var prefix := if |d| <= HashLength then d else d[..HashLength];
    assert IsBase64(prefix) by {
      forall i | 0 <= i < |prefix| ensures IsBase64Char(prefix[i]) { assert prefix[i] == d[i]; }
    }
  }

  // ---------------------------------------------------------------------------------------
  // New names

  /** The new base name: first dot-segment, `-`, fingerprint, `.`, the remaining segments. */
  function NewName(base: string, fp: string): string
  {
    var nameParts := Split(base, '.');
    nameParts[0] + "-" + fp + "." + JoinWith(nameParts[1..], '.')
  }

  /** The new path: the new base name in the same directory. */
  function NewPath(og: string, fp: string): string
  {
    Join(Dirname(og), NewName(Basename(og), fp))
  }

  /**
   * For a name with a `.`, the fingerprint goes in just before its first `.`: the new name
   * is what precedes that `.`, then `-` and the fingerprint, then the `.` and all that follows.
   */
  lemma NewNameInsertsBeforeFirstDot(base: string, fp: string)
    requires '.' in base
    ensures var k := IndexOf(base, '.'); NewName(base, fp) == base[..k] + "-" + fp + "." + base[k + 1..]
  {
    var k := IndexOf(base, '.');
    var parts := Split(base, '.');
    SplitStep(base, '.');
    assert parts[0] == base[..k] && parts[1..] == Split(base[k + 1..], '.');
    JoinSplit(base[k + 1..], '.');
  }

  /**
   * The extension chain survives: split on `.`, the new name has the old name's tail
   * segments, and its first segment is the old one followed by `-` and the fingerprint.
   */
  lemma NewNameSegments(base: string, fp: string)
    requires '.' in base && '.' !in fp
    ensures Split(NewName(base, fp), '.') == [Split(base, '.')[0] + "-" + fp] + Split(base, '.')[1..]
  {
    var parts := Split(base, '.');
    SplitStep(base, '.');
    SplitPieces(base, '.');
    var head := parts[0] + "-" + fp;
    assert '.' !in head;
    assert NewName(base, fp) == head + "." + JoinWith(parts[1..], '.');
    SplitAtFirst(head, JoinWith(parts[1..], '.'), '.');
    SplitJoin(parts[1..], '.');
  }

  /** The extension `path.extname` reports does not change. */
  lemma NewNameKeepsExt(base: string, fp: string)
    requires NameExt(base) != "" && '.' !in fp
    ensures NameExt(NewName(base, fp)) == NameExt(base)
  {
    assert '.' in base;
    NewNameInsertsBeforeFirstDot(base, fp);
    DashInsertKeepsExt(base, IndexOf(base, '.'), fp);
  }

  /** Inserting `-` and more before a `.` of a name that has an extension keeps that extension. */
  lemma DashInsertKeepsExt(base: string, k: nat, fp: string)
    requires k < |base| && base[k] == '.' && NameExt(base) != ""
    ensures NameExt(base[..k] + "-" + fp + "." + base[k + 1..]) == NameExt(base)
  {
    var x := base[..k];
    var d := base[k..];
    var y := x + "-" + fp;
    SliceAt(base, k, '.');
    assert y + "." + base[k + 1..] == y + d;
    assert base == x + d;
    assert (y + d)[|x|] == '-';
    NameExtSwapPrefix(x, y, d);
  }

  /** A fingerprinted name is a valid entry name whenever the old name and the fingerprint have no `/`. */
  lemma NewNameValid(base: string, fp: string)
    requires ValidName(base) && '.' in base && '/' !in fp
    ensures ValidName(NewName(base, fp))
  {
    var k := IndexOf(base, '.');
    NewNameInsertsBeforeFirstDot(base, fp);
    var n := NewName(base, fp);
    assert n == base[..k] + "-" + fp + "." + base[k + 1..];
    assert n[k] == '-';
    forall i | 0 <= i < |n| ensures n[i] != '/' {
      if i < k { assert n[i] == base[i]; }
      else if i > k + |fp| + 1 { assert n[i] == base[i - 1 - |fp|]; }
    }
  }

  /**
   * Renaming a walked file that is not excluded keeps its directory and its extension
   * chain; only the first segment of its base name changes, by `-` and the fingerprint.
   */
  lemma NewPathKeepsDirAndExtension(og: string, fp: string)
    requires InDir(og) && !Excluded(Extname(og)) && '.' !in fp && '/' !in fp
    ensures Dirname(NewPath(og, fp)) == Dirname(og)
    ensures Basename(NewPath(og, fp)) == NewName(Basename(og), fp)
    ensures Extname(NewPath(og, fp)) == Extname(og)
    ensures Split(Basename(NewPath(og, fp)), '.') ==
      [Split(Basename(og), '.')[0] + "-" + fp] + Split(Basename(og), '.')[1..]
  {
    var base := Basename(og);
    assert NameExt(base) != "";
    assert '.' in base;
    NewNameValid(base, fp);
    JoinParse(Dirname(og), NewName(base, fp));
    NewNameKeepsExt(base, fp);
    NewNameSegments(base, fp);
  }

  // ---------------------------------------------------------------------------------------
  // The renaming pass

  /** One element of `renames`: the original path and the fingerprinted one. */
  datatype Rename = Rename(og: string, newPath: string)

  /** What the renaming loop has done: the list so far, the files now, and a file it could not read. */
  datatype HashState = HashState(renames: seq<Rename>, files: FileMap, unreadable: Option<string>)

  /** `renameSync(og, np)`: the bytes move to the new path, replacing whatever was there. */
  function Move(files: FileMap, og: string, np: string): (r: FileMap)
    requires og in files
    ensures np in r && r[np] == files[og]
    ensures r.Keys == files.Keys - {og} + {np}
    ensures forall q :: q in r && q != np ==> r[q] == files[q]
  {
    (files - {og})[np := files[og]]
  }

  /** `run` leaves a path alone when its extension is excluded. */
  predicate Skipped(p: string)
  {
    Excluded(Extname(p))
  }

  /** The new path `run` gives a file at `og` holding `bytes`. */
  function RenameWith(digest: seq<byte> -> string): (string, seq<byte>) -> string
  {
    (og: string, bytes: seq<byte>) => NewPath(og, Fingerprint(digest, bytes))
  }

  /** The walked paths that are not skipped, in order. */
  function Eligible(paths: seq<string>, skip: string -> bool): (e: seq<string>)
    ensures |e| <= |paths|
    ensures forall i :: 0 <= i < |e| ==> e[i] in paths && !skip(e[i])
  {
    if paths == [] then []
    else (if skip(paths[0]) then [] else [paths[0]]) + Eligible(paths[1..], skip)
  }

  /** The original paths of a list of renames. */
  function Origins(rs: seq<Rename>): (o: seq<string>)
    ensures |o| == |rs| && forall i :: 0 <= i < |rs| ==> o[i] == rs[i].og
  {
    if rs == [] then [] else [rs[0].og] + Origins(rs[1..])
  }

  /**
   * The loop of `run` over the walked paths: skip excluded paths, read the current bytes,
   * rename to the name they determine, record. Reading a missing file stops the loop.
   * The test for exclusion and the naming are parameters, so that the bookkeeping below
   * is proved once, apart from the string functions.
   */
  function RenameAll(paths: seq<string>, files: FileMap, skip: string -> bool,
                     name: (string, seq<byte>) -> string): (h: HashState)
    ensures |h.renames| <= |paths|
  {
    if paths == [] then HashState([], files, None)
    else
      var og := paths[0];
      if skip(og) then RenameAll(paths[1..], files, skip, name)
      else if og !in files then HashState([], files, Some(og))
      else
        var np := name(og, files[og]);
        var rest := RenameAll(paths[1..], Move(files, og, np), skip, name);
        HashState([Rename(og, np)] + rest.renames, rest.files, rest.unreadable)
  }

  /** The renaming loop of `run`, as `hash.js` instantiates it. */
  function HashAll(paths: seq<string>, files: FileMap, digest: seq<byte> -> string): HashState
  {
    RenameAll(paths, files, Skipped, RenameWith(digest))
  }

  /**
   * One entry per eligible file, in walk order: the recorded originals are the eligible
   * paths (all of them when every file could be read, a prefix otherwise), and a file
   * that could not be read is a walked, eligible path.
   */
  lemma {:induction false} RenameAllOrigins(paths: seq<string>, files: FileMap, skip: string -> bool,
                                            name: (string, seq<byte>) -> string)
    ensures var h := RenameAll(paths, files, skip, name);
      && Origins(h.renames) <= Eligible(paths, skip)
      && (h.unreadable.None? ==> Origins(h.renames) == Eligible(paths, skip))
      && (h.unreadable.Some? ==> h.unreadable.value in paths && !skip(h.unreadable.value)
                                 && h.unreadable.value !in h.files)
  {
    if paths != [] {
      var og := paths[0];
      var e := Eligible(paths, skip);
      if skip(og) {
        RenameAllOrigins(paths[1..], files, skip, name);
        assert e == Eligible(paths[1..], skip);
      } else if og in files {
        var np := name(og, files[og]);
        var rest := RenameAll(paths[1..], Move(files, og, np), skip, name);
        RenameAllOrigins(paths[1..], Move(files, og, np), skip, name);
        assert e == [og] + Eligible(paths[1..], skip);
        assert Origins([Rename(og, np)] + rest.renames) == [og] + Origins(rest.renames);
      }
    }
  }

  /** Excluded files are never renamed: every recorded original is a walked path that is not skipped. */
  lemma SkippedNeverRenamed(paths: seq<string>, files: FileMap, skip: string -> bool,
                            name: (string, seq<byte>) -> string)
    ensures forall r :: r in RenameAll(paths, files, skip, name).renames ==> r.og in paths && !skip(r.og)
  {
    var h := RenameAll(paths, files, skip, name);
    RenameAllOrigins(paths, files, skip, name);
    forall r | r in h.renames ensures r.og in paths && !skip(r.og) {
      var i :| 0 <= i < |h.renames| && h.renames[i] == r;
      assert Origins(h.renames)[i] == Eligible(paths, skip)[i];
    }
  }

  /** In `run`: a file with an excluded extension is never renamed and never appears in `renames`. */
  lemma ExcludedNeverRenamed(paths: seq<string>, files: FileMap, digest: seq<byte> -> string)
    ensures forall r :: r in HashAll(paths, files, digest).renames ==> r.og in paths && !Excluded(Extname(r.og))
  {
    SkippedNeverRenamed(paths, files, Skipped, RenameWith(digest));
  }

  /**
   * Append-only: processing `a + b` records `a`'s renames, then `b`'s renames against the
   * files as `a` left them; entries already recorded never change.
   */
  lemma {:induction false} RenameAllAppend(a: seq<string>, b: seq<string>, files: FileMap,
                                           skip: string -> bool, name: (string, seq<byte>) -> string)
    ensures var ha := RenameAll(a, files, skip, name);
      var hab := RenameAll(a + b, files, skip, name);
      if ha.unreadable.Some? then hab == ha
      else var hb := RenameAll(b, ha.files, skip, name);
        && hab.renames == ha.renames + hb.renames
        && hab.files == hb.files
        && hab.unreadable == hb.unreadable
  {
    if a == [] {
      assert a + b == b;
    } else {
      assert (a + b)[0] == a[0];
      assert (a + b)[1..] == a[1..] + b;
      var og := a[0];
      if skip(og) {
        RenameAllAppend(a[1..], b, files, skip, name);
      } else if og in files {
        var np := name(og, files[og]);
        RenameAllAppend(a[1..], b, Move(files, og, np), skip, name);
        var ha' := RenameAll(a[1..], Move(files, og, np), skip, name);
        if ha'.unreadable.None? {
          var hb := RenameAll(b, ha'.files, skip, name);
          assert [Rename(og, np)] + (ha'.renames + hb.renames) == ([Rename(og, np)] + ha'.renames) + hb.renames;
        }
      }
    }
  }

  /**
   * Nothing else moves: a file that no recorded rename takes from or writes to keeps its
   * bytes at its path.
   */
  lemma {:induction false} RenameAllFrame(paths: seq<string>, files: FileMap, skip: string -> bool,
                                          name: (string, seq<byte>) -> string, q: string)
    requires q in files
    requires forall r :: r in RenameAll(paths, files, skip, name).renames ==> r.og != q && r.newPath != q
    ensures q in RenameAll(paths, files, skip, name).files
    ensures RenameAll(paths, files, skip, name).files[q] == files[q]
  {
    if paths != [] {
      var og := paths[0];
      if skip(og) {
        RenameAllFrame(paths[1..], files, skip, name, q);
      } else if og in files {
        var np := name(og, files[og]);
        var rest := RenameAll(paths[1..], Move(files, og, np), skip, name);
        assert RenameAll(paths, files, skip, name).renames == [Rename(og, np)] + rest.renames;
        assert Rename(og, np) in RenameAll(paths, files, skip, name).renames;
        RenameAllFrame(paths[1..], Move(files, og, np), skip, name, q);
      }
    }
  }

  /**
   * In `run`, with a base64 digest and walked paths that name entries of their directories:
   * a file with an excluded extension keeps its bytes at its path. It is never renamed, and
   * no new name lands on it, because a new name keeps a non-excluded extension.
   */
  lemma ExcludedKeepsBytes(paths: seq<string>, files: FileMap, digest: seq<byte> -> string, q: string)
    requires Base64Digest(digest)
    requires forall p :: p in paths ==> InDir(p)
    requires q in files && Excluded(Extname(q))
    ensures q in HashAll(paths, files, digest).files
    ensures HashAll(paths, files, digest).files[q] == files[q]
  {
    var name := RenameWith(digest);
    SkippedNeverRenamed(paths, files, Skipped, name);
    RenamesKeepDirAndExtension(paths, files, digest);
    RenameAllFrame(paths, files, Skipped, name, q);
  }

  /** Two file maps that hold the same bytes at the walked paths. */
  predicate AgreeOn(paths: seq<string>, f1: FileMap, f2: FileMap)
  {
    forall q :: q in paths ==> (q in f1 <==> q in f2) && (q in f1 ==> f1[q] == f2[q])
  }

  /**
   * Content addressing: the renames depend on the files only through the bytes at the
   * walked paths, so equal bytes give equal fingerprints and equal new names.
   */
  lemma {:induction false} RenameAllDependsOnlyOnBytes(paths: seq<string>, f1: FileMap, f2: FileMap,
                                                       skip: string -> bool, name: (string, seq<byte>) -> string)
    requires AgreeOn(paths, f1, f2)
    ensures RenameAll(paths, f1, skip, name).renames == RenameAll(paths, f2, skip, name).renames
    ensures RenameAll(paths, f1, skip, name).unreadable == RenameAll(paths, f2, skip, name).unreadable
  {
    if paths != [] {
      var og := paths[0];
      var rest := paths[1..];
      assert AgreeOn(rest, f1, f2) by {
        forall q | q in rest ensures q in paths { assert q == paths[1..][IndexIn(rest, q)]; }
      }
      if !skip(og) && og in f1 {
        var np := name(og, f1[og]);
        var g1 := Move(f1, og, np);
        var g2 := Move(f2, og, np);
        assert AgreeOn(rest, g1, g2) by {
          forall q | q in rest ensures (q in g1 <==> q in g2) && (q in g1 ==> g1[q] == g2[q]) {
            assert q == paths[1..][IndexIn(rest, q)];
          }
        }
        RenameAllDependsOnlyOnBytes(rest, g1, g2, skip, name);
      } else {
        RenameAllDependsOnlyOnBytes(rest, f1, f2, skip, name);
      }
    }
  }

  function IndexIn(s: seq<string>, x: string): (i: nat)
    requires x in s
    ensures i < |s| && s[i] == x
  {
    if s[0] == x then 0 else 1 + IndexIn(s[1..], x)
  }

  /** A rename whose new path is the name of its original for some file contents. */
  ghost predicate NamedBy(r: Rename, name: (string, seq<byte>) -> string)
  {
    exists bytes :: r.newPath == name(r.og, bytes)
  }

  /** Every recorded new path is a name of its original, for some bytes. */
  lemma {:induction false} RenamesNamed(paths: seq<string>, files: FileMap, skip: string -> bool,
                                        name: (string, seq<byte>) -> string)
    ensures forall r :: r in RenameAll(paths, files, skip, name).renames ==> NamedBy(r, name)
  {
    if paths != [] {
      var og := paths[0];
      if skip(og) {
        RenamesNamed(paths[1..], files, skip, name);
        assert RenameAll(paths, files, skip, name) == RenameAll(paths[1..], files, skip, name);
      } else if og in files {
        var np := name(og, files[og]);
        var rest := RenameAll(paths[1..], Move(files, og, np), skip, name).renames;
        RenamesNamed(paths[1..], Move(files, og, np), skip, name);
        assert NamedBy(Rename(og, np), name);
        assert RenameAll(paths, files, skip, name).renames == [Rename(og, np)] + rest;
      }
    }
  }

  /**
   * Content addressing: when no path is walked twice and no new name is a walked path, every
   * recorded rename was read from its original's own bytes, as they stood before the pass.
   */
  lemma {:induction false} RenameAllReadsOwnBytes(paths: seq<string>, files: FileMap, skip: string -> bool,
                                                  name: (string, seq<byte>) -> string)
    requires Distinct(paths)
    requires forall p, b :: p in paths ==> name(p, b) !in paths
    ensures forall r :: r in RenameAll(paths, files, skip, name).renames ==>
      r.og in files && r.newPath == name(r.og, files[r.og])
  {
    if paths != [] {
      DistinctTail(paths);
      var og := paths[0];
      if skip(og) {
        RenameAllReadsOwnBytes(paths[1..], files, skip, name);
      } else if og in files {
        var np := name(og, files[og]);
        var moved := Move(files, og, np);
        var rest := RenameAll(paths[1..], moved, skip, name);
        RenameAllReadsOwnBytes(paths[1..], moved, skip, name);
        SkippedNeverRenamed(paths[1..], moved, skip, name);
        forall r | r in rest.renames ensures r.og in files && r.newPath == name(r.og, files[r.og]) {
          assert r.og in paths[1..] && r.og != og && r.og != np;
        }
        assert RenameAll(paths, files, skip, name).renames == [Rename(og, np)] + rest.renames;
      }
    }
  }

  /**
   * With a base64 digest, renaming a walked file that is not excluded keeps its directory,
   * its extension and its tail segments, and only extends its first segment.
   */
  lemma RenameKeepsDirAndExtension(og: string, bytes: seq<byte>, digest: seq<byte> -> string)
    requires IsBase64(digest(bytes)) && InDir(og) && !Skipped(og)
    ensures var np := RenameWith(digest)(og, bytes);
      && Dirname(np) == Dirname(og)
      && Extname(np) == Extname(og)
      && Split(Basename(np), '.')[1..] == Split(Basename(og), '.')[1..]
      && Split(Basename(og), '.')[0] + "-" <= Split(Basename(np), '.')[0]
  {
    var fp := Fingerprint(digest, bytes);
    FingerprintUrlSafe(digest, bytes);
    NewPathKeepsDirAndExtension(og, fp);
  }

  /** The same for every rename `run` records, over a walk whose paths all name entries of their directories. */
  lemma RenamesKeepDirAndExtension(paths: seq<string>, files: FileMap, digest: seq<byte> -> string)
    requires Base64Digest(digest)
    requires forall p :: p in paths ==> InDir(p)
    ensures forall r :: r in HashAll(paths, files, digest).renames ==>
      && Dirname(r.newPath) == Dirname(r.og)
      && Extname(r.newPath) == Extname(r.og)
      && Split(Basename(r.newPath), '.')[1..] == Split(Basename(r.og), '.')[1..]
      && Split(Basename(r.og), '.')[0] + "-" <= Split(Basename(r.newPath), '.')[0]
  {
    var name := RenameWith(digest);
    var rs := RenameAll(paths, files, Skipped, name).renames;
    RenamesNamed(paths, files, Skipped, name);
    SkippedNeverRenamed(paths, files, Skipped, name);
    forall r | r in rs
      ensures Dirname(r.newPath) == Dirname(r.og)
      ensures Extname(r.newPath) == Extname(r.og)
      ensures Split(Basename(r.newPath), '.')[1..] == Split(Basename(r.og), '.')[1..]
      ensures Split(Basename(r.og), '.')[0] + "-" <= Split(Basename(r.newPath), '.')[0]
    {
      assert NamedBy(r, name);
      var bytes :| r.newPath == name(r.og, bytes);
      assert IsBase64(digest(bytes));
      RenameKeepsDirAndExtension(r.og, bytes, digest);
    }
  }

  /**
   * The loop of `run`: for each walked path that is not skipped, read its bytes, rename it
   * to the name they determine and record the pair; a file that cannot be read ends the loop.
   */
  method RenameFiles(paths: seq<string>, files: FileMap, skip: string -> bool,
                     name: (string, seq<byte>) -> string)
    returns (renames: seq<Rename>, files': FileMap, unreadable: Option<string>)
    ensures var h := RenameAll(paths, files, skip, name);
      renames == h.renames && files' == h.files && unreadable == h.unreadable
  {
    renames := [];
    files' := files;
    unreadable := None;
    var i := 0;
    while i < |paths|
      invariant 0 <= i <= |paths|
      invariant var h := RenameAll(paths, files, skip, name);
        var rest := RenameAll(paths[i..], files', skip, name);
        && h.renames == renames + rest.renames
        && h.files == rest.files
        && h.unreadable == rest.unreadable
    {
      var ogPath := paths[i];
      assert paths[i..][0] == ogPath && paths[i..][1..] == paths[i + 1..];
      if skip(ogPath) {
        i := i + 1;
        continue;
      }
      if ogPath !in files' {
        unreadable := Some(ogPath);
        return;
      }
      var newPath := name(ogPath, files'[ogPath]);
      ghost var rest := RenameAll(paths[i + 1..], Move(files', ogPath, newPath), skip, name);
      assert renames + ([Rename(ogPath, newPath)] + rest.renames) == (renames + [Rename(ogPath, newPath)]) + rest.renames;
      files' := Move(files', ogPath, newPath);
      renames := renames + [Rename(ogPath, newPath)];
      i := i + 1;
    }
    assert paths[i..] == [];
  }

  /**
   * `hash.run(directory)`: walk the tree, rename every non-excluded file to its
   * fingerprinted name and record each pair. Files renamed before an error stay renamed.
   */
  method Run(directory: string, tree: seq<Entry>, files: FileMap, digest: seq<byte> -> string)
    returns (renames: seq<Rename>, files': FileMap, error: Option<RunError>)
    ensures var walk := Walk(directory, tree, None);
      var h := HashAll(walk.paths, files, digest);
      && renames == h.renames
      && files' == h.files
      && error == (if h.unreadable.Some? then Some(ReadFailed(h.unreadable.value))
                   else if walk.failure.Some? then Some(UnexpectedEntry(walk.failure.value))
                   else None)
  {
    var walk := Walk(directory, tree, None);
    var unreadable;
    renames, files', unreadable := RenameFiles(walk.paths, files, Skipped, RenameWith(digest));
    error := if unreadable.Some? then Some(ReadFailed(unreadable.value))
             else if walk.failure.Some? then Some(UnexpectedEntry(walk.failure.value))
             else None;
  }
}
