# prepa, modelled in Dafny

prepa prepares a directory of web assets for deployment. `prepa <command> --replace <directory>`
minifies stylesheets, scripts and SVGs in place (`min`), renames every asset to a name that
carries a fingerprint of its contents (`hash`, `rename`), and precompresses (`zip`); `go`
runs min, hash and zip in that order.

This project models the decision logic of those passes and proves what it promises:

- `node_path.dfy` (module `NodePath`): the pieces of Node's `path` module and of
  `split`/`join` that the passes use. These are `path.join`, the directory and base name of
  `path.parse`, and `path.extname`, on POSIX paths written as strings.
- `utils.dfy` (module `Utils`): `walkDir` over an abstract tree of directory entries, in
  `readdirSync` order. It is proved equal to an independent depth-first pre-order listing.
  Also `humanSize`, as a loop over the three units.
- `hash.dfy` (module `Hash`): the URL-safe base64 mapping, the truncated fingerprint and the
  new name. Also the renaming loop of `hash.run`: a map from path to bytes that each rename
  updates, and the append-only list of `{og, new}` pairs.
- `min.dfy` (module `Min`): the keep-if-smaller rule and the per-type counters of
  `min.run`, over a map from path to text.
- `prepa.dfy` (module `Prepa`): the argument checks of the command line, the dispatch, and
  the order of the passes.
- `wrappers.dfy` (module `Wrappers`): `Option`.

The two loops that walk and rewrite files (`hash.run`, `min.run`) are methods with loop
invariants. Each is proved equal to a recursive function over the walked paths
(`Hash.RenameAll`, `Min.MinAll`). The lemmas state the properties about those functions.
The test for which paths a pass touches, and the name or text a file gets, are parameters
of those functions, so the bookkeeping is proved once. `Hash.Run` and `Min.Run` pass the
real ones: `Hash.Skipped` with `Hash.RenameWith`, and `Min.Classify`.

## Model

| member | source | states |
|---|---|---|
| NodePath.Split | hash.js:24 | `split(".")` yields at least one piece |
| NodePath.SplitPieces | hash.js:24 | no piece of a split holds the separator |
| NodePath.JoinSplit | hash.js:24-25 | joining the pieces of a split with the separator gives back the string |
| NodePath.SplitJoin | hash.js:24-25 | splitting a join of separator-free pieces gives back the pieces |
| NodePath.JoinWith | hash.js:25 | `Array.prototype.join` with a separator; its partner is `Split`, through `JoinSplit` and `SplitJoin` |
| NodePath.Join | utils.js:9 | `path.join(dir, name)` starts with `dir`, ends with `name`, and puts at most one character between them, a `/` |
| NodePath.Dirname | hash.js:23 | the `dir` of `path.parse` is a prefix of the path, empty exactly when the path has no `/` |
| NodePath.Basename | hash.js:23 | the `base` of `path.parse` is a suffix of the path with no `/`, and the whole path when it has none |
| NodePath.NameExt | hash.js:16 | `path.extname` of a base name is empty or starts with `.` and is shorter than the name |
| NodePath.NameExtLastDot | hash.js:16 | a non-empty extension is the name's suffix from its last `.`, holding no other `.`; it is empty iff the name is `..` or has no `.` after its first character |
| NodePath.Extname | hash.js:16 | `path.extname` is a suffix of the path, holds no `/`, and is empty or starts with `.` |
| NodePath.JoinParse | utils.js:9 | `path.parse` of `Join(dir, name)` gives back `dir` and `name` for a directory with no trailing `/` and a valid entry name |
| Utils.Walk | utils.js:7-21 | `walkDir` over a tree of entries in `readdirSync` order; its filter is the `Accepts` test on `path.extname`. What it yields is stated by the lemmas below |
| Utils.WalkIsPreorder | utils.js:7-21 | the walk yields exactly the accepted regular files before the first entry that is neither file nor directory, in depth-first pre-order, and fails at that entry |
| Utils.WalkYieldsAcceptedFiles | utils.js:11-14 | only regular files are yielded, and each passes the extension filter |
| Utils.WalkYieldsEveryFile | utils.js:11-16 | with no filter and no special entry, every regular file of the tree is yielded, in pre-order, and the walk does not fail |
| Utils.WalkFilterOnlyDrops | utils.js:12 | a filtered walk yields the unfiltered walk's files whose extension is listed, in order, and fails at the same entry |
| Utils.WalkPathsInDir | utils.js:9 | every yielded path is its parent directory joined with an entry name |
| Utils.WalkWithoutOptions | utils.js:12 | called without options, as both passes call it, the walk yields nothing |
| Utils.WalkWithoutOptionsFails | hash.js:15 | for a directory holding `app.js`, the call without options throws at the file while the intended walk yields it |
| Utils.HumanSize | utils.js:23-35 | no unit iff bytes < 1024; KiB, MiB and GiB exactly on their ranges of 1024 powers; the scaled size is < 1024 unless the unit is GiB and ≥ 1 with a unit; size times the unit is the byte count |
| Utils.UnitRanges | utils.js:27-34 | where the loop stops after `k` divisions, the unit it chose matches the byte count's range of 1024 powers, and size times the unit is the byte count |
| Hash.Excluded | hash.js:17 | the six extensions whose files keep their names: `""`, `.htm`, `.html`, `.json`, `.txt`, `.xml` |
| Hash.Skipped | hash.js:16-17 | a path is skipped when its `path.extname` is excluded; `ExcludedNeverRenamed` states the consequence |
| Hash.Base64Url | hash.js:54-56 | the output has no `+`, `/` or `=`, is no longer than the input, and is URL-safe when the input is base64 |
| Hash.Base64UrlAppend | hash.js:54-56 | the global `replace` maps each character on its own: the mapping of `a + b` is the mapping of `a` followed by that of `b` |
| Hash.Base64UrlLength | hash.js:52-56 | the output is shorter than the input by exactly the number of `=` |
| Hash.Base64UrlPointwise | hash.js:52-56 | without padding, each character is mapped in place through the `UrlFriendly` table |
| Hash.Base64UrlFixes | hash.js:54-56 | a string with no `+`, `/` or `=` is unchanged |
| Hash.Base64UrlIdempotent | hash.js:54-56 | applying the mapping twice equals applying it once |
| Hash.FromUrlBase64Url | hash.js:52-56 | unpadded base64 comes back from its URL-safe form |
| Hash.Base64UrlFromUrl | hash.js:52-56 | URL-safe text comes back from its base64 form |
| Hash.Fingerprint | hash.js:41-50 | a fingerprint has at most `HashLength` = 16 characters and no `+`, `/` or `=` |
| Hash.FingerprintLength | hash.js:49 | exactly 16 characters when the digest's first 16 hold no `=` |
| Hash.FingerprintUrlSafe | hash.js:49 | over a base64 digest the fingerprint is URL-safe and holds no `.` or `/` |
| Hash.NewName | hash.js:24-26 | `${nameParts[0]}-${hash}.${fullExtension}`; the lemmas below state what it does to the name |
| Hash.NewPath | hash.js:23-27 | the new name joined to the directory of the old path; `NewPathKeepsDirAndExtension` states what it keeps |
| Hash.NewNameInsertsBeforeFirstDot | hash.js:24-26 | for a name with a `.`, the new name is what precedes its first `.`, then `-` and the fingerprint, then that `.` and everything after it |
| Hash.NewNameSegments | hash.js:24-26 | split on `.`, the new name has the old tail segments and a first segment extended by `-` and the fingerprint |
| Hash.NewNameKeepsExt | hash.js:24-26 | `path.extname` of the new name equals that of the old |
| Hash.NewNameValid | hash.js:24-27 | the new name is a valid entry name |
| Hash.NewPathKeepsDirAndExtension | hash.js:23-27 | a renamed, non-excluded file keeps its directory, its extension and its tail segments |
| Hash.Move | hash.js:29 | after `renameSync` the new path holds the old bytes, the old path is gone unless it is the new one, and every other path keeps its bytes |
| Hash.Eligible | hash.js:16-19 | the eligible paths are walked paths that are not skipped |
| Hash.RenameAll | hash.js:15-32 | no more renames than walked paths |
| Hash.RenameAllOrigins | hash.js:15-32 | the recorded originals are the eligible paths in walk order (a prefix when a read failed), and an unreadable path is a walked, eligible path absent from the files |
| Hash.SkippedNeverRenamed | hash.js:16-19 | every recorded original is a walked path that is not skipped |
| Hash.ExcludedNeverRenamed | hash.js:16-19 | a file with extension `""`, `.htm`, `.html`, `.json`, `.txt` or `.xml` never appears in `renames` |
| Hash.HashAll | hash.js:15-32 | the loop of `run` with the real skip test and the real naming; the lemmas below state its renames and files |
| Hash.RenameAllFrame | hash.js:15-32 | a file that no rename takes as original or as new path keeps its bytes |
| Hash.ExcludedKeepsBytes | hash.js:16-19 | over a walk of well-formed paths and a base64 digest, a file with an excluded extension keeps its path and its bytes |
| Hash.RenameAllAppend | hash.js:11-31 | processing `a + b` records `a`'s renames unchanged and then `b`'s against the files `a` left |
| Hash.RenameAllDependsOnlyOnBytes | hash.js:21-27 | file maps with the same bytes at the walked paths give the same renames |
| Hash.RenamesNamed | hash.js:21-31 | every recorded new path is the original's name for some file contents |
| Hash.RenameAllReadsOwnBytes | hash.js:21-31 | when no path is walked twice and no new name is a walked path, every recorded new path is the name computed from its original's own bytes as they stood before the pass |
| Hash.RenameKeepsDirAndExtension | hash.js:21-29 | with a base64 digest, one renamed file keeps directory, extension and tail segments, and its first segment only grows |
| Hash.RenamesKeepDirAndExtension | hash.js:15-32 | the same for every rename `run` records over a walk of well-formed paths |
| Hash.RenameFiles | hash.js:15-32 | the loop's renames, files and unreadable path equal `RenameAll` |
| Hash.Run | hash.js:10-39 | `run` renames as `HashAll` over the unfiltered walk, and reports a read failure or the walk's failure |
| Min.TypeOf | min.js:23-48 | `.css` is css, `.js` and `.mjs` are js, `.svg` is svg, and every other extension is not processed |
| Min.Classify | min.js:23-26 | the asset type of a path is decided by its `path.extname` through `TypeOf` |
| Min.Utf8Len | min.js:57 | the UTF-8 size lies between one and four bytes per character |
| Min.Put | min.js:61-66 | updating one bucket leaves the two others unchanged |
| Min.Kept | min.js:53-62 | the file changes only to a strictly smaller minifier output; a failed minifier leaves the original; the kept text is never larger |
| Min.Tally | min.js:57-66 | one file adds one to `count`, its size to `ogSize`, the size of the text it keeps to `minSize` (never more than to `ogSize`), and a skip exactly when not rewritten |
| Min.MinAll | min.js:22-67 | the set of paths in the file map does not change |
| Min.MinAllKeepsValid | min.js:57-66 | `skip <= count` and `minSize <= ogSize` hold in every bucket throughout |
| Min.MinAllCounts | min.js:64 | each bucket's `count` grows by the number of walked paths of its type (at most that after a read failure) |
| Min.MinAllFiles | min.js:23-62 | no file grows, and a file not walked or of no asset type keeps its contents |
| Min.MinAllSizes | min.js:57-66 | when every file was read and no path repeats, each bucket's `ogSize` grows by its files' sizes before and `minSize` by their sizes after |
| Min.MinAllKept | min.js:53-62 | when every file was read and no path repeats, each walked file of an asset type ends holding `Kept` of its original text |
| Min.MinifyFiles | min.js:22-67 | the loop's counters, files and unreadable path equal `MinAll` from zero counters |
| Min.Run | min.js:11-67 | `run` minifies as `MinAll` over the unfiltered walk and reports a read failure or the walk's failure |
| Min.RunStatsValid | min.js:12-66 | `run` ends with valid counters in all three buckets |
| Prepa.CommandOf | prepa.js:45-48 | exactly `go`, `min`, `hash`, `rename` and `zip` are commands |
| Prepa.NameOf | prepa.js:45 | each command's name is recognised as that command |
| Prepa.CommandOfNameOf | prepa.js:45 | a recognised name is its command's name |
| Prepa.ParseArgs | prepa.js:38-77 | each exit happens exactly when the earlier checks pass and its own check fails; dispatch happens iff the arguments are a command, `--replace` and an existing directory, and nothing more |
| Prepa.Steps | prepa.js:79-101 | `go` runs min, hash, zip in that order; `hash` and `rename` both run the hash pass only; `min` and `zip` run their own pass |

## Left out

- `zip.js` is not part of this model: it pipes streams through gzip and brotli and deletes a sidecar that came out larger. `Prepa.Steps` names its pass only.
- BLAKE2b and Node's base64 encoder (hash.js:41-47) are the parameter `digest`, a function of the bytes; `Hash.Base64Digest` states that its output is base64 when a lemma needs it.
- The read stream's errors other than a missing file are not modelled. A missing file stops `run` with `ReadFailed`.
- csso, terser and svgo are the parameter `minify`; its `None` stands for a minifier that threw or returned nothing.
- The file system is a tree of entries (`Utils.Entry`) and maps from path to bytes or text. `existsSync`/`statSync(dir).isDirectory()` is the parameter `isDirectory`.
- `Hash.Run` and `Min.Run` compute the walk before the loop, while the source's generator is lazy. Each directory is listed by `readdirSync` before any of its files is renamed or rewritten, and a new name holds no `/`, so the listing is the same.
- `NodePath.Join` is `path.join` only for a directory that is empty, is `/`, or has no trailing `/` and no `.`, `..` or empty segment, joined with an entry name without `/`, `.` or `..`. Node normalises any other directory and the model keeps it as written. For `prepa hash --replace .`, the source walks `a.js` and records `{og: "a.js", new: "a-<fp>.js"}`, while the model has `./a.js` and `./a-<fp>.js`. Likewise `./dist`, `a/../b` and `a//b` give `dist/…`, `b/…` and `a/b/…` in the source. Only that leading directory differs, because every deeper directory is itself a join's result and both build it the same way.
- `Min.Utf8Len` counts a text's UTF-8 bytes; a file that is not valid UTF-8 (which `readFileSync` would decode with replacement characters) is not modelled.
- `Utils.HumanSize` divides exact reals, not doubles, and leaves out the text rendering with `toFixed(2)`.
- Writing `renames` to `prepa-renames.json` (hash.js:38) is left out; `Hash.Run` returns the list.
- A failing `renameSync` (hash.js:29), for example onto an existing directory (EISDIR), and a failing `writeFileSync` (min.js:58) are not modelled: the file maps hold no directories at file paths and writes always succeed.
- `Min.MinAllSizes`, `Min.MinAllKept` and `Hash.RenameAllReadsOwnBytes` assume that no path is walked twice (`Utils.Distinct`), which holds for a tree whose directories list distinct names; the model of the tree does not state that.
- Timing, console output and the savings percentage (hash.js:13, hash.js:34-36, min.js:20, min.js:69-78) are left out. `utils.humanDuration` is not defined in utils.js, so both runs would throw at hash.js:35 and min.js:70, after their loop; the models end at the loop's end.
- `Min.Kept`: in min.js:50 the catch block calls `utils.urlPath`, which utils.js does not define, so a minifier that throws would make `run` reject there. The model follows the evident intent, logging aside: a throwing minifier falls back to the original text.
- `Prepa.ParseArgs`: the usage text and the messages are not modelled; an `Exit` outcome stands for a message followed by exit status 1.
- `Prepa.Steps` gives the order of the passes but not the await semantics. The top-level switch does not await its pass.
- `Prepa.Steps` gives the evident intent of `go` (prepa.js:97-101). As written, `go` awaits `min.run`, which rejects: at the first regular file (utils.js:12, see Findings), and in any case at min.js:70, where `utils.humanDuration` is undefined. So `hash.run` and `zip.run` are never reached, and the code as written stops after min.

## Findings

| source | as written | input that shows it | evidently intended | confidence | as-written member | corrected member |
|---|---|---|---|---|---|---|
| hash.js:15 | `utils.walkDir(directory)` passes no options (as does min.js:22), and utils.js:12 reads `options.ext` on `undefined` at the first regular file | directory `dist` holding `app.js`: the walk throws at `dist/app.js` and yields nothing | no options means no filter: every regular file is yielded | high; not executed | Utils.WalkWithoutOptions | Utils.Walk |
