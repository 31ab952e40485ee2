/**
 * The parts of Node's `path` module and of `String.prototype.split` / `Array.prototype.join`
 * that the pipeline relies on, for POSIX paths written as strings.
 */
module NodePath {

  /** Index of the first occurrence of `c` in `s`, or -1 when there is none. */
  function IndexOf(s: string, c: char): (r: int)
    ensures -1 <= r < |s|
    ensures r == -1 <==> c !in s
    ensures 0 <= r ==> s[r] == c
  {
    if s == [] then -1
    else if s[0] == c then 0
    else
      var k := IndexOf(s[1..], c);
      if k < 0 then -1 else k + 1
  }

  /** `IndexOf` finds the first occurrence, and finds one whenever there is one. */
  lemma {:induction false} IndexOfFirst(s: string, c: char)
    ensures forall i :: 0 <= i < IndexOf(s, c) ==> s[i] != c
  {
    if s != [] && s[0] != c {
      IndexOfFirst(s[1..], c);
      assert s == [s[0]] + s[1..];
      var k := IndexOf(s[1..], c);
      assert forall i :: 1 <= i < k + 1 ==> s[i] == s[1..][i - 1];
    }
  }

  /** Index of the last occurrence of `c` in `s`, or -1 when there is none. */
  function LastIndexOf(s: string, c: char): (r: int)
    ensures -1 <= r < |s|
    ensures r == -1 <==> c !in s
    ensures 0 <= r ==> s[r] == c
  {
    if s == [] then -1
    else if s[|s| - 1] == c then |s| - 1
    else LastIndexOf(s[..|s| - 1], c)
  }

  /** `LastIndexOf` finds the last occurrence, and finds one whenever there is one. */
  lemma {:induction false} LastIndexOfLast(s: string, c: char)
    ensures forall i :: LastIndexOf(s, c) < i < |s| ==> s[i] != c
  {
    if s != [] && s[|s| - 1] != c {
      var init := s[..|s| - 1];
      LastIndexOfLast(init, c);
      assert s == init + [s[|s| - 1]];
      assert forall i :: 0 <= i < |init| ==> s[i] == init[i];
    }
  }

  /** `s.split(c)` for a one-character separator: the pieces between separators, at least one. */
  function Split(s: string, c: char): (parts: seq<string>)
    ensures |parts| >= 1
    decreases |s|
  {
    var k := IndexOf(s, c);
    if k < 0 then [s] else [s[..k]] + Split(s[k + 1..], c)
  }

  /** The text before the first occurrence holds no occurrence. */
  lemma BeforeFirst(s: string, c: char)
    requires c in s
    ensures c !in s[..IndexOf(s, c)]
  {
    IndexOfFirst(s, c);
    var head := s[..IndexOf(s, c)];
    forall j | 0 <= j < |head| ensures head[j] != c { assert head[j] == s[j]; }
  }

  /** No piece of a split holds the separator. */
  lemma {:induction false} SplitPieces(s: string, c: char)
    ensures forall i :: 0 <= i < |Split(s, c)| ==> c !in Split(s, c)[i]
    decreases |s|
  {
    var parts := Split(s, c);
    if c in s {
      var k := IndexOf(s, c);
      var tail := Split(s[k + 1..], c);
      SplitPieces(s[k + 1..], c);
      BeforeFirst(s, c);
      assert parts == [s[..k]] + tail;
      forall i | 0 <= i < |parts| ensures c !in parts[i] {
        if i > 0 {
          assert parts[i] == tail[i - 1];
        }
      }
    }
  }

  /** `parts.join(c)`: the pieces with one separator between neighbours. */
  function JoinWith(parts: seq<string>, c: char): string
  {
    if parts == [] then ""
    else if |parts| == 1 then parts[0]
    else parts[0] + [c] + JoinWith(parts[1..], c)
  }

  /** Joining what was split gives the string back. */
  lemma {:induction false} JoinSplit(s: string, c: char)
    ensures JoinWith(Split(s, c), c) == s
    decreases |s|
  {
    var k := IndexOf(s, c);
    if k >= 0 {
      var head, rest := s[..k], s[k + 1..];
      var tail := Split(rest, c);
      SplitStep(s, c);
      JoinSplit(rest, c);
      JoinCons(head, tail, c);
      Decompose(s, k);
      calc {
        JoinWith(Split(s, c), c);
        JoinWith([head] + tail, c);
        head + [c] + JoinWith(tail, c);
        head + [c] + rest;
        s;
      }
    }
  }

  lemma Decompose(s: string, k: nat)
    requires k < |s|
    ensures s[..k] + [s[k]] + s[k + 1..] == s
  {
  }

  lemma SplitStep(s: string, c: char)
    requires c in s
    ensures Split(s, c) == [s[..IndexOf(s, c)]] + Split(s[IndexOf(s, c) + 1..], c)
  {
    IndexOfFirst(s, c);
  }

  lemma JoinCons(head: string, tail: seq<string>, c: char)
    requires |tail| >= 1
    ensures JoinWith([head] + tail, c) == head + [c] + JoinWith(tail, c)
  {
    assert ([head] + tail)[1..] == tail;
  }

  /** Splitting what was joined gives the pieces back, when no piece holds the separator. */
  lemma {:induction false} SplitJoin(parts: seq<string>, c: char)
    requires |parts| >= 1
    requires forall i :: 0 <= i < |parts| ==> c !in parts[i]
    ensures Split(JoinWith(parts, c), c) == parts
  {
    if |parts| == 1 {
      IndexOfFirst(parts[0], c);
    } else {
      SplitJoin(parts[1..], c);
      SplitAtFirst(parts[0], JoinWith(parts[1..], c), c);
      assert parts == [parts[0]] + parts[1..];
    }
  }

  /** A string that begins with a separator-free piece and a separator splits off that piece first. */
  lemma SplitAtFirst(head: string, tail: string, c: char)
    requires c !in head
    ensures Split(head + [c] + tail, c) == [head] + Split(tail, c)
  {
    var s := head + [c] + tail;
    IndexOfFirst(s, c);
    assert s[|head|] == c;
    assert s[..|head|] == head;
    assert c in s;
    var k := IndexOf(s, c);
    assert k == |head|;
    assert s[k + 1..] == tail;
  }

  /**
   * An entry name as `readdir` returns it: not empty, no `/`, and neither `.` nor `..`.
   */
  predicate ValidName(name: string)
  {
    name != [] && '/' !in name && name != "." && name != ".."
  }

  /**
   * A directory path the model joins to: empty (the current directory), the root `/`, or not
   * ending in `/`. Its `.`, `..` and empty segments are kept as written, where `path.join`
   * would normalise them.
   */
  predicate NormalDir(dir: string)
  {
    dir == [] || dir == "/" || dir[|dir| - 1] != '/'
  }

  /** `path.join(dir, name)` for such a directory and an entry name, without normalisation. */
  function Join(dir: string, name: string): (p: string)
    ensures dir <= p
    ensures |name| <= |p| && p[|p| - |name|..] == name
    ensures |p| <= |dir| + 1 + |name|
    ensures |p| == |dir| + 1 + |name| ==> p[|dir|] == '/'
  {
    if dir == [] then name
    else if dir[|dir| - 1] == '/' then dir + name
    else dir + "/" + name
  }

  /** `path.parse(p).dir`: everything before the last `/` (the root `/` itself when that is the first character). */
  function Dirname(p: string): (d: string)
    ensures d <= p
    ensures d == [] <==> '/' !in p
  {
    var i := LastIndexOf(p, '/');
    if i < 0 then "" else if i == 0 then "/" else p[..i]
  }

  /** `path.parse(p).base`: everything after the last `/`. */
  function Basename(p: string): (b: string)
    ensures '/' !in b
    ensures |b| <= |p| && b == p[|p| - |b|..]
    ensures '/' !in p ==> b == p
  {
    LastIndexOfLast(p, '/');
    p[LastIndexOf(p, '/') + 1..]
  }

  /**
   * `path.extname` of a base name: from its last `.` to the end, except that a name
   * without a `.`, one whose only `.` is its first character, and `..` have none.
   */
  function NameExt(name: string): (ext: string)
    ensures ext == [] || (ext[0] == '.' && |ext| < |name|)
  {
    var k := LastIndexOf(name, '.');
    if k <= 0 || name == ".." then "" else name[k..]
  }

  /**
   * What `NameExt` picks: a nonempty extension is the suffix from the name's last `.`, and
   * there is none exactly for `..` and for names with no `.` after the first character.
   */
  lemma NameExtLastDot(name: string)
    ensures var ext := NameExt(name);
      && (ext != [] ==> ext == name[|name| - |ext|..] && '.' !in ext[1..])
      && (ext == [] <==> name == ".." || forall i :: 0 < i < |name| ==> name[i] != '.')
  {
    LastIndexOfLast(name, '.');
  }

  /** `path.extname(p)`: the extension of the last path segment. */
  function Extname(p: string): (ext: string)
    ensures ext == [] || ext[0] == '.'
    ensures '/' !in ext
    ensures |ext| <= |p| && ext == p[|p| - |ext|..]
  {
    var b := Basename(p);
    var ext := NameExt(b);
    SuffixOfSuffix(p, b, ext);
    ext
  }

  /** A path made of a directory in normal form and an entry name, recoverable from it. */
  predicate InDir(p: string)
  {
    NormalDir(Dirname(p)) && ValidName(Basename(p)) && p == Join(Dirname(p), Basename(p))
  }

  /** `path.parse` undoes `Join`: the directory and the name come back unchanged. */
  lemma JoinParse(dir: string, name: string)
    requires NormalDir(dir) && ValidName(name)
    ensures Dirname(Join(dir, name)) == dir
    ensures Basename(Join(dir, name)) == name
    ensures InDir(Join(dir, name)) && NormalDir(Join(dir, name))
  {
    var p := Join(dir, name);
    var i := LastIndexOf(p, '/');
    LastIndexOfLast(p, '/');
    if dir == [] {
      assert p == name;
    } else {
      var j := if dir[|dir| - 1] == '/' then |dir| - 1 else |dir|;
      assert p[j] == '/';
      assert p[j + 1..] == name;
      assert i == j;
      assert p[..j] == dir[..j];
    }
  }

  /** The last separator of `x + y` is `y`'s, shifted, when `y` has one. */
  lemma {:induction false} LastIndexOfAppend(x: string, y: string, c: char)
    requires c in y
    ensures LastIndexOf(x + y, c) == |x| + LastIndexOf(y, c)
  {
    var xy := x + y;
    if y[|y| - 1] != c {
      var y' := y[..|y| - 1];
      assert y == y' + [y[|y| - 1]];
      assert c in y';
      assert xy[..|xy| - 1] == x + y';
      LastIndexOfAppend(x, y', c);
    }
  }

  /** Appending after a prefix: the extension is the suffix's last `.` onwards, when that `.` is not leading. */
  lemma NameExtAppend(x: string, d: string)
    requires '.' in d && 0 < |x| + LastIndexOf(d, '.') && x + d != ".."
    ensures NameExt(x + d) == d[LastIndexOf(d, '.')..]
  {
    LastIndexOfAppend(x, d, '.');
    var j := LastIndexOf(d, '.');
    assert (x + d)[|x| + j..] == d[j..];
  }

  /** A name's extension lies in a suffix that starts with `.`, so any nonempty prefix may replace the rest. */
  lemma NameExtSwapPrefix(x: string, y: string, d: string)
    requires d != [] && d[0] == '.' && NameExt(x + d) != "" && y != [] && y + d != ".."
    ensures NameExt(y + d) == NameExt(x + d)
  {
    LastIndexOfAppend(x, d, '.');
    NameExtAppend(x, d);
    NameExtAppend(y, d);
  }

  /** A suffix of a suffix is a suffix, and holds no character the middle one lacks. */
  lemma SuffixOfSuffix(p: string, b: string, e: string)
    requires |b| <= |p| && b == p[|p| - |b|..]
    requires |e| <= |b| && e == b[|b| - |e|..]
    ensures e == p[|p| - |e|..]
    ensures forall x :: x in e ==> x in b
  {
    forall x | x in e ensures x in b {
      var i :| 0 <= i < |e| && e[i] == x;
      assert b[|b| - |e| + i] == x;
    }
  }

  /** A suffix is its first character, `c`, followed by the rest. */
  lemma SliceAt(s: string, k: nat, c: char)
    requires k < |s| && s[k] == c
    ensures s[k..] == [c] + s[k + 1..]
  {
  }
}
