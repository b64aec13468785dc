/**
 * POSIX path handling as `os.path` and `pathlib` do it, for normalised paths
 * (no trailing separator except the root, no `.` or empty components).
 */
module Paths {
  import opened Strings

  /** `s.rfind(c)`: the index of the last `c` in `s`, or -1. */
  function LastIndex(s: string, c: char): (i: int)
    ensures -1 <= i < |s|
    ensures i >= 0 ==> s[i] == c
    ensures forall k :: i < k < |s| ==> s[k] != c
    ensures i == -1 <==> c !in s
    decreases |s|
  {
    if s == [] then -1
    else if s[|s| - 1] == c then |s| - 1
    else LastIndex(s[..|s| - 1], c)
  }

  /** Appending text without `c` leaves the last `c` where it was. */
  lemma LastIndexAppendWithout(s: string, t: string, c: char)
    requires c !in t
    ensures LastIndex(s + t, c) == LastIndex(s, c)
  {
    var j := LastIndex(s, c);
    if j >= 0 {
      assert (s + t)[j] == c;
    }
  }

  /** Appending text that holds `c` moves the last `c` into it. */
  lemma LastIndexAppendWith(s: string, t: string, c: char)
    requires c in t
    ensures LastIndex(s + t, c) == |s| + LastIndex(t, c)
  {
    var j := LastIndex(t, c);
    assert (s + t)[|s| + j] == c;
  }

  predicate IsSlash(c: char) {
    c == '/'
  }

  predicate AllSlashes(s: string) {
    forall k :: 0 <= k < |s| ==> s[k] == '/'
  }

  /** `os.path.basename`: the text after the last separator. */
  function Basename(p: string): string {
    p[LastIndex(p, '/') + 1..]
  }

  /** `os.path.dirname`: the text before the last separator, trailing separators removed unless it is all separators. */
  function Dirname(p: string): string {
    var head := p[..LastIndex(p, '/') + 1];
    if head != [] && !AllSlashes(head) then RStrip(head, IsSlash) else head
  }

  /** `os.path.join(a, b)` for two components. */
  function Join(a: string, b: string): string {
    if StartsWith(b, "/") then b
    else if a == [] || EndsWith(a, "/") then a + b
    else a + "/" + b
  }

  /** `os.path.splitext`: the extension starts at the last dot of the last component, unless only dots precede it. */
  function SplitExt(p: string): (string, string) {
    var sepIndex := LastIndex(p, '/');
    var dotIndex := LastIndex(p, '.');
    if dotIndex > sepIndex && exists k :: sepIndex < k < dotIndex && p[k] != '.' then
      (p[..dotIndex], p[dotIndex..])
    else
      (p, "")
  }

  /** `Path(p).name`. */
  function PathName(p: string): string {
    Basename(p)
  }

  /** `Path(p).suffix`: from the last dot of the name, when it is neither the first nor the last character. */
  function PathSuffix(p: string): string {
    var name := PathName(p);
    var i := LastIndex(name, '.');
    if 0 < i < |name| - 1 then name[i..] else ""
  }

  /** `Path(p).stem`: the name without its suffix. */
  function PathStem(p: string): string {
    var name := PathName(p);
    var i := LastIndex(name, '.');
    if 0 < i < |name| - 1 then name[..i] else name
  }

  /** `str(Path(p).parent)`. */
  function PathParent(p: string): string {
    var i := LastIndex(p, '/');
    if i < 0 then "." else if i == 0 then "/" else p[..i]
  }

  /** `str(Path(dir) / name)`. */
  function PathJoin(dir: string, name: string): string {
    if dir == "." then name else Join(dir, name)
  }

  /** `RStrip` of a string that does not end in the stripped character is the identity. */
  lemma RStripSlashAppended(d: string)
    requires d != [] && d[|d| - 1] != '/'
    ensures RStrip(d + "/", IsSlash) == d
  {
    assert (d + "/")[..|d|] == d;
  }

  /** Joining a separator-free name onto a directory keeps that directory and that name. */
  lemma DirnameOfJoin(p: string, n: string)
    requires '/' !in n
    ensures Dirname(Join(Dirname(p), n)) == Dirname(p)
    ensures Basename(Join(Dirname(p), n)) == n
  {
    var d := Dirname(p);
    var head := p[..LastIndex(p, '/') + 1];
    var j := Join(d, n);
    RStripFacts(head, IsSlash);
    if d == [] {
      assert j == n;
      assert n[..0] == [];
    } else if AllSlashes(d) {
      assert EndsWith(d, "/");
      assert j == d + n;
      LastIndexAppendWithout(d, n, '/');
      assert j[..|d|] == d;
    } else {
      assert d == RStrip(head, IsSlash);
      assert !EndsWith(d, "/");
      assert j == (d + "/") + n;
      LastIndexAppendWithout(d + "/", n, '/');
      assert j[..|d| + 1] == d + "/";
      RStripSlashAppended(d);
    }
  }

  /** A base name never holds a separator. */
  lemma BasenameHasNoSlash(p: string)
    ensures '/' !in Basename(p)
  {
    var i := LastIndex(p, '/');
    var b := p[i + 1..];
    forall k | 0 <= k < |b|
      ensures b[k] != '/'
    {
      assert b[k] == p[i + 1 + k];
    }
  }

  /** The name after the last separator is the base name. */
  lemma BasenameOfJoined(dir: string, name: string)
    requires '/' !in name
    ensures Basename(dir + "/" + name) == name
  {
    LastIndexAppendWithout(dir + "/", name, '/');
    assert (dir + "/")[|dir|] == '/';
    assert (dir + "/" + name)[|dir| + 1..] == name;
  }

  /** A name that is a non-empty stem and a dot followed by dot-free text has that text, with its dot, as suffix. */
  lemma SuffixOfName(stem: string, ext: string)
    requires stem != [] && '/' !in stem + ext
    requires |ext| >= 2 && ext[0] == '.' && '.' !in ext[1..]
    ensures PathSuffix(stem + ext) == ext && PathStem(stem + ext) == stem
  {
    var name := stem + ext;
    BasenameAlone(name);
    LastIndexAppendWithout(".", ext[1..], '.');
    assert ext == "." + ext[1..];
    assert LastIndex(ext, '.') == 0;
    LastIndexAppendWith(stem, ext, '.');
    var i := LastIndex(name, '.');
    assert i == |stem| && 0 < i < |name| - 1;
    assert name[..i] == stem && name[i..] == ext;
  }

  /** A name without separators is its own base name. */
  lemma BasenameAlone(name: string)
    requires '/' !in name
    ensures Basename(name) == name
  {
    assert LastIndex(name, '/') == -1;
  }

  /** A name that is a dot followed by dot-free text has no suffix: the leading dot marks a hidden file. */
  lemma HiddenNameHasNoSuffix(name: string)
    requires |name| >= 1 && name[0] == '.' && '.' !in name[1..] && '/' !in name
    ensures PathSuffix(name) == ""
  {
    BasenameAlone(name);
    LastIndexAppendWithout(".", name[1..], '.');
    assert name == "." + name[1..];
  }

  /** The directory of a name joined onto a directory that does not end in a separator is that directory. */
  lemma DirnameOfJoined(dir: string, name: string)
    requires '/' !in name
    requires dir != [] && dir[|dir| - 1] != '/'
    ensures Dirname(dir + "/" + name) == dir
  {
    var p := dir + "/" + name;
    LastIndexAppendWithout(dir + "/", name, '/');
    assert (dir + "/")[|dir|] == '/';
    var head := p[..|dir| + 1];
    assert head == dir + "/";
    assert !AllSlashes(head) by {
      assert head[|dir| - 1] != '/';
    }
    RStripSlashAppended(dir);
  }

  /** Text free of dots and separators, not starting with a dot, inserted between stem and extension leaves the extension where it was. */
  lemma SplitExtAfterTag(b: string, mid: string)
    requires '/' !in b && '/' !in mid && '.' !in mid && mid != []
    ensures SplitExt(SplitExt(b).0 + mid + SplitExt(b).1) == (SplitExt(b).0 + mid, SplitExt(b).1)
  {
    var stem := SplitExt(b).0;
    var ext := SplitExt(b).1;
    var d := LastIndex(b, '.');
    if ext != "" {
      assert stem == b[..d] && ext == b[d..];
      assert forall c :: c in stem ==> c in b;
      assert forall c :: c in ext ==> c in b;
      assert '.' !in ext[1..] by {
        forall k | 0 <= k < |ext| - 1 ensures ext[1..][k] != '.' {
          assert ext[1..][k] == b[d + 1 + k];
        }
      }
      TagBeforeExt(stem, mid, ext);
    } else {
      assert stem == b && stem + mid + ext == b + mid;
      TagAtEnd(b, mid);
    }
  }

  /** A tag without dots put before an extension of one dot keeps that extension. */
  lemma TagBeforeExt(stem: string, mid: string, ext: string)
    requires '/' !in stem && '/' !in mid && '/' !in ext && '.' !in mid && mid != []
    requires |ext| >= 1 && ext[0] == '.' && '.' !in ext[1..]
    ensures SplitExt(stem + mid + ext) == (stem + mid, ext)
  {
    var n := stem + mid + ext;
    assert '/' !in n;
    assert ext == "." + ext[1..];
    LastIndexAppendWithout(".", ext[1..], '.');
    LastIndexAppendWith(stem + mid, ext, '.');
    assert n[|stem|] == mid[0];
    assert n[..|stem| + |mid|] == stem + mid && n[|stem| + |mid|..] == ext;
  }

  /** A tag without dots appended to a name with no extension leaves it without one. */
  lemma TagAtEnd(b: string, mid: string)
    requires '/' !in b && '/' !in mid && '.' !in mid
    requires SplitExt(b).1 == ""
    ensures SplitExt(b + mid) == (b + mid, "")
  {
    var n := b + mid;
    assert '/' !in n;
    LastIndexAppendWithout(b, mid, '.');
    var d := LastIndex(b, '.');
    if d > -1 {
      assert forall k :: -1 < k < d ==> n[k] == b[k];
    }
  }
}
