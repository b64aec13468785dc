/**
 * The file helpers of the 1.0.0 release (releases/ImageWatermarker-v1.0.0/utils/file_utils.py):
 * making a name safe for the file system, finding a free name by counting, the font
 * name of a font file and the output-directory check.
 */
module FileUtils {
  import opened Wrappers
  import opened Strings
  import opened Paths
  import FileNaming

  /** The characters `get_safe_filename` replaces with `_`. */
  const UnsafeChars: string := "<>:\"/\\|?*"

  /** The characters `strip(' .')` removes from both ends. */
  predicate IsSpaceOrDot(c: char) {
    c == ' ' || c == '.'
  }

  /** The name with every unsafe character turned into `_`. */
  function Sanitised(s: string): (r: string)
    ensures |r| == |s|
    ensures forall i :: 0 <= i < |s| ==> r[i] == (if s[i] in UnsafeChars then '_' else s[i])
  {
    seq(|s|, i requires 0 <= i < |s| => if s[i] in UnsafeChars then '_' else s[i])
  }

  /** What `get_safe_filename` returns: the sanitised name stripped of spaces and dots, or `untitled` when nothing is left. */
  function SafeFilename(filename: string): string {
    var t := StripBy(Sanitised(filename), IsSpaceOrDot);
    if t == [] then "untitled" else t
  }

  /** `get_safe_filename`: one replacement pass per unsafe character, then the strip and the fallback. */
  method GetSafeFilename(filename: string) returns (safe: string)
    ensures safe == SafeFilename(filename)
  {
    safe := filename;
    for n := 0 to |UnsafeChars|
      invariant |safe| == |filename|
      invariant forall i :: 0 <= i < |filename| ==>
        safe[i] == (if filename[i] in UnsafeChars[..n] then '_' else filename[i])
    {
      safe := ReplaceChar(safe, UnsafeChars[n], '_');
    }
    assert UnsafeChars[..|UnsafeChars|] == UnsafeChars;
    assert safe == Sanitised(filename);
    safe := StripBy(safe, IsSpaceOrDot);
    if safe == [] {
      safe := "untitled";
    }
  }

  /**
   * A safe name is never empty, holds no unsafe character, and neither starts nor ends
   * with a space or a dot. It is `untitled` exactly when the name is made of spaces and
   * dots only; otherwise it is the sanitised name with the spaces and dots at both ends cut off.
   */
  lemma SafeFilenameFacts(filename: string)
    ensures var r := SafeFilename(filename);
      r != [] && (forall i :: 0 <= i < |r| ==> r[i] !in UnsafeChars)
      && !IsSpaceOrDot(r[0]) && !IsSpaceOrDot(r[|r| - 1])
      && ((forall i :: 0 <= i < |filename| ==> IsSpaceOrDot(filename[i])) ==> r == "untitled")
      && ((exists i :: 0 <= i < |filename| && !IsSpaceOrDot(filename[i])) ==>
            exists a, b :: 0 <= a <= b <= |filename| && r == Sanitised(filename)[a..b]
              && forall i :: 0 <= i < |filename| && (i < a || b <= i) ==> IsSpaceOrDot(filename[i]))
  {
    var s := Sanitised(filename);
    var t := StripBy(s, IsSpaceOrDot);
    StripByFacts(s, IsSpaceOrDot);
    SanitisedIsSafe(filename);
    var a, b := StripByWindow(s, IsSpaceOrDot);
    if t == [] {
      assert forall i :: 0 <= i < |filename| ==> IsSpaceOrDot(filename[i]);
    } else {
      assert !IsSpaceOrDot(s[a]);
    }
  }

  /** Sanitising leaves no unsafe character and keeps every space and dot where it was. */
  lemma SanitisedIsSafe(filename: string)
    ensures forall c :: c in Sanitised(filename) ==> c !in UnsafeChars
    ensures forall i :: 0 <= i < |filename| ==> (IsSpaceOrDot(Sanitised(filename)[i]) <==> IsSpaceOrDot(filename[i]))
  {
  }

  /** Making a safe name safe again changes nothing. */
  lemma SafeFilenameIdempotent(filename: string)
    ensures SafeFilename(SafeFilename(filename)) == SafeFilename(filename)
  {
    var r := SafeFilename(filename);
    SafeFilenameFacts(filename);
    assert Sanitised(r) == r;
    StripByKeeps(r, IsSpaceOrDot);
  }

  /** The name `ensure_unique_filename` tries with counter `n`: `<stem>_<n><suffix>` beside the path. */
  function Tagged(filePath: string, n: int): string {
    PathJoin(PathParent(filePath), PathStem(filePath) + "_" + IntToDecimal(n) + PathSuffix(filePath))
  }

  /**
   * `ensure_unique_filename`: a free path is returned as is; otherwise the counter runs
   * from 1 with no upper bound until a tagged name is free. The loop ends because every
   * counter gives a different name and only finitely many paths exist.
   */
  method EnsureUniqueFilename(filePath: string, existing: set<string>) returns (path: string)
    ensures filePath !in existing ==> path == filePath
    ensures filePath in existing ==>
      exists n :: n >= 1 && path == Tagged(filePath, n) && path !in existing
        && forall j :: 1 <= j < n ==> Tagged(filePath, j) in existing
  {
    if filePath !in existing {
      return filePath;
    }
    var stem := PathStem(filePath);
    var suffix := PathSuffix(filePath);
    var parent := PathParent(filePath);
    var counter := 1;
    ghost var probed: set<string> := {};
    while true
      invariant counter >= 1
      invariant probed == set j | 1 <= j < counter :: Tagged(filePath, j)
      invariant AllTaken(filePath, existing, counter - 1)
      decreases existing - probed
    {
      var newPath := PathJoin(parent, stem + "_" + IntToDecimal(counter) + suffix);
      assert newPath == Tagged(filePath, counter);
      if newPath !in existing {
        AllTakenMeans(filePath, existing, counter - 1);
        return newPath;
      }
      ProbedGrows(filePath, counter, probed);
      assert newPath in existing - probed;
      probed := probed + {newPath};
      counter := counter + 1;
    }
  }

  /** Whether the tagged names for counters 1 to `n` all exist. */
  predicate AllTaken(filePath: string, existing: set<string>, n: int)
    decreases n
  {
    n <= 0 || (Tagged(filePath, n) in existing && AllTaken(filePath, existing, n - 1))
  }

  lemma {:induction false} AllTakenMeans(filePath: string, existing: set<string>, n: int)
    ensures AllTaken(filePath, existing, n) <==> forall j :: 1 <= j <= n ==> Tagged(filePath, j) in existing
    decreases n
  {
    if n > 0 {
      AllTakenMeans(filePath, existing, n - 1);
      var t := Tagged(filePath, n) in existing;
      assert AllTaken(filePath, existing, n) == (t && AllTaken(filePath, existing, n - 1));
      assert (forall j :: 1 <= j <= n ==> Tagged(filePath, j) in existing)
        == (t && forall j :: 1 <= j <= n - 1 ==> Tagged(filePath, j) in existing);
    }
  }

  /** The next tagged name is new, and adding it extends the names probed so far by one counter. */
  lemma ProbedGrows(filePath: string, counter: int, probed: set<string>)
    requires counter >= 1 && probed == set j | 1 <= j < counter :: Tagged(filePath, j)
    ensures Tagged(filePath, counter) !in probed
    ensures probed + {Tagged(filePath, counter)} == set j | 1 <= j < counter + 1 :: Tagged(filePath, j)
  {
    forall j | 1 <= j < counter
      ensures Tagged(filePath, j) != Tagged(filePath, counter)
    {
      TaggedInjective(filePath, j, counter);
    }
    RangeGrows(j => Tagged(filePath, j), counter);
  }

  /** The images of 1 to `counter` - 1 under `f`, joined by a new image of `counter`, are the images of 1 to `counter`. */
  lemma RangeGrows<T>(f: int -> T, counter: int)
    requires counter >= 1 && forall j :: 1 <= j < counter ==> f(j) != f(counter)
    ensures f(counter) !in set j | 1 <= j < counter :: f(j)
    ensures (set j | 1 <= j < counter :: f(j)) + {f(counter)} == set j | 1 <= j < counter + 1 :: f(j)
  {
    var before := set j | 1 <= j < counter :: f(j);
    var after := set j | 1 <= j < counter + 1 :: f(j);
    forall x | x in after
      ensures x in before + {f(counter)}
    {
      var j :| 1 <= j < counter + 1 && x == f(j);
      if j < counter {
        assert x in before;
      }
    }
    forall x | x in before + {f(counter)}
      ensures x in after
    {
      if x != f(counter) {
        var j :| 1 <= j < counter && x == f(j);
        assert 1 <= j < counter + 1;
      } else {
        assert 1 <= counter < counter + 1;
      }
    }
  }

  /** A stem never holds a separator. */
  lemma PathStemHasNoSlash(p: string)
    ensures '/' !in PathStem(p)
  {
    BasenameHasNoSlash(p);
    var name := PathName(p);
    var i := LastIndex(name, '.');
    if 0 < i < |name| - 1 {
      assert forall c :: c in name[..i] ==> c in name;
    }
  }

  /** Two different counters give two different tagged names. */
  lemma TaggedInjective(filePath: string, a: int, b: int)
    requires a >= 1 && b >= 1
    ensures Tagged(filePath, a) == Tagged(filePath, b) ==> a == b
  {
    if Tagged(filePath, a) == Tagged(filePath, b) {
      TaggedNamesEqual(filePath, a, b);
    }
  }

  lemma TaggedNamesEqual(filePath: string, a: int, b: int)
    requires a >= 1 && b >= 1 && Tagged(filePath, a) == Tagged(filePath, b)
    ensures a == b
  {
    var stem := PathStem(filePath);
    var suffix := PathSuffix(filePath);
    var na := stem + "_" + IntToDecimal(a) + suffix;
    var nb := stem + "_" + IntToDecimal(b) + suffix;
    PathStemHasNoSlash(filePath);
    NotRooted(stem, IntToDecimal(a), suffix);
    NotRooted(stem, IntToDecimal(b), suffix);
    PathJoinInjective(PathParent(filePath), na, nb);
    assert |IntToDecimal(a)| == |IntToDecimal(b)|;
    assert IntToDecimal(a) == na[|stem| + 1..|stem| + 1 + |IntToDecimal(a)|];
    assert IntToDecimal(b) == nb[|stem| + 1..|stem| + 1 + |IntToDecimal(b)|];
    DecimalInjective(a, b);
  }

  /** A name that starts with a separator-free stem and `_` is not an absolute path. */
  lemma NotRooted(stem: string, digits: string, suffix: string)
    requires '/' !in stem
    ensures !StartsWith(stem + "_" + digits + suffix, "/")
  {
    var n := stem + "_" + digits + suffix;
    if stem == [] {
      assert n[0] == '_';
    } else {
      assert n[0] == stem[0];
    }
  }

  /** Joining onto one directory tells relative names apart. */
  lemma PathJoinInjective(dir: string, a: string, b: string)
    requires !StartsWith(a, "/") && !StartsWith(b, "/") && PathJoin(dir, a) == PathJoin(dir, b)
    ensures a == b
  {
    if dir != "." {
      var p := if dir == [] || EndsWith(dir, "/") then dir else dir + "/";
      assert Join(dir, a) == p + a && Join(dir, b) == p + b;
      assert a == (p + a)[|p|..] && b == (p + b)[|p|..];
    }
  }

  /** `get_font_name_from_path`: the stem of the font file's name. */
  function GetFontNameFromPath(fontPath: string): string {
    PathStem(fontPath)
  }

  /** The font name of `<dir>/<name><.ext>` is `name`, for a non-empty name and a one-dot extension. */
  lemma FontNameOfFile(dir: string, name: string, ext: string)
    requires name != [] && '/' !in name + ext
    requires |ext| >= 2 && ext[0] == '.' && '.' !in ext[1..]
    ensures GetFontNameFromPath(dir + "/" + name + ext) == name
  {
    assert dir + "/" + name + ext == dir + "/" + (name + ext);
    BasenameOfJoined(dir, name + ext);
    SuffixOfName(name, ext);
    BasenameAlone(name + ext);
  }

  const NotWritableMessage := "\U{8F93}\U{51FA}\U{76EE}\U{5F55}\U{6CA1}\U{6709}\U{5199}\U{5165}\U{6743}\U{9650}"
  const SameInputDirectoryMessage := "\U{8F93}\U{51FA}\U{76EE}\U{5F55}\U{4E0D}\U{80FD}\U{4E0E}\U{8F93}\U{5165}\U{6587}\U{4EF6}\U{5728}\U{540C}\U{4E00}\U{76EE}\U{5F55}\U{FF0C}\U{4EE5}\U{9632}\U{6B62}\U{8986}\U{76D6}\U{539F}\U{6587}\U{4EF6}"

  /** Whether `dir` is the parent directory of one of the input files. */
  predicate HoldsAnyInput(dir: string, inputFiles: seq<string>) {
    exists p :: p in inputFiles && PathParent(p) == dir
  }

  /**
   * `validate_output_directory` for absolute, normalised paths: an empty directory is
   * refused; a missing one is created, and `createError` is the message when that fails;
   * then a directory outside `writable` is refused; then one that is the parent of an input.
   */
  function ValidateOutputDirectory(outputDir: string, inputFiles: seq<string>, existingDirs: set<string>,
                                   createError: Option<string>, writable: set<string>): (bool, string)
  {
    if outputDir == "" then (false, FileNaming.SelectDirectoryMessage)
    else if outputDir !in existingDirs && createError.Some? then (false, FileNaming.CannotCreateMessage + createError.value)
    else if outputDir !in writable then (false, NotWritableMessage)
    else if HoldsAnyInput(outputDir, inputFiles) then (false, SameInputDirectoryMessage)
    else (true, "")
  }

  /**
   * The directory is accepted exactly when it is named, can be made, is writable and holds
   * no input; only acceptance comes with an empty message, and a failed creation is
   * reported before the write permission and the inputs are looked at.
   */
  lemma ValidateOutputDirectoryIff(outputDir: string, inputFiles: seq<string>, existingDirs: set<string>,
                                   createError: Option<string>, writable: set<string>)
    ensures var r := ValidateOutputDirectory(outputDir, inputFiles, existingDirs, createError, writable);
      (r.0 <==> outputDir != "" && (outputDir in existingDirs || createError.None?) && outputDir in writable
                && forall p :: p in inputFiles ==> PathParent(p) != outputDir)
      && (r.0 <==> r.1 == "")
      && (outputDir != "" && outputDir !in existingDirs && createError.Some? ==>
            r.1 == FileNaming.CannotCreateMessage + createError.value)
  {
  }

  /** For a path holding a separator, with no doubled separator before its name, `os.path.dirname` and `Path.parent` agree. */
  lemma DirnameIsParent(p: string)
    requires '/' in p
    requires var i := LastIndex(p, '/'); i == 0 || p[i - 1] != '/'
    ensures Dirname(p) == PathParent(p)
  {
    var i := LastIndex(p, '/');
    var head := p[..i + 1];
    if i == 0 {
      assert head == "/";
      assert AllSlashes(head);
    } else {
      assert head == p[..i] + "/";
      assert !AllSlashes(head) by {
        assert head[i - 1] != '/';
      }
      RStripSlashAppended(p[..i]);
    }
  }

  /**
   * On paths of that form the release's check accepts only directories the naming
   * manager's check also accepts, and the two agree on every writable directory.
   */
  lemma ReleaseCheckIsStricter(outputDir: string, inputFiles: seq<string>, existingDirs: set<string>,
                               createError: Option<string>, writable: set<string>)
    requires forall p :: p in inputFiles ==> '/' in p && (LastIndex(p, '/') == 0 || p[LastIndex(p, '/') - 1] != '/')
    ensures var release := ValidateOutputDirectory(outputDir, inputFiles, existingDirs, createError, writable);
      var naming := FileNaming.ValidateOutputDirectory(outputDir, inputFiles, existingDirs, createError);
      (release.0 ==> naming.0) && (outputDir in writable ==> release.0 == naming.0)
  {
    forall p | p in inputFiles
      ensures Dirname(p) == PathParent(p)
    {
      DirnameIsParent(p);
    }
    assert HoldsAnyInput(outputDir, inputFiles) == FileNaming.IsParentOfAny(outputDir, inputFiles);
  }
}
