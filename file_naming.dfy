/**
 * `NamingRule` and `FileNamingManager` of utils/file_naming.py: output names built
 * from four rules, the `_1` … `_9999` probe for a free name followed by a timestamp,
 * and the output-directory check. File existence is a set of paths; the clock is a
 * parameter.
 */
module FileNaming {
  import opened Wrappers
  import opened Strings
  import opened Paths

  datatype NamingRule = KeepOriginal | AddPrefix | AddSuffix | PrefixAndSuffix

  /** The enum's values. */
  function RuleValue(rule: NamingRule): string {
    match rule
    case KeepOriginal => "keep_original"
    case AddPrefix => "add_prefix"
    case AddSuffix => "add_suffix"
    case PrefixAndSuffix => "prefix_suffix"
  }

  /** What a caller passes as the rule: one of the four, or some other value, which the `else` branches handle. */
  datatype RuleArg = Known(rule: NamingRule) | Unrecognised

  const DefaultPrefix := "wm_"
  const DefaultSuffix := "_watermarked"

  /** ".jpg" for JPEG and ".png" for PNG in any case; any other format keeps the original's extension. */
  function NewExtension(outputFormat: string, originalName: string): string {
    if Upper(outputFormat) == "JPEG" then ".jpg"
    else if Upper(outputFormat) == "PNG" then ".png"
    else SplitExt(originalName).1
  }

  /** The rule applied to a stem and an extension; an empty prefix or suffix means the default one. */
  function Decorate(stem: string, ext: string, rule: RuleArg, customPrefix: string, customSuffix: string): string {
    var prefix := if customPrefix != "" then customPrefix else DefaultPrefix;
    var suffix := if customSuffix != "" then customSuffix else DefaultSuffix;
    match rule
    case Known(KeepOriginal) => stem + ext
    case Known(AddPrefix) => prefix + stem + ext
    case Known(AddSuffix) => stem + suffix + ext
    case Known(PrefixAndSuffix) => prefix + stem + suffix + ext
    case Unrecognised => stem + DefaultSuffix + ext
  }

  /**
   * `preview_filename`: the decorated stem of the name with the format's extension. An
   * output format that is not a string (`None` here) makes `.upper()` raise, and the
   * name is returned as given.
   */
  function PreviewFilename(originalName: string, rule: RuleArg, customPrefix: string, customSuffix: string,
                           outputFormat: Option<string>): string
  {
    match outputFormat
    case None => originalName
    case Some(f) => Decorate(SplitExt(originalName).0, NewExtension(f, originalName), rule, customPrefix, customSuffix)
  }

  /** `splitext` cuts a path in two without losing anything. */
  lemma SplitExtJoins(p: string)
    ensures SplitExt(p).0 + SplitExt(p).1 == p
  {
    var d := LastIndex(p, '.');
    if SplitExt(p).1 != "" {
      assert p[..d] + p[d..] == p;
    }
  }

  /** What goes before the stem: the prefix (the default one when empty) under the two prefix rules, nothing otherwise. */
  function Lead(rule: RuleArg, customPrefix: string): string {
    if rule == Known(AddPrefix) || rule == Known(PrefixAndSuffix) then
      (if customPrefix == "" then "wm_" else customPrefix)
    else ""
  }

  /**
   * What goes after the stem: the suffix (the default one when empty) under the two suffix
   * rules, the default suffix for an unrecognised rule, and nothing when keeping the name.
   */
  function Tail(rule: RuleArg, customSuffix: string): string {
    if rule == Known(AddSuffix) || rule == Known(PrefixAndSuffix) then
      (if customSuffix == "" then "_watermarked" else customSuffix)
    else if rule == Unrecognised then "_watermarked"
    else ""
  }

  /**
   * The preview is the lead, the stem, the tail and the format's extension (".jpg" for
   * JPEG, ".png" for PNG), and keeping the name under any other format gives the name back.
   */
  lemma PreviewShape(originalName: string, rule: RuleArg, customPrefix: string, customSuffix: string, f: string)
    ensures var r := PreviewFilename(originalName, rule, customPrefix, customSuffix, Some(f));
      var stem := SplitExt(originalName).0;
      var ext := NewExtension(f, originalName);
      r == Lead(rule, customPrefix) + stem + Tail(rule, customSuffix) + ext
      && EndsWith(r, ext)
      && (Upper(f) == "JPEG" ==> EndsWith(r, ".jpg"))
      && (Upper(f) == "PNG" ==> EndsWith(r, ".png"))
      && StartsWith(r, Lead(rule, customPrefix) + stem)
      && (rule == Known(KeepOriginal) && Upper(f) != "JPEG" && Upper(f) != "PNG" ==> r == originalName)
  {
    var stem := SplitExt(originalName).0;
    var ext := NewExtension(f, originalName);
    DecorateShape(stem, ext, rule, customPrefix, customSuffix);
    if rule == Known(KeepOriginal) && Upper(f) != "JPEG" && Upper(f) != "PNG" {
      SplitExtJoins(originalName);
    }
  }

  /**
   * The decorated name is the lead, the stem, the tail and the extension, in that order:
   * it starts with the lead and the stem, and ends with the extension.
   */
  lemma DecorateShape(stem: string, ext: string, rule: RuleArg, customPrefix: string, customSuffix: string)
    ensures var r := Decorate(stem, ext, rule, customPrefix, customSuffix);
      var lead := Lead(rule, customPrefix);
      r == lead + stem + Tail(rule, customSuffix) + ext
      && EndsWith(r, ext) && StartsWith(r, lead + stem)
  {
    var r := Decorate(stem, ext, rule, customPrefix, customSuffix);
    var lead, tail := Lead(rule, customPrefix), Tail(rule, customSuffix);
    assert r == (lead + stem) + tail + ext;
    ThreePartShape(lead + stem, tail, ext);
  }

  lemma ThreePartShape(head: string, middle: string, last: string)
    ensures StartsWith(head + middle + last, head) && EndsWith(head + middle + last, last)
  {
    var r := head + middle + last;
    assert r[|r| - |last|..] == last;
    assert r[..|head|] == head;
  }

  /** `preview_filename` falls back to the name it was given when it raises. */
  lemma PreviewFailureKeepsName(originalName: string, rule: RuleArg, customPrefix: string, customSuffix: string)
    ensures PreviewFilename(originalName, rule, customPrefix, customSuffix, None) == originalName
  {
  }

  /** The descriptions `get_naming_rule_description` shows. */
  function GetNamingRuleDescription(rule: RuleArg): string {
    match rule
    case Known(KeepOriginal) => "\U{4FDD}\U{7559}\U{539F}\U{6587}\U{4EF6}\U{540D}"
    case Known(AddPrefix) => "\U{6DFB}\U{52A0}\U{524D}\U{7F00}"
    case Known(AddSuffix) => "\U{6DFB}\U{52A0}\U{540E}\U{7F00}"
    case Known(PrefixAndSuffix) => "\U{6DFB}\U{52A0}\U{524D}\U{7F00}\U{548C}\U{540E}\U{7F00}"
    case Unrecognised => "\U{672A}\U{77E5}\U{89C4}\U{5219}"
  }

  /** Each rule has its own description and value, and an unrecognised rule gets the "unknown rule" text, shared with none of them. */
  lemma DescriptionsDistinct(a: RuleArg, b: RuleArg)
    ensures GetNamingRuleDescription(a) == GetNamingRuleDescription(b) <==> a == b
    ensures a.Known? && b.Known? ==> (RuleValue(a.rule) == RuleValue(b.rule) <==> a == b)
  {
    if a != b {
      assert Signature(GetNamingRuleDescription(a), 2) != Signature(GetNamingRuleDescription(b), 2);
      if a.Known? && b.Known? {
        assert Signature(RuleValue(a.rule), 4) != Signature(RuleValue(b.rule), 4);
      }
    }
  }

  /** The length, the first character and the character at `i` of a text, enough to tell the rules' texts apart. */
  function Signature(t: string, i: nat): (int, char, char) {
    (|t|, if |t| > 0 then t[0] else ' ', if |t| > i then t[i] else ' ')
  }

  /** The name `handle_filename_conflict` tries with a tag: `<stem>_<n><ext>` in the same directory. */
  function Candidate(dir: string, stem: string, ext: string, n: int): string {
    Join(dir, stem + "_" + IntToDecimal(n) + ext)
  }

  const MaxProbe := 9999

  /** The probe from counter `n` on: the first free candidate up to 9999, then the timestamped one. */
  function ProbeFrom(dir: string, stem: string, ext: string, existing: set<string>, timestamp: int, n: int): string
    requires 1 <= n <= MaxProbe
    decreases MaxProbe - n
  {
    if Candidate(dir, stem, ext, n) !in existing then Candidate(dir, stem, ext, n)
    else if n == MaxProbe then Candidate(dir, stem, ext, timestamp)
    else ProbeFrom(dir, stem, ext, existing, timestamp, n + 1)
  }

  /** What `handle_filename_conflict` returns: a free path as is, otherwise the probe from 1. */
  function ResolveConflict(filePath: string, existing: set<string>, timestamp: int): string {
    if filePath !in existing then filePath
    else
      var parts := SplitExt(Basename(filePath));
      ProbeFrom(Dirname(filePath), parts.0, parts.1, existing, timestamp, 1)
  }

  /**
   * The probe returns the first free candidate from `n` on, every earlier one being taken;
   * when all up to 9999 are taken it returns the timestamped name.
   */
  lemma {:induction false} ProbeFromIsFirst(dir: string, stem: string, ext: string, existing: set<string>, timestamp: int, n: int)
    requires 1 <= n <= MaxProbe
    ensures var r := ProbeFrom(dir, stem, ext, existing, timestamp, n);
      (exists k :: n <= k <= MaxProbe && r == Candidate(dir, stem, ext, k) && r !in existing && TakenBetween(dir, stem, ext, existing, n, k))
      || (r == Candidate(dir, stem, ext, timestamp) && TakenBetween(dir, stem, ext, existing, n, MaxProbe + 1))
    decreases MaxProbe - n
  {
    var r := ProbeFrom(dir, stem, ext, existing, timestamp, n);
    if Candidate(dir, stem, ext, n) !in existing {
      assert r == Candidate(dir, stem, ext, n) && TakenBetween(dir, stem, ext, existing, n, n);
    } else if n == MaxProbe {
      TakenExtends(dir, stem, ext, existing, n, n + 1);
    } else {
      ProbeFromIsFirst(dir, stem, ext, existing, timestamp, n + 1);
      assert r == ProbeFrom(dir, stem, ext, existing, timestamp, n + 1);
      if r == Candidate(dir, stem, ext, timestamp) && TakenBetween(dir, stem, ext, existing, n + 1, MaxProbe + 1) {
        TakenExtends(dir, stem, ext, existing, n, MaxProbe + 1);
      } else {
        var k :| n + 1 <= k <= MaxProbe && r == Candidate(dir, stem, ext, k) && r !in existing
                 && TakenBetween(dir, stem, ext, existing, n + 1, k);
        TakenExtends(dir, stem, ext, existing, n, k);
      }
    }
  }

  /** Every candidate with a counter from `n` up to but excluding `k` is taken. */
  predicate TakenBetween(dir: string, stem: string, ext: string, existing: set<string>, n: int, k: int) {
    forall j :: n <= j < k ==> Candidate(dir, stem, ext, j) in existing
  }

  lemma TakenExtends(dir: string, stem: string, ext: string, existing: set<string>, n: int, k: int)
    requires n < k && Candidate(dir, stem, ext, n) in existing && TakenBetween(dir, stem, ext, existing, n + 1, k)
    ensures TakenBetween(dir, stem, ext, existing, n, k)
  {
    forall j | n <= j < k
      ensures Candidate(dir, stem, ext, j) in existing
    {
      if j != n {
        assert n + 1 <= j < k;
      }
    }
  }

  /** `str(n)` holds neither a separator nor a dot. */
  lemma DecimalIsPlain(n: int)
    ensures '/' !in IntToDecimal(n) && '.' !in IntToDecimal(n)
  {
    var digits := Decimal(if n < 0 then -n else n);
    assert forall k :: 0 <= k < |digits| ==> DigitValue(digits[k]) < 10;
    assert DigitValue('/') == 99 && DigitValue('.') == 99;
  }

  /**
   * A tagged candidate for a path lies in that path's directory, and `splitext` of its
   * name gives the path's stem with the tag, and the path's extension.
   */
  lemma CandidateKeepsDirAndExt(filePath: string, n: int)
    ensures var parts := SplitExt(Basename(filePath));
      var c := Candidate(Dirname(filePath), parts.0, parts.1, n);
      Dirname(c) == Dirname(filePath) && Basename(c) == parts.0 + "_" + IntToDecimal(n) + parts.1
      && SplitExt(Basename(c)) == (parts.0 + "_" + IntToDecimal(n), parts.1)
  {
    var b := Basename(filePath);
    BasenameHasNoSlash(filePath);
    TaggedName(b, n);
    DirnameOfJoin(filePath, SplitExt(b).0 + "_" + IntToDecimal(n) + SplitExt(b).1);
  }

  /** Tagging the stem of a separator-free name keeps it separator-free and keeps its extension. */
  lemma TaggedName(b: string, n: int)
    requires '/' !in b
    ensures var name := SplitExt(b).0 + "_" + IntToDecimal(n) + SplitExt(b).1;
      '/' !in name && SplitExt(name) == (SplitExt(b).0 + "_" + IntToDecimal(n), SplitExt(b).1)
  {
    var parts := SplitExt(b);
    var mid := "_" + IntToDecimal(n);
    DecimalIsPlain(n);
    SplitExtJoins(b);
    assert forall c :: c in parts.0 || c in parts.1 ==> c in b;
    assert parts.0 + "_" + IntToDecimal(n) + parts.1 == parts.0 + mid + parts.1;
    assert parts.0 + "_" + IntToDecimal(n) == parts.0 + mid;
    SplitExtAfterTag(b, mid);
  }

  /**
   * A path that conflict handling changes keeps its directory and its extension, and its
   * stem gains a tag `_<k>`: a counter from 1 to 9999 or the timestamp.
   */
  lemma ResolveKeepsDirAndExt(filePath: string, existing: set<string>, timestamp: int)
    ensures var r := ResolveConflict(filePath, existing, timestamp);
      var parts := SplitExt(Basename(filePath));
      r == filePath
      || (Dirname(r) == Dirname(filePath) && SplitExt(Basename(r)).1 == parts.1
          && exists k :: (1 <= k <= MaxProbe || k == timestamp) && SplitExt(Basename(r)).0 == parts.0 + "_" + IntToDecimal(k))
  {
    var r := ResolveConflict(filePath, existing, timestamp);
    var parts := SplitExt(Basename(filePath));
    var dir := Dirname(filePath);
    if filePath in existing {
      ProbeFromIsFirst(dir, parts.0, parts.1, existing, timestamp, 1);
      var k :| (1 <= k <= MaxProbe || k == timestamp) && r == Candidate(dir, parts.0, parts.1, k);
      CandidateKeepsDirAndExt(filePath, k);
    }
  }

  /** `handle_filename_conflict`: counters 1 to 9999 probed in turn, then the timestamp. */
  method HandleFilenameConflict(filePath: string, existing: set<string>, timestamp: int) returns (path: string)
    ensures path == ResolveConflict(filePath, existing, timestamp)
  {
    if filePath !in existing {
      return filePath;
    }
    var dirPath := Dirname(filePath);
    var filename := Basename(filePath);
    var parts := SplitExt(filename);
    var stem, ext := parts.0, parts.1;
    var counter := 1;
    while counter <= MaxProbe
      invariant 1 <= counter <= MaxProbe + 1
      invariant ResolveConflict(filePath, existing, timestamp)
        == if counter <= MaxProbe then ProbeFrom(dirPath, stem, ext, existing, timestamp, counter)
           else Candidate(dirPath, stem, ext, timestamp)
      decreases MaxProbe + 1 - counter
    {
      var newPath := Join(dirPath, stem + "_" + IntToDecimal(counter) + ext);
      if newPath !in existing {
        return newPath;
      }
      counter := counter + 1;
    }
    path := Join(dirPath, stem + "_" + IntToDecimal(timestamp) + ext);
  }

  /**
   * `generate_filename`: the preview name of the original's base name joined onto the
   * output directory, then made free of conflicts. When naming raises (a format that is
   * not a string), the fallback `<stem>_watermarked.jpg` is returned without probing.
   */
  method GenerateFilename(originalPath: string, outputDir: string, rule: RuleArg, customPrefix: string,
                          customSuffix: string, outputFormat: Option<string>, existing: set<string>, timestamp: int)
    returns (path: string)
    ensures outputFormat.None? ==> path == Join(outputDir, SplitExt(Basename(originalPath)).0 + "_watermarked.jpg")
    ensures outputFormat.Some? ==>
      path == ResolveConflict(Join(outputDir, PreviewFilename(Basename(originalPath), rule, customPrefix, customSuffix, outputFormat)),
                              existing, timestamp)
  {
    if outputFormat.None? {
      var fallbackName := SplitExt(Basename(originalPath)).0 + "_watermarked.jpg";
      return Join(outputDir, fallbackName);
    }
    var newName := PreviewFilename(Basename(originalPath), rule, customPrefix, customSuffix, outputFormat);
    path := HandleFilenameConflict(Join(outputDir, newName), existing, timestamp);
  }

  const SelectDirectoryMessage := "\U{8BF7}\U{9009}\U{62E9}\U{8F93}\U{51FA}\U{76EE}\U{5F55}"
  const CannotCreateMessage := "\U{65E0}\U{6CD5}\U{521B}\U{5EFA}\U{8F93}\U{51FA}\U{76EE}\U{5F55}: "
  const SameDirectoryMessage := "\U{8F93}\U{51FA}\U{76EE}\U{5F55}\U{4E0D}\U{80FD}\U{4E0E}\U{539F}\U{56FE}\U{7247}\U{76EE}\U{5F55}\U{76F8}\U{540C}\U{FF0C}\U{4EE5}\U{9632}\U{6B62}\U{8986}\U{76D6}\U{539F}\U{6587}\U{4EF6}"

  /** Whether `dir` is the directory of one of the paths. */
  predicate IsParentOfAny(dir: string, paths: seq<string>) {
    exists p :: p in paths && Dirname(p) == dir
  }

  /**
   * `validate_output_directory` for absolute, normalised paths: an empty directory is
   * refused; a missing one is created, and `createError` is the message when that fails;
   * the directory of any original is refused so that no original is overwritten.
   */
  function ValidateOutputDirectory(outputDir: string, originalPaths: seq<string>, existingDirs: set<string>,
                                   createError: Option<string>): (bool, string)
  {
    if outputDir == "" then (false, SelectDirectoryMessage)
    else if outputDir !in existingDirs && createError.Some? then (false, CannotCreateMessage + createError.value)
    else if IsParentOfAny(outputDir, originalPaths) then (false, SameDirectoryMessage)
    else (true, "")
  }

  /** The directory is accepted exactly when it is named, can be made, and holds none of the originals; only acceptance comes with an empty message. */
  lemma ValidateOutputDirectoryIff(outputDir: string, originalPaths: seq<string>, existingDirs: set<string>, createError: Option<string>)
    ensures var r := ValidateOutputDirectory(outputDir, originalPaths, existingDirs, createError);
      (r.0 <==> outputDir != "" && (outputDir in existingDirs || createError.None?)
                && forall p :: p in originalPaths ==> Dirname(p) != outputDir)
      && (r.0 <==> r.1 == "")
  {
  }
}
