/**
 * `ImageProcessor` of core/image_processor.py: which files load, how their mode is
 * normalised, the order-preserving batch loads, the size rule of `resize_image` and
 * the output file name.
 */
module ImageProcessor {
  import opened Wrappers
  import opened Numbers
  import opened Strings
  import opened Paths
  import opened Pixels
  import opened Lists
  import Watermark

  /** The extensions `is_supported_format` accepts, in lower case. */
  const SupportedInputFormats: set<string> := {".jpg", ".jpeg", ".png", ".bmp", ".tiff", ".tif"}

  /** `is_supported_format`: the path's suffix, lower-cased, is one of the six. */
  function IsSupportedFormat(path: string): bool {
    Lower(PathSuffix(path)) in SupportedInputFormats
  }

  /**
   * Only the suffix decides: a file in any directory whose name is a non-empty stem and a
   * dot-led, dot-free extension is supported exactly when the lower-cased extension is
   * one of the six, so "IMG.JPG" is accepted.
   */
  lemma SupportedBySuffix(dir: string, stem: string, ext: string)
    requires stem != [] && '/' !in stem + ext
    requires |ext| >= 2 && ext[0] == '.' && '.' !in ext[1..]
    ensures IsSupportedFormat(dir + "/" + (stem + ext)) <==> Lower(ext) in SupportedInputFormats
    ensures IsSupportedFormat(dir + "/" + (stem + ext)) <==> IsSupportedFormat(dir + "/" + (stem + Lower(ext)))
  {
    SuffixDecides(dir, stem, ext);
    LowerExtension(stem, ext);
    SuffixDecides(dir, stem, Lower(ext));
  }

  /** Lower-casing an extension keeps its shape, and lower-casing twice changes nothing more. */
  lemma LowerExtension(stem: string, ext: string)
    requires '/' !in stem + ext
    requires |ext| >= 2 && ext[0] == '.' && '.' !in ext[1..]
    ensures var low := Lower(ext);
      |low| >= 2 && low[0] == '.' && '.' !in low[1..] && '/' !in stem + low && Lower(low) == low
  {
    var low := Lower(ext);
    forall k | 1 <= k < |low| ensures low[k] != '.' {
      assert ext[k] in ext[1..];
    }
    forall k | 0 <= k < |stem + low| ensures (stem + low)[k] != '/' {
      if k >= |stem| {
        assert ext[k - |stem|] in stem + ext;
      } else {
        assert stem[k] in stem + ext;
      }
    }
  }

  lemma SuffixDecides(dir: string, stem: string, ext: string)
    requires stem != [] && '/' !in stem + ext
    requires |ext| >= 2 && ext[0] == '.' && '.' !in ext[1..]
    ensures IsSupportedFormat(dir + "/" + (stem + ext)) <==> Lower(ext) in SupportedInputFormats
  {
    BasenameOfJoined(dir, stem + ext);
    SuffixOfName(stem, ext);
  }

  /** A hidden file such as ".png" has no suffix, so it is never supported. */
  lemma HiddenFileUnsupported(dir: string, name: string)
    requires |name| >= 1 && name[0] == '.' && '.' !in name[1..] && '/' !in name
    ensures !IsSupportedFormat(dir + "/" + name)
  {
    BasenameOfJoined(dir, name);
    HiddenNameHasNoSuffix(name);
    assert Lower("") == "";
  }

  /** What `Image.open` yields for a file: its pixels (in their RGBA expansion), mode and format. */
  datatype Decoded = Decoded(raster: Raster, mode: string, format: Option<string>)

  /** A decoded file whose raster is well formed, as Pillow's always are. */
  type SoundDecoded = d: Decoded | d.raster.Valid() witness Decoded(Raster(0, 0, []), "", None)

  /** The dictionary `load_image` returns. */
  datatype ImageInfo = ImageInfo(path: string, name: string, image: Raster, size: (nat, nat), mode: string, format: Option<string>)

  /** `convert('RGB')` in the RGBA expansion: every pixel becomes opaque. */
  function DropAlpha(img: Raster): (r: Raster)
    requires img.Valid()
    ensures r.Valid() && r.width == img.width && r.height == img.height
    ensures forall i, j :: 0 <= i < r.height && 0 <= j < r.width ==>
      r.rows[i][j].a == 255 && r.rows[i][j].(a := img.rows[i][j].a) == img.rows[i][j]
  {
    Raster(img.width, img.height,
      seq(img.height, i requires 0 <= i < img.height =>
        seq(img.width, j requires 0 <= j < img.width => img.rows[i][j].(a := 255))))
  }

  /** An image that is already opaque, as an RGB or L image is, is left as it was. */
  lemma DropAlphaOfOpaque(img: Raster)
    requires img.Valid() && forall i, j :: 0 <= i < img.height && 0 <= j < img.width ==> img.rows[i][j].a == 255
    ensures DropAlpha(img) == img
  {
    var r := DropAlpha(img);
    forall i | 0 <= i < img.height
      ensures r.rows[i] == img.rows[i]
    {
      assert forall j :: 0 <= j < img.width ==> r.rows[i][j] == img.rows[i][j];
    }
    assert r.rows == img.rows;
  }

  /**
   * `load_image`: `None` for an unsupported extension (the file is not opened) or a file
   * that does not decode; an image in a mode other than RGB, RGBA or L is converted to
   * RGB, and the converted image has no format.
   */
  function LoadImage(path: string, files: map<string, SoundDecoded>): Option<ImageInfo>
  {
    if !IsSupportedFormat(path) || path !in files then None
    else
      var d := files[path];
      var image := if d.mode in {"RGB", "RGBA", "L"} then d.raster else DropAlpha(d.raster);
      var mode := if d.mode in {"RGB", "RGBA", "L"} then d.mode else "RGB";
      var format := if d.mode in {"RGB", "RGBA", "L"} then d.format else None;
      Some(ImageInfo(path, PathName(path), image, (image.width, image.height), mode, format))
  }

  /** A loaded image is supported, named after its path, sized as decoded, and in mode RGB, RGBA or L. */
  lemma LoadImageFacts(path: string, files: map<string, SoundDecoded>)
    ensures var r := LoadImage(path, files);
      (r.Some? <==> IsSupportedFormat(path) && path in files)
      && (r.Some? ==>
            r.value.path == path && r.value.name == PathName(path)
            && r.value.mode in {"RGB", "RGBA", "L"}
            && r.value.size == (files[path].raster.width, files[path].raster.height)
            && r.value.image.Valid()
            && (files[path].mode in {"RGB", "RGBA", "L"} ==> r.value.image == files[path].raster && r.value.mode == files[path].mode))
  {
  }

  /** `load_image` over a fixed set of files. */
  function Loader(files: map<string, SoundDecoded>): string -> Option<ImageInfo> {
    p => LoadImage(p, files)
  }

  /** The images of the paths that load, in the order of the paths. */
  function LoadedAll(paths: seq<string>, files: map<string, SoundDecoded>): (r: seq<ImageInfo>)
    ensures |r| <= |paths|
  {
    FilterMap(paths, Loader(files))
  }

  /**
   * The batch drops exactly the paths `load_image` rejects: every result is the image of
   * one of the paths, every path that loads contributes its image, and when none loads
   * the result is empty.
   */
  lemma LoadedAllIsOrderedFilter(paths: seq<string>, files: map<string, SoundDecoded>)
    ensures var r := LoadedAll(paths, files);
      |r| <= |paths|
      && (forall k :: 0 <= k < |r| ==> r[k].path in paths && LoadImage(r[k].path, files) == Some(r[k]))
      && (forall p :: p in paths && LoadImage(p, files).Some? ==> LoadImage(p, files).value in r)
      && ((forall p :: p in paths ==> LoadImage(p, files).None?) ==> r == [])
  {
    var f := Loader(files);
    FilterMapMembers(paths, f);
    var r := LoadedAll(paths, files);
    forall k | 0 <= k < |r|
      ensures r[k].path in paths && LoadImage(r[k].path, files) == Some(r[k])
    {
      var x :| x in paths && f(x) == Some(r[k]);
      assert f(x) == LoadImage(x, files);
      LoadImageFacts(x, files);
    }
    forall p | p in paths && LoadImage(p, files).Some?
      ensures LoadImage(p, files).value in r
    {
      assert f(p) == LoadImage(p, files);
    }
    if forall p :: p in paths ==> LoadImage(p, files).None? {
      forall x | x in paths
        ensures f(x).None?
      {
        assert f(x) == LoadImage(x, files);
      }
    }
  }

  /** Loading one more path appends its image, if it loads. */
  lemma LoadedAllSnoc(paths: seq<string>, p: string, files: map<string, SoundDecoded>)
    ensures LoadedAll(paths + [p], files) == LoadedAll(paths, files) + Kept(LoadImage(p, files))
  {
    FilterMapSnoc(paths, p, Loader(files));
    assert Loader(files)(p) == LoadImage(p, files);
  }

  /** The batch keeps the order of its input: loading two lists one after the other gives the two results one after the other. */
  lemma LoadedAllAppend(a: seq<string>, b: seq<string>, files: map<string, SoundDecoded>)
    ensures LoadedAll(a + b, files) == LoadedAll(a, files) + LoadedAll(b, files)
  {
    FilterMapAppend(a, b, Loader(files));
  }

  /** `load_images`: one `load_image` per path, the successes appended in order. */
  method LoadImages(paths: seq<string>, files: map<string, SoundDecoded>) returns (loaded: seq<ImageInfo>)
    ensures loaded == LoadedAll(paths, files)
  {
    loaded := [];
    var i := 0;
    while i < |paths|
      invariant 0 <= i <= |paths|
      invariant loaded == LoadedAll(paths[..i], files)
    {
      var info := LoadImage(paths[i], files);
      LoadStep(paths, i, files);
      if info.Some? {
        loaded := loaded + [info.value];
      }
      i := i + 1;
    }
    assert paths[..|paths|] == paths;
  }

  /** One round of `load_images`' loop. */
  lemma LoadStep(paths: seq<string>, i: nat, files: map<string, SoundDecoded>)
    requires i < |paths|
    ensures LoadedAll(paths[..i + 1], files) == LoadedAll(paths[..i], files) + Kept(LoadImage(paths[i], files))
  {
    assert paths[..i + 1] == paths[..i] + [paths[i]];
    LoadedAllSnoc(paths[..i], paths[i], files);
  }

  /** What the file system holds at a path. */
  datatype Entry = File | Directory

  /** The supported regular files among a directory listing, in listing order. */
  function SupportedFiles(listing: seq<string>, fs: map<string, Entry>): (r: seq<string>)
    decreases |listing|
  {
    if listing == [] then []
    else
      var p := listing[|listing| - 1];
      SupportedFiles(listing[..|listing| - 1], fs) + (if p in fs && fs[p] == File && IsSupportedFormat(p) then [p] else [])
  }

  /** Only supported regular files from the listing are kept. */
  lemma {:induction false} SupportedFilesFacts(listing: seq<string>, fs: map<string, Entry>)
    ensures var r := SupportedFiles(listing, fs);
      |r| <= |listing|
      && forall k :: 0 <= k < |r| ==> r[k] in listing && r[k] in fs && fs[r[k]] == File && IsSupportedFormat(r[k])
    decreases |listing|
  {
    if listing != [] {
      var init := listing[..|listing| - 1];
      SupportedFilesFacts(init, fs);
      var r := SupportedFiles(listing, fs);
      var rest := SupportedFiles(init, fs);
      forall k | 0 <= k < |r|
        ensures r[k] in listing && r[k] in fs && fs[r[k]] == File && IsSupportedFormat(r[k])
      {
        if k < |rest| {
          assert r[k] == rest[k];
          assert rest[k] in init;
        }
      }
    }
  }

  /**
   * `load_images_from_folder`: nothing for a path that is missing or not a directory;
   * otherwise the supported regular files of the listing (`iterdir`, whose order is the
   * file system's and is given here), loaded in that order.
   */
  method LoadImagesFromFolder(folder: string, fs: map<string, Entry>, listing: seq<string>, files: map<string, SoundDecoded>)
    returns (loaded: seq<ImageInfo>)
    ensures folder !in fs || fs[folder] != Directory ==> loaded == []
    ensures folder in fs && fs[folder] == Directory ==> loaded == LoadedAll(SupportedFiles(listing, fs), files)
  {
    if folder !in fs || fs[folder] != Directory {
      return [];
    }
    var imageFiles := CollectSupportedFiles(listing, fs);
    loaded := LoadImages(imageFiles, files);
  }

  /** The loop of `load_images_from_folder` that collects the supported regular files of the listing. */
  method CollectSupportedFiles(listing: seq<string>, fs: map<string, Entry>) returns (imageFiles: seq<string>)
    ensures imageFiles == SupportedFiles(listing, fs)
  {
    imageFiles := [];
    var i := 0;
    while i < |listing|
      invariant 0 <= i <= |listing|
      invariant imageFiles == SupportedFiles(listing[..i], fs)
    {
      var p := listing[i];
      assert listing[..i + 1][..i] == listing[..i];
      if p in fs && fs[p] == File && IsSupportedFormat(p) {
        imageFiles := imageFiles + [p];
      }
      i := i + 1;
    }
    assert listing[..|listing|] == listing;
  }

  /** What `resize_image` decides: keep the image, resize to a size, or raise. */
  datatype ResizePlan = Unchanged | ResizeTo(width: int, height: int) | Raises

  /** Python truthiness of an optional number. */
  predicate Truthy(x: Option<int>) {
    x.Some? && x.value != 0
  }

  /**
   * The size arithmetic of `resize_image`: a non-zero percentage wins; then width and
   * height together; then a width or a height alone, keeping the ratio (a zero-sized
   * side raises `ZeroDivisionError`); with none of them the image is returned as is.
   */
  function PlanResize(w: nat, h: nat, width: Option<int>, height: Option<int>, scalePercent: Option<real>): ResizePlan {
    if scalePercent.Some? && scalePercent.value != 0.0 then
      ResizeTo(Watermark.ScaledDimension(w, scalePercent.value), Watermark.ScaledDimension(h, scalePercent.value))
    else if Truthy(width) && Truthy(height) then ResizeTo(width.value, height.value)
    else if Truthy(width) then
      if w == 0 then Raises else ResizeTo(width.value, Trunc(h as real * (width.value as real / w as real)))
    else if Truthy(height) then
      if h == 0 then Raises else ResizeTo(Trunc(w as real * (height.value as real / h as real)), height.value)
    else Unchanged
  }

  /** `resize_image`: `None` stands for an exception, including Pillow's refusal of a side below 1. */
  function ResizeImage(img: Raster, width: Option<int>, height: Option<int>, scalePercent: Option<real>,
                       resample: (Raster, nat, nat) -> Raster): Option<Raster>
  {
    match PlanResize(img.width, img.height, width, height, scalePercent)
    case Unchanged => Some(img)
    case Raises => None
    case ResizeTo(a, b) => if a >= 1 && b >= 1 then Some(resample(img, a, b)) else None
  }

  /**
   * The precedence of `resize_image`: a non-zero percentage decides alone whatever else is
   * given; two non-zero sides are used as given; a positive width alone sets the height to
   * the largest whole number whose ratio to it does not exceed the original's; nothing
   * given keeps the image.
   */
  lemma ResizePrecedence(w: nat, h: nat, width: Option<int>, height: Option<int>, scalePercent: Option<real>)
    ensures scalePercent.Some? && scalePercent.value != 0.0 ==>
      PlanResize(w, h, width, height, scalePercent) == PlanResize(w, h, None, None, scalePercent)
    ensures (scalePercent.None? || scalePercent.value == 0.0) && Truthy(width) && Truthy(height) ==>
      PlanResize(w, h, width, height, scalePercent) == ResizeTo(width.value, height.value)
    ensures (scalePercent.None? || scalePercent.value == 0.0) && !Truthy(width) && !Truthy(height) ==>
      PlanResize(w, h, width, height, scalePercent) == Unchanged
    ensures (scalePercent.None? || scalePercent.value == 0.0) && Truthy(width) && width.value > 0 && !Truthy(height) && w > 0 ==>
      var p := PlanResize(w, h, width, height, scalePercent);
      p.ResizeTo? && p.width == width.value && p.height == (h * width.value) / w
  {
    if (scalePercent.None? || scalePercent.value == 0.0) && Truthy(width) && width.value > 0 && !Truthy(height) && w > 0 {
      FloorOfScaled(h, width.value, w);
    }
  }

  /** `int(h * (width / w))` computed exactly is the integer quotient of `h * width` by `w`. */
  lemma FloorOfScaled(h: nat, width: nat, w: nat)
    requires w > 0
    ensures Trunc(h as real * (width as real / w as real)) == (h * width) / w
  {
    var x := h as real * (width as real / w as real);
    assert x == (h * width) as real / w as real;
    FloorOfQuotient(h * width, w);
  }

  /** The floor of an exact quotient of naturals is the integer quotient. */
  lemma FloorOfQuotient(a: nat, b: nat)
    requires b > 0
    ensures Trunc(a as real / b as real) == a / b
  {
    var q := a / b;
    var r := a % b;
    assert a as real == (q * b) as real + r as real;
    MulCast(q, b);
    DivSplit(q as real, b as real, r as real);
    FractionBounds(r, b);
    var f := r as real / b as real;
    assert a as real / b as real == q as real + f;
    assert q as real <= q as real + f < q as real + 1.0;
  }

  lemma MulCast(q: int, b: int)
    ensures (q * b) as real == q as real * b as real
  {
  }

  lemma DivSplit(q: real, b: real, r: real)
    requires b != 0.0
    ensures (q * b + r) / b == q + r / b
  {
  }

  lemma FractionBounds(r: nat, b: nat)
    requires r < b
    ensures 0.0 <= r as real / b as real < 1.0
  {
  }

  /** A successful resize has exactly the planned size, or the original one when nothing was asked. */
  lemma ResizeImageSize(img: Raster, width: Option<int>, height: Option<int>, scalePercent: Option<real>,
                        resample: (Raster, nat, nat) -> Raster)
    requires img.Valid() && Watermark.ResamplesToSize(resample)
    ensures var r := ResizeImage(img, width, height, scalePercent, resample);
      var p := PlanResize(img.width, img.height, width, height, scalePercent);
      (p.Unchanged? ==> r == Some(img))
      && (p.Raises? ==> r.None?)
      && (p.ResizeTo? ==> (r.Some? <==> p.width >= 1 && p.height >= 1))
      && (p.ResizeTo? && r.Some? ==> r.value.Valid() && r.value.width == p.width && r.value.height == p.height)
  {
  }

  /** The extension `generate_output_filename` gives a format: ".jpg" for JPEG in any case, ".png" for everything else. */
  function OutputExtension(outputFormat: string): string {
    if Upper(outputFormat) == "JPEG" then ".jpg" else ".png"
  }

  /** The new stem of `generate_output_filename`: custom text in front for "prefix", behind for "suffix", and none for any other rule. */
  function NewName(stem: string, namingRule: string, customText: string): string {
    if namingRule == "prefix" then customText + stem
    else if namingRule == "suffix" then stem + customText
    else stem
  }

  /** `generate_output_filename`: the new stem and the format's extension, joined onto the output directory. */
  function GenerateOutputFilename(originalPath: string, outputDir: string, namingRule: string,
                                  customText: string, outputFormat: string): string
  {
    PathJoin(outputDir, NewName(PathStem(originalPath), namingRule, customText) + OutputExtension(outputFormat))
  }

  /** A stem never holds a separator. */
  lemma StemHasNoSlash(p: string)
    ensures '/' !in PathStem(p)
  {
    var name := PathName(p);
    BasenameHasNoSlash(p);
    var j := LastIndex(name, '.');
    if 0 < j < |name| - 1 {
      forall k | 0 <= k < j ensures name[..j][k] != '/' {
        assert name[..j][k] == name[k];
      }
    }
  }

  /**
   * The result lies directly in the output directory, and its file name is the original's
   * stem with the custom text placed by the rule, then ".jpg" for JPEG (in any case) and
   * ".png" otherwise.
   */
  lemma OutputFilenameRules(originalPath: string, outputDir: string, namingRule: string,
                            customText: string, outputFormat: string)
    requires '/' !in customText
    requires outputDir != "." && outputDir != [] && outputDir[|outputDir| - 1] != '/'
    ensures var r := GenerateOutputFilename(originalPath, outputDir, namingRule, customText, outputFormat);
      var stem := PathStem(originalPath);
      var ext := if Upper(outputFormat) == "JPEG" then ".jpg" else ".png";
      Basename(r) == (if namingRule == "prefix" then customText + stem
                      else if namingRule == "suffix" then stem + customText
                      else stem) + ext
      && Dirname(r) == outputDir
  {
    var name := NewName(PathStem(originalPath), namingRule, customText) + OutputExtension(outputFormat);
    StemHasNoSlash(originalPath);
    assert '/' !in name;
    JoinedFile(outputDir, name);
  }

  /** Joining a separator-free name onto a directory gives that directory and that name back. */
  lemma JoinedFile(dir: string, name: string)
    requires '/' !in name
    requires dir != "." && dir != [] && dir[|dir| - 1] != '/'
    ensures Basename(PathJoin(dir, name)) == name && Dirname(PathJoin(dir, name)) == dir
  {
    assert !EndsWith(dir, "/");
    assert !StartsWith(name, "/") by {
      if |name| > 0 {
        assert name[0] in name;
      }
    }
    assert PathJoin(dir, name) == dir + "/" + name;
    BasenameOfJoined(dir, name);
    DirnameOfJoined(dir, name);
  }
}
