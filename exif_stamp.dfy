/**
 * The command-line date stamper (watermark.py): the shooting date read from a photo's
 * EXIF tags is drawn in a corner of the photo, with a one-pixel shadow, for every image
 * of a directory. Reading the tags, measuring the text and writing the files are not
 * modelled: the tags and each file's outcome are inputs, and the text size is a
 * parameter standing for Pillow's `textbbox`.
 */
module ExifStamp {
  import opened Wrappers
  import opened Strings
  import Paths

  /** The tags tried, in order. */
  const DateFields: seq<string> := ["EXIF DateTimeOriginal", "Image DateTime", "EXIF DateTimeDigitized"]

  /** The first whitespace-separated token of `s` (after leading whitespace), as `s.split()[0]`. */
  function FirstToken(s: string): string {
    TokenAt(LStrip(s, IsSpace))
  }

  /** The characters of `s` before its first whitespace character. */
  function TokenAt(s: string): (t: string)
    ensures |t| <= |s| && t == s[..|t|]
    ensures forall i :: 0 <= i < |t| ==> !IsSpace(t[i])
    ensures |t| == |s| || IsSpace(s[|t|])
  {
    if s == [] || IsSpace(s[0]) then [] else [s[0]] + TokenAt(s[1..])
  }

  /** The date written on a photo whose tag value is `value`: the first token, its colons turned into dashes. */
  function DateText(value: string): string {
    ReplaceChar(FirstToken(value), ':', '-')
  }

  /** The date from the first of `fields` present in `tags` whose value has a colon. */
  function DateAmong(tags: map<string, string>, fields: seq<string>): Option<string> {
    if fields == [] then None
    else if fields[0] in tags && ':' in tags[fields[0]] then Some(DateText(tags[fields[0]]))
    else DateAmong(tags, fields[1..])
  }

  /** `get_exif_date`: `None` for a file whose tags cannot be read, or with no usable date. */
  function ExifDate(tags: Option<map<string, string>>): Option<string> {
    if tags.None? then None else DateAmong(tags.value, DateFields)
  }

  /** Whether field `f` of `tags` holds a usable date. */
  predicate Usable(tags: map<string, string>, f: string) {
    f in tags && ':' in tags[f]
  }

  /** `get_exif_date`'s loop over the fields. */
  method GetExifDate(tags: Option<map<string, string>>) returns (date: Option<string>)
    ensures date == ExifDate(tags)
  {
    if tags.None? {
      return None;
    }
    var t := tags.value;
    for i := 0 to |DateFields|
      invariant DateAmong(t, DateFields[i..]) == DateAmong(t, DateFields)
    {
      var field := DateFields[i];
      assert DateFields[i..][1..] == DateFields[i + 1..];
      if field in t {
        var dateStr := t[field];
        if ':' in dateStr {
          return Some(DateText(dateStr));
        }
      }
    }
    return None;
  }

  /** Which field a search from `fields` settles on: the first usable one. */
  lemma {:induction false} DateAmongFirst(tags: map<string, string>, fields: seq<string>)
    ensures DateAmong(tags, fields).Some? <==> exists i :: 0 <= i < |fields| && Usable(tags, fields[i])
    ensures forall i :: 0 <= i < |fields| && Usable(tags, fields[i]) && (forall j :: 0 <= j < i ==> !Usable(tags, fields[j]))
              ==> DateAmong(tags, fields) == Some(DateText(tags[fields[i]]))
  {
    if fields != [] {
      DateAmongFirst(tags, fields[1..]);
      assert forall i :: 1 <= i < |fields| ==> fields[i] == fields[1..][i - 1];
    }
  }

  /** A token taken from a string with a non-space character is non-empty. */
  lemma TokenOfNonBlank(s: string, c: char)
    requires c in s && !IsSpace(c)
    ensures FirstToken(s) != []
  {
    LStripFacts(s, IsSpace);
    var r := LStrip(s, IsSpace);
    var k :| 0 <= k < |s| && s[k] == c;
    assert k >= |s| - |r|;
  }

  /** The date of a value with a colon is non-empty and holds neither a colon nor whitespace. */
  lemma DateTextFacts(value: string)
    requires ':' in value
    ensures var d := DateText(value);
      d != [] && ':' !in d && forall i :: 0 <= i < |d| ==> !IsSpace(d[i])
  {
    TokenOfNonBlank(value, ':');
    var d := DateText(value);
    assert !IsSpace('-');
    assert forall i :: 0 <= i < |d| ==> d[i] != ':';
  }

  /** The date is taken from the first usable of the three fields, in order; with none usable there is no date. */
  lemma ExifDateOrder(tags: map<string, string>)
    ensures ExifDate(Some(tags)).Some? <==> Usable(tags, DateFields[0]) || Usable(tags, DateFields[1]) || Usable(tags, DateFields[2])
    ensures Usable(tags, DateFields[0]) ==> ExifDate(Some(tags)) == Some(DateText(tags[DateFields[0]]))
    ensures !Usable(tags, DateFields[0]) && Usable(tags, DateFields[1]) ==> ExifDate(Some(tags)) == Some(DateText(tags[DateFields[1]]))
    ensures (!Usable(tags, DateFields[0]) && !Usable(tags, DateFields[1]) && Usable(tags, DateFields[2]))
              ==> ExifDate(Some(tags)) == Some(DateText(tags[DateFields[2]]))
  {
    DateAmongFirst(tags, DateFields);
  }

  /**
   * The date is taken from the first usable field in the order DateTimeOriginal, Image
   * DateTime, DateTimeDigitized, and there is none when no field is usable; a date is never
   * empty, holds no colon and no whitespace.
   */
  lemma ExifDateRule(tags: map<string, string>)
    ensures ExifDate(Some(tags)).Some? <==> Usable(tags, DateFields[0]) || Usable(tags, DateFields[1]) || Usable(tags, DateFields[2])
    ensures ExifDate(Some(tags)).Some? ==>
              exists f :: f in DateFields && Usable(tags, f) && ExifDate(Some(tags)).value == DateText(tags[f])
    ensures ExifDate(Some(tags)).Some? ==>
              var d := ExifDate(Some(tags)).value;
              d != [] && ':' !in d && forall i :: 0 <= i < |d| ==> !IsSpace(d[i])
  {
    ExifDateOrder(tags);
    var d := ExifDate(Some(tags));
    if d.Some? {
      var f := if Usable(tags, DateFields[0]) then DateFields[0]
               else if Usable(tags, DateFields[1]) then DateFields[1] else DateFields[2];
      assert d.value == DateText(tags[f]);
      DateTextFacts(tags[f]);
    }
  }

  /** A value of printable characters up to its first blank yields the characters before that blank. */
  lemma DateTextUpTo(s: string, k: nat)
    requires 0 < k < |s| && s[k] == ' ' && forall i :: 0 <= i < k ==> '!' <= s[i] <= '~'
    ensures DateText(s) == ReplaceChar(s[..k], ':', '-')
  {
    assert !IsSpace(s[0]);
    assert LStrip(s, IsSpace) == s;
    TokenUpTo(s, k);
  }

  /** The token of a value whose first blank is at `k` is the first `k` characters. */
  lemma {:induction false} TokenUpTo(s: string, k: nat)
    requires k < |s| && s[k] == ' ' && forall i :: 0 <= i < k ==> '!' <= s[i] <= '~'
    ensures TokenAt(s) == s[..k]
    decreases k
  {
    if k > 0 {
      assert !IsSpace(s[0]);
      TokenUpTo(s[1..], k - 1);
      assert s[..k] == [s[0]] + s[1..][..k - 1];
    }
  }

  /** The usual EXIF timestamp gives its date part, with dashes. */
  lemma DateTextOfTimestamp()
    ensures DateText("2023:05:01 10:00:00") == "2023-05-01"
  {
    var s := "2023:05:01 10:00:00";
    assert s[..10] == "2023:05:01";
    assert forall i :: 0 <= i < 10 ==> '!' <= s[i] <= '~' by {
      forall i | 0 <= i < 10 ensures '!' <= s[i] <= '~' {
        assert s[i] == s[..10][i];
      }
    }
    DateTextUpTo(s, 10);
    DashedDate();
  }

  lemma DashedDate()
    ensures ReplaceChar("2023:05:01", ':', '-') == "2023-05-01"
  {
    var d := ReplaceChar("2023:05:01", ':', '-');
    forall i | 0 <= i < 10 ensures d[i] == "2023-05-01"[i] {
    }
  }

  /** The five named positions; `None` for any other name. */
  function NamedPosition(position: string, imgWidth: int, imgHeight: int, textWidth: int, textHeight: int): Option<(int, int)> {
    if position == "top-left" then Some((10, 10))
    else if position == "top-right" then Some((imgWidth - textWidth - 10, 10))
    else if position == "bottom-left" then Some((10, imgHeight - textHeight - 10))
    else if position == "bottom-right" then Some((imgWidth - textWidth - 10, imgHeight - textHeight - 10))
    else if position == "center" then Some(((imgWidth - textWidth) / 2, (imgHeight - textHeight) / 2))
    else None
  }

  /** `positions.get(position, positions['bottom-right'])`. */
  function StampPosition(position: string, imgWidth: int, imgHeight: int, textWidth: int, textHeight: int): (int, int) {
    var p := NamedPosition(position, imgWidth, imgHeight, textWidth, textHeight);
    if p.Some? then p.value else NamedPosition("bottom-right", imgWidth, imgHeight, textWidth, textHeight).value
  }

  /**
   * The corners keep the text 10 pixels from the two nearest edges, the centre splits the
   * free space evenly (flooring), and an unknown name places the text as bottom-right does.
   */
  lemma StampPositionRule(position: string, w: int, h: int, tw: int, th: int)
    ensures var (x, y) := StampPosition(position, w, h, tw, th);
      (position in {"top-left", "bottom-left"} ==> x == 10)
      && (position in {"top-left", "top-right"} ==> y == 10)
      && (position in {"top-right", "bottom-right"} ==> x + tw + 10 == w)
      && (position in {"bottom-left", "bottom-right"} ==> y + th + 10 == h)
      && (position == "center" ==> 0 <= (w - tw) - 2 * x <= 1 && 0 <= (h - th) - 2 * y <= 1)
      && (position !in {"top-left", "top-right", "bottom-left", "bottom-right", "center"} ==>
            (x, y) == StampPosition("bottom-right", w, h, tw, th))
  {
  }

  /** One `draw.text` call. */
  datatype TextDraw = TextDraw(x: int, y: int, text: string, fill: string)

  /** The shadow is black under white text and white under any other colour. */
  function ShadowColor(color: string): (shadow: string)
    ensures shadow == "black" <==> color == "white"
    ensures shadow == "white" <==> color != "white"
  {
    if color == "white" then "black" else "white"
  }

  /** What is known of one input file: its tags (`None` when unreadable), whether Pillow opens it and saves the result. */
  datatype FileInput = FileInput(tags: Option<map<string, string>>, opens: bool, imgWidth: int, imgHeight: int, saves: bool)

  /**
   * `add_watermark`: the draws made on the image when it is written, or `None` (the
   * function's `False`) when there is no date or opening or saving fails.
   */
  function AddWatermark(file: FileInput, measure: string -> (int, int), color: string, position: string): Option<seq<TextDraw>> {
    var date := ExifDate(file.tags);
    if date.None? || date.value == [] || !file.opens then None
    else
      var (tw, th) := measure(date.value);
      var (x, y) := StampPosition(position, file.imgWidth, file.imgHeight, tw, th);
      if file.saves then Some([TextDraw(x + 1, y + 1, date.value, ShadowColor(color)), TextDraw(x, y, date.value, color)])
      else None
  }

  /**
   * A file without a usable date is never written. A written file gets exactly two draws
   * of its date: the shadow one pixel right and down, then the text in its colour.
   */
  lemma AddWatermarkRule(file: FileInput, measure: string -> (int, int), color: string, position: string)
    ensures ExifDate(file.tags).None? ==> AddWatermark(file, measure, color, position).None?
    ensures AddWatermark(file, measure, color, position).Some? <==> ExifDate(file.tags).Some? && file.opens && file.saves
    ensures var r := AddWatermark(file, measure, color, position);
      r.Some? ==>
        var date := ExifDate(file.tags).value;
        var (x, y) := StampPosition(position, file.imgWidth, file.imgHeight, measure(date).0, measure(date).1);
        r.value == [TextDraw(x + 1, y + 1, date, ShadowColor(color)), TextDraw(x, y, date, color)]
  {
    if file.tags.Some? {
      ExifDateRule(file.tags.value);
    }
  }

  /** The extensions `process_directory` accepts, compared against the lower-cased name. */
  const ImageExtensions: set<string> := {".jpg", ".jpeg", ".png", ".tiff", ".bmp", ".webp"}

  predicate IsImageName(filename: string) {
    exists ext :: ext in ImageExtensions && EndsWith(Lower(filename), ext)
  }

  /** One directory entry: its name, whether it is a regular file, and what the file holds. */
  datatype Entry = Entry(name: string, isFile: bool, input: FileInput)

  predicate Eligible(e: Entry) {
    e.isFile && IsImageName(e.name)
  }

  /** The number of image files among `entries`. */
  function ImageCount(entries: seq<Entry>): nat {
    if entries == [] then 0
    else ImageCount(entries[..|entries| - 1]) + (if Eligible(entries[|entries| - 1]) then 1 else 0)
  }

  /** The image files among `entries` that are written, and their output paths. */
  function Written(entries: seq<Entry>, outputDir: string, measure: string -> (int, int), color: string, position: string): seq<string> {
    if entries == [] then []
    else
      var e := entries[|entries| - 1];
      Written(entries[..|entries| - 1], outputDir, measure, color, position)
        + (if Eligible(e) && AddWatermark(e.input, measure, color, position).Some? then [Paths.Join(outputDir, e.name)] else [])
  }

  /** The folder the stamped copies go to: `<dir>/<name of dir>_watermark`. */
  function OutputDir(inputDir: string): string {
    Paths.Join(inputDir, Paths.Basename(inputDir) + "_watermark")
  }

  /**
   * `process_directory` over the listing `entries`: every image file is stamped or skipped,
   * and `written` lists where the stamped copies went, in listing order.
   */
  method ProcessDirectory(inputDir: string, entries: seq<Entry>, measure: string -> (int, int), color: string, position: string)
    returns (processed: nat, skipped: nat, outputDir: string, written: seq<string>)
    ensures outputDir == OutputDir(inputDir)
    ensures written == Written(entries, outputDir, measure, color, position)
    ensures processed == |written| && processed + skipped == ImageCount(entries)
  {
    outputDir := Paths.Join(inputDir, Paths.Basename(inputDir) + "_watermark");
    processed, skipped, written := 0, 0, [];
    for i := 0 to |entries|
      invariant written == Written(entries[..i], outputDir, measure, color, position)
      invariant processed == |written| && processed + skipped == ImageCount(entries[..i])
    {
      var e := entries[i];
      ProcessStep(entries, i, outputDir, measure, color, position);
      if e.isFile && IsImageName(e.name) {
        var outputPath := Paths.Join(outputDir, e.name);
        var stamped := AddWatermark(e.input, measure, color, position);
        if stamped.Some? {
          processed := processed + 1;
          written := written + [outputPath];
        } else {
          skipped := skipped + 1;
        }
      }
    }
    assert entries[..|entries|] == entries;
  }

  /** One more entry of the listing adds its own output path, if any, and its own count. */
  lemma ProcessStep(entries: seq<Entry>, i: nat, outputDir: string, measure: string -> (int, int), color: string, position: string)
    requires i < |entries|
    ensures var e := entries[i];
      Written(entries[..i + 1], outputDir, measure, color, position)
        == Written(entries[..i], outputDir, measure, color, position)
           + (if Eligible(e) && AddWatermark(e.input, measure, color, position).Some? then [Paths.Join(outputDir, e.name)] else [])
      && ImageCount(entries[..i + 1]) == ImageCount(entries[..i]) + (if Eligible(e) then 1 else 0)
  {
    assert entries[..i + 1][..i] == entries[..i];
  }

  /** Every image file counts once; a directory without usable dates writes nothing. */
  lemma {:induction false} CountsRule(entries: seq<Entry>, outputDir: string, measure: string -> (int, int), color: string, position: string)
    ensures |Written(entries, outputDir, measure, color, position)| <= ImageCount(entries) <= |entries|
    ensures (forall i :: 0 <= i < |entries| ==> ExifDate(entries[i].input.tags).None?) ==>
              Written(entries, outputDir, measure, color, position) == []
  {
    if entries != [] {
      var init := entries[..|entries| - 1];
      CountsRule(init, outputDir, measure, color, position);
      assert forall i :: 0 <= i < |init| ==> init[i] == entries[i];
    }
  }
}
