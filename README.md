# ImageWatermarker core in Dafny

This project models the non-graphical core of ImageWatermarker, a desktop tool that
stamps text or image watermarks onto batches of photos. The parts modelled here are:

- Placement. `WatermarkPosition` is a nine-anchor table with a custom point. `calculate_position` falls back to the middle centre.
- Layer geometry. `create_text_watermark` builds a text layer: its size, its padding and its draw order (shadow, stroke ring, main text). `create_image_watermark` builds an image layer: scaling, and an alpha rewrite.
- Applying and batching. `rotate_watermark` and `apply_watermark` paste the layer onto a copy of the base image. `batch_apply_watermark` runs the loop over a batch, skipping failures.
- The effects renderer `render_text_with_effects`. It pads the layer, draws the offset shadow and the stroke ring, and pastes so that the text origin lands on the requested position.
- Validators and colours. `InputValidator` clamps integers and normalises hex colours. `ColorPicker` and `ColorPresets` parse, format, validate and contrast colours.
- Sizes. `WatermarkScaler` and `ImageResizer` share a four-mode size rule. `ImageProcessor.resize_image` has its own precedence of percentage, then both sides, then one side.
- Loading images. `ImageProcessor` checks supported extensions, applies the load rules, and loads a list of paths or a folder.
- Output names. `generate_output_filename` has three rules. `FileNamingManager` has four naming rules and a conflict probe from `_1` to `_9999`. The release's `file_utils` sanitises names and has an unbounded uniqueness probe.
- Output directory checks. `validate_output_directory` has two versions: the naming manager's and the release's.
- Two stores that change state. `ThumbnailManager` is an LRU cache: a dictionary plus an access-order list. `ConfigManager` is a template store with a last-used name, plus settings.
- The stand-alone script `watermark.py`. It chooses an EXIF date, converts it to text, applies the five-position stamp table and the shadow rule, and counts files in `process_directory`.

How the model is built:

- Images are values. A `Pixels.Raster` holds rows of RGBA pixels.
- Pillow's own work is passed in as function parameters: decoding, `textbbox`, glyph rasterisation, LANCZOS resampling and non-zero rotation. Their contracts constrain only sizes.
- A text layer is the list of draws made into it, plus its size.
- These become parameters:
  - file existence, as a set of paths;
  - directory listings, as sequences;
  - the clock, as a timestamp argument;
  - fonts `truetype` can open, as a set.
- Python integer operations are written out explicitly:
  - `int(x)` on a real truncates toward zero (`Numbers.Trunc`).
  - `int(a / b)` is `Numbers.TruncDiv`.
  - `//` by a positive number is Dafny's `/`.
- Python's `int(s, base)` grammar is in `Strings.ParseInt`: whitespace, sign, the `0x` prefix and underscores.
- `os.path`/`pathlib` splitting is in `Paths`, for POSIX paths.
- A Python dictionary, with its insertion order, is a key sequence beside a map (`Dicts`).

The `releases/ImageWatermarker-v1.0.0` copies of `core/watermark.py` and `core/image_processor.py` are byte-identical to the files under `core/`. One model covers each pair: every row below that cites `core/watermark.py` or `core/image_processor.py` holds, at the same lines, for the release copy as well, and two placement examples are stated against the release path itself. Likewise `utils/image_resize.py` repeats lines 279-372 of `utils/watermark_scaling.py` differing only in names (`resize_image`, `calculate_size`, the parameter names) and comments, so every `Sizing` row covers both files.

Where the code and its own documentation disagree, the model follows the code:

- `get_font` ignores the requested size whenever it falls back to the built-in font.
- `render_text_with_effects` pads for a shadow offset of 0 when the offset keys are missing, but draws the shadow 2 px away (`TextEffects.MissingOffsetShadowOverflows`).
- `validate_integer` deletes characters such as '.' rather than rejecting them, so "50.5" reads as 505.

## Model

| member | source | states |
|---|---|---|
| Placement.FromValue | core/watermark.py:12-23 | `WatermarkPosition(s)` gives the member whose value is `s` and fails for any other string |
| Placement.FromValueRoundTrip | core/watermark.py:12-23 | every member's value looks up that member again, and a string is accepted exactly when it is some member's value |
| Placement.AnchorsOnGrid | core/watermark.py:52-62 | each of the nine anchors is the margin at a near edge, canvas minus layer minus margin at a far edge, and the floor-halved slack on a centred axis |
| Placement.CenterSplitsSlack | core/watermark.py:52-62 | a centred layer leaves equal slack on both sides or one pixel more on the far side, also when the layer is larger than the canvas |
| Placement.MarginDefault | core/watermark.py:42-43 | a margin of `None` becomes 20, and an explicit margin, 0 included, is used unchanged |
| Placement.CustomVerbatim | core/watermark.py:48-49 | `CUSTOM` with a position returns that position unchanged and unclamped |
| Placement.FallbackToMiddleCenter | core/watermark.py:48-64 | `CUSTOM` without a position, and any key outside the enum, give the middle-centre result |
| Placement.CustomPosIgnoredForAnchors | core/watermark.py:48-64 | a custom position passed with one of the nine anchors is ignored |
| Placement.ReleaseAnchorExample | releases/ImageWatermarker-v1.0.0/core/watermark.py:52-62 | on a 1000x800 canvas with a 200x100 layer and the default margin, the corners sit 20 px in from both edges and the centre is exact |
| Placement.ReleaseRawStringFallback | releases/ImageWatermarker-v1.0.0/core/watermark.py:48-64 | the raw string "bottom_right" is not a member and lands on the middle centre |
| TextLayer.GetFontFallbackIgnoresSize | core/watermark.py:66-84 | the built-in font is used exactly when the name is empty or cannot be opened, and then the size is ignored; a loaded face has the requested size, 36 by default |
| TextLayer.StrokeOffsetsMembers | core/watermark.py:132-138 | the stroke loops visit exactly the offsets of the square [-sw, sw]² other than (0, 0) |
| TextLayer.StrokeOffsetsCount | core/watermark.py:132-138 | the ring has (2sw+1)² - 1 draws for a non-negative stroke width |
| TextLayer.StrokeDrawsAt | core/watermark.py:132-138 | the k-th stroke draw is the text origin shifted by the k-th offset, in the stroke colour |
| TextLayer.TextLayerShape | core/watermark.py:107-141 | the layer is (tw+2p+s, th+2p+s) with p = 2·stroke width under stroke and s = 3 under shadow; the draws are an optional half-alpha shadow at (p+3, p+3), then the (2sw+1)²-1 stroke draws, then the main text last at (p, p) |
| TextLayer.TextLayerDrawsFit | core/watermark.py:111-138 | with a non-negative stroke width, every draw leaves room for the whole text box inside the layer |
| TextLayer.CreateTextWatermark | core/watermark.py:86-143 | the method returns the layer the specification describes, after defaults for colour, size and stroke colour are filled in; a negative computed size fails |
| TextLayer.DrawStroke | core/watermark.py:132-138 | the nested dx/dy loops append exactly the stroke draws, in loop order |
| TextLayer.DrawStrokeColumn | core/watermark.py:133-138 | the inner dy loop appends the draws of one column, skipping the text's own origin |
| Watermark.ScaledAlphaBounds | core/watermark.py:168-174 | an opacity of 255 keeps every alpha, an opacity of 0 or less clears it, and an opacity up to 255 never raises an alpha |
| Watermark.ScaledAlphaMonotone | core/watermark.py:168-174 | a larger opacity never gives a smaller alpha |
| Watermark.FadeAlpha | core/watermark.py:168-174 | the loops rewrite every pixel's alpha to `int(a·opacity/255)` and keep the colour channels and the size |
| Watermark.FadedPixels | core/watermark.py:168-174 | after the rewrite each pixel keeps its colour, has the scaled alpha, never a larger one, and has zero alpha at opacity 0 |
| Watermark.ImageWatermarkShape | core/watermark.py:145-180 | the image watermark exists exactly when the file opens and, for a percentage other than 100, both scaled sides are at least 1; it has the decoded size at 100 percent and (int(w·p/100), int(h·p/100)) otherwise; at 100 percent and full opacity it is the decoded image itself |
| Watermark.CreateImageWatermark | core/watermark.py:145-180 | the method scales only for a percentage other than 100 and fades only below opacity 255, giving the specified layer |
| Watermark.RotateWatermark | core/watermark.py:182-191 | a rotation by 0 returns the layer itself |
| Watermark.Applied | core/watermark.py:193-224 | the applied image always has the base image's size |
| Watermark.AppliedKeepsBaseOutsideLayer | core/watermark.py:210-222 | for every position key, custom position, margin, angle and rotation, outside the (rotated) layer's rectangle at the computed position the base is unchanged; under it each pixel is the base blended with the layer pixel, alpha 0 keeps the base pixel and alpha 255 puts the layer pixel |
| Watermark.ApplyWatermark | core/watermark.py:193-224 | the method returns the paste of the (rotated) layer at the computed position onto a copy of the base, with the base's size |
| Watermark.MarkFor | core/watermark.py:238-261 | a layer, when one is built, is a well-formed raster |
| Watermark.BatchIsOrderedFilter | core/watermark.py:226-282 | the outputs are the successful inputs in input order, each paired with its own result, and an input appears exactly when it succeeds on its own; so the output is never longer than the input |
| Watermark.BatchKeepsSizes | core/watermark.py:226-282 | every output has the size of the base image it came from |
| Watermark.BatchSkipsAll | core/watermark.py:236-280 | an unknown watermark type, an image watermark that does not open, or a position string the enum rejects gives no output at all |
| Watermark.ProcessOne | core/watermark.py:233-280 | one loop iteration builds the layer and applies it exactly as the specification describes |
| Watermark.BatchApplyWatermark | core/watermark.py:226-282 | the loop appends exactly the batch specification's outputs |
| Pixels.MixBetween | core/watermark.py:222 | a blended channel lies between the two channels it mixes |
| Pixels.OverExtremes | core/watermark.py:222 | on an RGBA canvas a fully transparent source pixel leaves the canvas pixel unchanged, and a fully opaque one replaces it |
| Pixels.BlendExtremes | utils/text_effects.py:367 | per canvas mode: alpha 0 keeps the canvas pixel (a grey one on L); alpha 255 gives the source pixel on RGBA, its colour bands with the canvas alpha on RGB, and its luma on L; only RGBA changes alpha, and L stays grey |
| Pixels.PasteAt | core/watermark.py:222 | the pasted canvas keeps the canvas size |
| Pixels.PasteEffect | core/watermark.py:222 | pasting changes nothing outside the layer's rectangle; inside it each pixel is the mode's blend of canvas and layer pixel, alpha 0 keeps the canvas pixel and alpha 255 on RGBA puts the layer pixel |
| Pixels.PasteKeepsMode | utils/text_effects.py:367 | pasting into an RGB or L canvas changes no pixel's alpha, and an L canvas stays grey |
| Pixels.Paste | core/watermark.py:219-222 | the in-place paste loop over the overlap gives exactly the specified pasted canvas |
| TextEffects.ExtraIsLeastCover | utils/text_effects.py:311-321 | the padding is non-negative and covers the enabled shadow offset (0 when missing) and stroke width (1 when missing), and is the least such value |
| TextEffects.EffectsLayerShape | utils/text_effects.py:324-360 | the layer is the text box plus four times the padding; the main text is drawn last at twice the padding; the shadow comes first at the offset (2 when missing) with the configured opacity (128 when missing), and the stroke draws are (2w+1)²-1 opaque draws |
| TextEffects.TextLandsOnPosition | utils/text_effects.py:363-367 | pasting at position minus twice the padding puts the main text's origin exactly on the requested position |
| TextEffects.DrawsFit | utils/text_effects.py:311-357 | when the shadow offsets are given, every draw leaves room for the whole text box inside the layer |
| TextEffects.MissingOffsetShadowOverflows | utils/text_effects.py:315-336 | a shadow without offset keys gets no padding but is drawn 2 px away, past the room the text needs |
| TextEffects.RenderTextWithEffects | utils/text_effects.py:284-369 | the method returns the specified rendering on an unconverted copy, pasting in the image's own mode, and fails only where a shadow or stroke colour does not parse |
| TextEffects.RenderKeepsMode | utils/text_effects.py:300-369 | the rendering keeps the image's size and mode: an RGB or L image keeps every alpha, and a grey pixel of an L image stays grey |
| TextEffects.DrawShadow | utils/text_effects.py:334-344 | the shadow draw is appended at the offset origin in the parsed colour with the configured opacity |
| TextEffects.DrawStrokeEffect | utils/text_effects.py:347-357 | the stroke loops append one opaque draw at every ring offset, in loop order |
| Colors.ReadsPairs | utils/text_effects.py:372-376 | without a leading '#', six characters that read as three pairs give those three numbers |
| Colors.RgbToHexShape | utils/color_picker.py:287-289 | channels in 0..255 give '#' and exactly two upper-case hexadecimal digits per channel, high digit first |
| Colors.HexToRgbOfSixDigits | utils/color_picker.py:281-285 | one '#' and six hexadecimal digits read as the three pairs, high digit first |
| Colors.SixBareDigits | utils/color_picker.py:281-285 | six hexadecimal digits without the '#' read as the same three pairs |
| Colors.HexRoundTrip | utils/color_picker.py:281-289 | `hex_to_rgb(rgb_to_hex(r, g, b)) == (r, g, b)` for every channel in 0..255 |
| Strings.Hex02RoundTrip | utils/color_picker.py:287-289 | `int(f"{n:02X}", 16) == n` for every byte |
| Colors.RgbToHexIsValid | utils/color_picker.py:253-289 | every formatted colour is a valid colour |
| Colors.HexDigitsValid | utils/color_picker.py:253-278 | '#' and six hexadecimal digits is a valid colour |
| Colors.LongHexInvalid | utils/color_picker.py:253-278 | more than six characters after '#' are never a valid colour |
| Colors.RgbFormValidity | utils/color_picker.py:253-278 | an 'rgb(r,g,b)' colour is valid exactly when each of the three numbers is in 0..255 |
| Colors.GetColorByName | utils/color_picker.py:398-434 | an unknown name gives "#000000", a known name its preset, and the answer is a valid colour for every name |
| Colors.GetTextWatermarkColor | utils/color_picker.py:398-439 | an unknown name gives "#000000", a known name its preset, and the answer is a valid colour exactly when the name is not one of the two half-transparent presets |
| Colors.ContrastThreshold | utils/color_picker.py:441-448 | the answer is white exactly when 299r + 587g + 114b < 128000 |
| Colors.ContrastExtremes | utils/color_picker.py:441-448 | black gets white text and white gets black text |
| InputValidation.DigitsAndMinusFacts | utils/input_validation.py:35 | the filter keeps exactly the digits and minus signs, in order, and leaves a string of them alone unchanged |
| InputValidation.ClampBounds | utils/input_validation.py:44-49 | the maximum, applied last, always holds; the minimum holds when it does not exceed the maximum; an in-range value is kept; a reversed range gives the maximum |
| InputValidation.ParseDigitsAndMinus | utils/input_validation.py:40 | `int()` of a filtered string reads digits alone, or one leading '-' and digits, and rejects everything else |
| InputValidation.ValidateIntegerOfDecimal | utils/input_validation.py:14-51 | validating `str(n)` gives `n` clamped: every printed integer is read back |
| InputValidation.ValidateIntegerRange | utils/input_validation.py:14-51 | the result is the default or a clamped integer, never above a given maximum and never below a minimum that does not exceed it |
| InputValidation.BlankIsDefault | utils/input_validation.py:29-31 | blank input gives the default, 0 when none is given |
| InputValidation.DotIsDropped | utils/input_validation.py:35-40 | characters other than digits and '-' are deleted, so "50.5" reads as 505 |
| InputValidation.TrailingMinusIsDefault | utils/input_validation.py:35-51 | a minus sign anywhere but in front makes `int()` fail, and the default is returned |
| InputValidation.RangedValidators | utils/input_validation.py:105-131 | opacity lands in 0..255, font size in 8..1000 and quality in 1..100, or on the default |
| InputValidation.ValidateColorHexForm | utils/input_validation.py:82-102 | six digits come back upper-cased with '#', three digits come back doubled with their case kept, and anything else gives the default |
| InputValidation.HashIsOptional | utils/input_validation.py:86-93 | a value without surrounding whitespace validates the same with or without the '#' |
| InputValidation.ShortFormNotIdempotent | utils/input_validation.py:82-102 | a lower-case short form is doubled on the first pass and upper-cased on the second, so normalising is not idempotent |
| InputValidation.HexToRgbaTotal | utils/input_validation.py:133-148 | `hex_to_rgba` always answers with four components in 0..255, and an invalid colour becomes black |
| Sizing.SizeAtLeastOne | utils/watermark_scaling.py:329-372 | an enabled configuration gives two sides of at least 1 and fails only when keeping the ratio of a zero side; a disabled or unflagged one keeps the size |
| Sizing.PercentSize | utils/watermark_scaling.py:344-350 | percent mode, the default, gives each side as the floor of p percent of the original, at least 1, with p defaulting to 100 |
| Sizing.DefaultsKeepSize | utils/watermark_scaling.py:343-350 | with no mode and no percentage an enabled configuration keeps the size |
| Sizing.WidthKeepsAspect | utils/watermark_scaling.py:352-358 | width mode sets the width to the target and, keeping the ratio, the height to the floor of target·h/w; otherwise it keeps the height |
| Sizing.HeightKeepsAspect | utils/watermark_scaling.py:359-364 | height mode is width mode with the sides exchanged |
| Sizing.UnknownModeIsCustom | utils/watermark_scaling.py:366-368 | any other mode string is custom, each side defaulting to the original one |
| Sizing.RescaleSize | utils/watermark_scaling.py:279-326 | `scale_watermark` resizes to exactly the size `calculate_scaled_size` gives |
| ImageProcessor.SupportedBySuffix | core/image_processor.py:23-26 | a file is supported exactly when its lower-cased suffix is one of the six extensions, whatever the directory and the case |
| ImageProcessor.HiddenFileUnsupported | core/image_processor.py:23-26 | a hidden file such as ".png" has no suffix and is never supported |
| ImageProcessor.LoadImageFacts | core/image_processor.py:28-62 | a loaded image has a supported extension, is named after its path, has the decoded size, and is in mode RGB, RGBA or L; an unsupported extension is never opened |
| ImageProcessor.DropAlpha | core/image_processor.py:44-46 | converting to RGB keeps the size and every pixel's colour, and makes every pixel opaque |
| ImageProcessor.DropAlphaOfOpaque | core/image_processor.py:44-46 | converting an already opaque image to RGB gives it back unchanged |
| ImageProcessor.LoadedAllIsOrderedFilter | core/image_processor.py:64-71 | loading a list drops exactly the paths that fail, keeps each loaded image, and gives nothing when nothing loads |
| ImageProcessor.LoadedAllAppend | core/image_processor.py:64-71 | loading keeps the input order: two lists loaded in turn give the two results in turn |
| ImageProcessor.LoadImages | core/image_processor.py:64-71 | the loop appends exactly the images of the paths that load, in order |
| ImageProcessor.SupportedFilesFacts | core/image_processor.py:79-82 | only supported regular files from the listing are kept, in listing order |
| ImageProcessor.LoadImagesFromFolder | core/image_processor.py:73-84 | a missing path or non-directory gives nothing; otherwise the supported files of the listing are loaded in order |
| ImageProcessor.CollectSupportedFiles | core/image_processor.py:79-82 | the loop collects exactly the supported regular files, in listing order |
| ImageProcessor.ResizePrecedence | core/image_processor.py:92-121 | a non-zero percentage decides alone; two non-zero sides are used as given; a width alone sets the height to the floor of h·width/w; nothing given keeps the image |
| ImageProcessor.ResizeImageSize | core/image_processor.py:92-121 | a successful resize has exactly the planned size, or the original size when nothing was asked |
| ImageProcessor.OutputFilenameRules | core/image_processor.py:162-181 | the result lies directly in the output directory; its name is the stem with the custom text in front for 'prefix', behind for 'suffix', none otherwise, then '.jpg' for JPEG in any case and '.png' otherwise |
| FileNaming.PreviewShape | utils/file_naming.py:182-233 | the preview is the lead, the stem, the tail and the extension: the prefix ('wm_' when empty) only under the two prefix rules, the suffix ('_watermarked' when empty) under the two suffix rules, '_watermarked' for an unknown rule, and '.jpg' for JPEG and '.png' for PNG; keeping the name under any other format gives the name back |
| FileNaming.DecorateShape | utils/file_naming.py:213-229 | the decorated name is exactly the lead, the stem, the tail and the extension, with the prefix and suffix (defaults when empty) the rule calls for and the default suffix for an unknown rule |
| FileNaming.PreviewFailureKeepsName | utils/file_naming.py:231-233 | a preview that raises returns the name it was given |
| FileNaming.DescriptionsDistinct | utils/file_naming.py:172-180 | each rule has its own description and value, and an unknown rule gets a text shared with none of them |
| FileNaming.ProbeFromIsFirst | utils/file_naming.py:107-134 | the probe returns the first free tagged candidate up to 9999, every earlier one being taken, and the timestamped name when all are taken |
| FileNaming.CandidateKeepsDirAndExt | utils/file_naming.py:118-122 | a tagged candidate lies in the path's directory and keeps its stem, with the tag, and its extension |
| FileNaming.ResolveKeepsDirAndExt | utils/file_naming.py:97-134 | a changed path keeps its directory and extension, and its stem gains `_<k>` for a counter in 1..9999 or the timestamp |
| FileNaming.HandleFilenameConflict | utils/file_naming.py:97-134 | a free path comes back unchanged; otherwise the loop returns the specified probe result |
| FileNaming.GenerateFilename | utils/file_naming.py:27-95 | the name is the preview of the original's base name joined onto the output directory and made conflict-free; a format that is not a string gives `<stem>_watermarked.jpg` |
| FileNaming.ValidateOutputDirectoryIff | utils/file_naming.py:136-170 | a directory is accepted exactly when it is named, can be made and holds none of the originals, and only acceptance comes with an empty message |
| FileUtils.GetSafeFilename | releases/ImageWatermarker-v1.0.0/utils/file_utils.py:11-29 | the replacement loop followed by the strip gives the specified safe name |
| FileUtils.SafeFilenameFacts | releases/ImageWatermarker-v1.0.0/utils/file_utils.py:16-29 | a safe name is never empty, holds no unsafe character, and neither starts nor ends with a space or a dot; a name of only spaces and dots (the empty one included) gives 'untitled', and any other name gives a slice of its sanitised form cut only at spaces and dots |
| FileUtils.SanitisedIsSafe | releases/ImageWatermarker-v1.0.0/utils/file_utils.py:16-21 | sanitising leaves no unsafe character and keeps every other character where it was |
| FileUtils.SafeFilenameIdempotent | releases/ImageWatermarker-v1.0.0/utils/file_utils.py:16-29 | a second application changes nothing |
| FileUtils.EnsureUniqueFilename | releases/ImageWatermarker-v1.0.0/utils/file_utils.py:32-54 | a free path comes back unchanged; otherwise the result is the first free `<stem>_<n><suffix>` with n ≥ 1, every earlier counter being taken |
| FileUtils.TaggedInjective | releases/ImageWatermarker-v1.0.0/utils/file_utils.py:46-52 | different counters give different names, so the unbounded probe ends |
| FileUtils.FontNameOfFile | releases/ImageWatermarker-v1.0.0/utils/file_utils.py:152-156 | the font name of `<dir>/<name><.ext>` is `name` |
| FileUtils.ValidateOutputDirectoryIff | releases/ImageWatermarker-v1.0.0/utils/file_utils.py:159-186 | a directory is accepted exactly when it is named, can be made, is writable and holds no input; a failed creation is reported before the other checks |
| FileUtils.ReleaseCheckIsStricter | releases/ImageWatermarker-v1.0.0/utils/file_utils.py:159-186 | the release's check accepts only directories the naming manager's check accepts, and the two agree on every writable directory |
| Thumbnails.EmptyIsConsistent | utils/thumbnail.py:14-23 | an empty cache satisfies the invariant that the cached keys are exactly the access order, each once |
| Thumbnails.TouchMovesToBack | utils/thumbnail.py:40-42 | a hit keeps the cache and the invariant, puts the key last and keeps the other keys in their order |
| Thumbnails.HitIgnoresCreate | utils/thumbnail.py:40-42 | a hit creates no thumbnail and returns the cached one |
| Thumbnails.AddKeepsInvariant | utils/thumbnail.py:95-105 | an insert fails exactly when it pops from an empty order; otherwise the invariant holds, the entry is cached and last, and a full cache loses exactly its front key |
| Thumbnails.EvictFront | utils/thumbnail.py:98-101 | an insert into a full cache drops exactly the front key's entry |
| Thumbnails.AddStaysWithinSize | utils/thumbnail.py:97-105 | with a cache size of at least 1 an insert never fails and never leaves more entries than the size |
| Thumbnails.SameShapeSharesEntry | utils/thumbnail.py:52-56 | two images of the same size and mode asked for at the same target size get the same thumbnail |
| Thumbnails.CacheSizeIsOrderLength | utils/thumbnail.py:118-123 | under the invariant the number of cached entries equals the length of the access order |
| Thumbnails.ThumbnailManager.constructor | utils/thumbnail.py:14-23 | a new manager has the given size, an empty cache and an empty order |
| Thumbnails.ThumbnailManager.GetThumbnail | utils/thumbnail.py:25-50 | the method returns the specified thumbnail and leaves the specified state, keeping the invariant |
| Thumbnails.ThumbnailManager.AddToCache | utils/thumbnail.py:95-105 | the method evicts the front when full and appends the new key, or reports the empty-pop error with nothing changed |
| Thumbnails.ThumbnailManager.UpdateAccessOrder | utils/thumbnail.py:107-111 | the method removes the key's first occurrence and appends it |
| Thumbnails.ThumbnailManager.ClearCache | utils/thumbnail.py:113-116 | both structures become empty |
| Thumbnails.ThumbnailManager.GetCacheInfo | utils/thumbnail.py:118-123 | the method reports the number of cached entries and the maximum size |
| ConfigManagement.InitialStoreValid | core/config_manager.py:61-90 | the fresh store holds only `Default`, which is last used |
| ConfigManagement.SaveTouchesOnlyName | core/config_manager.py:116-137 | saving changes only the entry under the name, which becomes last used; an existing name keeps its place and a new one goes last |
| ConfigManagement.DeleteRule | core/config_manager.py:139-162 | deleting an absent name fails and changes nothing; deleting a present name removes only it, and a deleted last-used name is replaced by `Default` if present, else the first remaining key, else none |
| ConfigManagement.SetLastUsedRule | core/config_manager.py:174-184 | choosing the last used template succeeds exactly for an existing name and changes nothing else |
| ConfigManagement.FilledComplete | core/config_manager.py:248-255 | a completed configuration holds every default key, keeps every key and value it had, and gives each missing key the default value |
| ConfigManagement.ImportCompletes | core/config_manager.py:233-261 | an import saves under its name, which becomes last used, with completed configurations that keep the file's values |
| ConfigManagement.ImportNamePrecedence | core/config_manager.py:240-241 | a non-empty given name wins over the file's name, and the file's name over the file stem |
| ConfigManagement.SettingRoundTrip | core/config_manager.py:205-218 | a setting written is read back, and every other key reads as before |
| ConfigManagement.DefaultsValid | core/config_manager.py:26-90 | the default watermark and export configurations and the default settings are well-formed dictionaries |
| ConfigManagement.ConfigManager.constructor | core/config_manager.py:16-90 | a new manager holds the initial template store and the default settings |
| ConfigManagement.ConfigManager.GetTemplate | core/config_manager.py:111-114 | the method returns the stored template or none |
| ConfigManagement.ConfigManager.SaveTemplate | core/config_manager.py:116-137 | the new store is the save rule's store, and the invariant holds |
| ConfigManagement.ConfigManager.DeleteTemplate | core/config_manager.py:139-162 | the new store and the answer are the delete rule's |
| ConfigManagement.ConfigManager.GetTemplateList | core/config_manager.py:164-167 | the names are exactly the stored template names, each once, in insertion order |
| ConfigManagement.ConfigManager.GetLastUsedTemplate | core/config_manager.py:169-172 | the method returns the last used name |
| ConfigManagement.ConfigManager.SetLastUsedTemplate | core/config_manager.py:174-184 | only an existing name is accepted, and nothing else changes |
| ConfigManagement.ConfigManager.GetSetting | core/config_manager.py:205-208 | the method returns the stored value or the default given |
| ConfigManagement.ConfigManager.SetSetting | core/config_manager.py:210-218 | only the one key changes |
| ConfigManagement.ConfigManager.ImportTemplate | core/config_manager.py:233-261 | the method saves the completed configurations under the import name |
| ConfigManagement.ConfigManager.GetDefaultWatermarkConfig | core/config_manager.py:263-265 | the method returns the default watermark configuration as a value, which callers cannot change |
| ConfigManagement.ConfigManager.GetDefaultExportConfig | core/config_manager.py:267-269 | the method returns the default export configuration as a value |
| ConfigManagement.FillMissing | core/config_manager.py:249-255 | the loop adds each default key the configuration lacks, with its default value |
| ExifStamp.GetExifDate | watermark.py:13-33 | the loop over the fields returns the specified date |
| ExifStamp.ExifDateRule | watermark.py:20-30 | the date comes from the first usable field in the order DateTimeOriginal, Image DateTime, DateTimeDigitized, and there is none when no field is usable; a date is never empty and holds no colon or whitespace |
| ExifStamp.DateTextOfTimestamp | watermark.py:26-28 | "2023:05:01 10:00:00" gives "2023-05-01" |
| ExifStamp.StampPositionRule | watermark.py:63-71 | the corners keep the text 10 px from the two nearest edges, the centre splits the free space by floor division, and an unknown name places the text as bottom-right does |
| ExifStamp.ShadowColor | watermark.py:74 | the shadow is black under white text and white under any other colour |
| ExifStamp.AddWatermarkRule | watermark.py:36-85 | a file without a usable date is never written; a written file gets the shadow one pixel right and down, then the text |
| ExifStamp.ProcessDirectory | watermark.py:88-114 | the loop counts every image file once and lists the output paths of the written ones, in listing order |
| ExifStamp.CountsRule | watermark.py:95-109 | each image file counts exactly once, and a directory without usable dates writes nothing |

## Left out

- Graphical user interface code, threads and template files on disk are not part of this model.
- Pillow internals are parameters whose contracts constrain only sizes: glyph rasterisation, `textbbox`/`getbbox` metrics, LANCZOS resampling, non-zero rotation and image decoding. `paste` is modelled as a per-pixel blend through the layer's alpha in the way the canvas's mode calls for: all four bands on RGBA, the colour bands on RGB, and the layer's luma on L. The blend rounds down, `(s·m + d·(255 − m)) / 255`; Pillow's own rounding can differ by one, so the contracts state the blend's bounds and extremes rather than Pillow's exact values.
- The paste position is not clamped. Pillow's clipping is modelled: only the overlap of canvas and layer changes.
- `apply_watermark`'s conversion of a non-RGBA base is the identity here, because every raster is held in its RGBA expansion; it then pastes in RGBA mode. `render_text_with_effects` does not convert, and pastes in the image's own mode (RGBA, RGB or L).
- Floating point is modelled as exact real arithmetic, truncated by `int()`.
  - `int(w * (p / 100.0))` in the scaler and resizer can differ from the exact value in the last place (w = 200, p = 29 gives 57 in floating point).
  - `validate_float`, `validate_percentage` and the HSV conversions are not modelled.
  - The thumbnail ratios of `_create_thumbnail` are not modelled.
- Thumbnails.GenerateCacheKey: the MD5 digest is modelled as the triple it hashes (size, mode, target size), so two different triples never share a key.
- JSON reading and writing in `ConfigManager` is a field assignment; failures to read or write files, and `export_template`, are not modelled.
- `os.path.abspath` is not modelled: directory checks take absolute, normalised POSIX paths.
- Directory listings (`iterdir`, `os.listdir`) and the file system's order are given as sequences, and file existence as a set of paths.
- `os.makedirs` success is a parameter. Writing image files and printing in `watermark.py` are not modelled.
- `exifread` tag parsing is not modelled: the tags of a file are given as a map from field to text.
- Fonts are represented by the set of names `truetype` can open and by a measuring function.
- TextLayer.GetFont: newer Pillow releases make `truetype` raise for a size of 0 or less; the model loads any size, since the validated sizes are positive.
- `save_image`, `get_image_info` and `create_thumbnail` of `ImageProcessor` are file output or display helpers and are not modelled.
- Thumbnails.ThumbnailManager.GetThumbnail: the `create` parameter is total, so an exception raised while `_create_thumbnail` resizes is not modelled.
- InputValidation.DigitsAndMinus keeps only the ASCII digits '0'..'9', while Python's `\d` keeps every Unicode decimal digit (fullwidth '１' among them).
- DigitsAndMinusFacts states the ASCII-only filter above; a string of non-ASCII decimal digits loses them here and keeps them in the source.
- Strings.ParseInt reads only ASCII digits and letters, where Python's `int()` accepts every Unicode decimal digit; it also has no 4300-digit limit, which makes `int()` raise for longer decimal strings.
- RgbFormValidity and the '#' form of `is_valid_color` inherit that reading: "rgb(５,0,0)" and "#１２３４５６" are valid in the source and invalid here.
