# text_scraper, modelled in Dafny

`tool-suite/text_scraper/text_scraper.py` reads every image in a directory
with EasyOCR and writes, per image, a JSON list of the recognised text boxes
whose confidence reaches `--conf`. This project models the script's own logic:

- **Image selection** (line 27): a directory entry is read as an image when
  its name ends with `.jpg`, `.jpeg` or `.JPG`, matched exactly and
  case-sensitively; listing order is kept (`ImageNames.SelectImages`).
- **Conversion loop** (lines 40-52): the OCR result is a list of
  `(quad, text, confidence)` tuples whose quadrilateral is a list of corner
  lists. A tuple whose confidence is below the threshold is skipped; for a
  kept one, the x and y of corners 0..3 are overwritten in place by `int(...)`
  (truncation toward zero) and a `{coordinates, text, confidence}` record is
  appended. `OcrLoop.ConvertDetections` is that loop over
  `array<array<Num>>` quadrilaterals, proved equal to the value-level
  specification `Detections.Convert`, whose properties are proved as lemmas.
- **Output name** (line 55): `image.split('.')[0] + '.txt'`, with Python's
  `split('.')` modelled as `ImageNames.SplitOnDot` and its inverse
  `JoinWithDot`.
- **Main loop** (lines 26-56): `Batch.ScrapeDirectory` processes the selected
  images in order and records each written file in a map from file name to
  records; a later image with the same output name replaces the earlier file.

Coordinates are modelled as `Numbers.Num`, a Python int or float (a float as
an exact real), so that "every output coordinate is an int" is a property,
not a typing accident. Confidences and the threshold are reals.

## Model

| member | source | states |
|---|---|---|
| `Numbers.Trunc` | tool-suite/text_scraper/text_scraper.py:47-48 | `int()` on a float truncates toward zero: the result has the sign of the input and lies within 1 of it, on the side of zero |
| `Numbers.TruncIsUnique` | tool-suite/text_scraper/text_scraper.py:47-48 | the truncation property determines the integer uniquely |
| `Numbers.TruncIsNotFloor` | tool-suite/text_scraper/text_scraper.py:47-48 | truncation differs from floor on negative non-integers (`int(-2.5) == -2`) |
| `Numbers.ToInt` | tool-suite/text_scraper/text_scraper.py:47-48 | `int(v)` always yields an int and leaves an int unchanged |
| `Numbers.ToIntIdempotent` | tool-suite/text_scraper/text_scraper.py:47-48 | converting a coordinate twice is the same as converting it once |
| `Detections.Passes` | tool-suite/text_scraper/text_scraper.py:42-43 | a tuple is kept exactly when its confidence is at least the threshold (the script skips it when `conf < threshold`) |
| `Detections.IntCorner` | tool-suite/text_scraper/text_scraper.py:47-48 | a converted corner has its x and y as ints (an int kept as is, a float truncated toward zero) and every further entry unchanged |
| `Detections.IntQuad` | tool-suite/text_scraper/text_scraper.py:46-48 | a converted quadrilateral has the same shape; each of corners 0..3 is `IntCorner` of the old corner, so its x and y are `int()` of the values they replace; every other entry is unchanged |
| `Detections.IntCornerIdempotent` | tool-suite/text_scraper/text_scraper.py:46-48 | converting an already converted corner changes nothing |
| `Detections.ToRecord` | tool-suite/text_scraper/text_scraper.py:46-51 | a record copies its tuple's text and confidence; its coordinates are the tuple's quadrilateral with the x and y of corners 0..3 replaced by `int()` of those values and every other entry as it was; with that shape, corners 0..3 hold integer x and y |
| `Detections.Convert` | tool-suite/text_scraper/text_scraper.py:40-52 | the written list never has more records than there are OCR results |
| `Detections.PassingIndices` | tool-suite/text_scraper/text_scraper.py:41-43 | the positions of the kept tuples are strictly increasing, all pass the threshold, and include every position that passes |
| `Detections.KeptIffAtLeastThreshold` | tool-suite/text_scraper/text_scraper.py:42-43 | a tuple is kept exactly when its confidence is at least the threshold; equality is kept |
| `Detections.ConvertByIndex` | tool-suite/text_scraper/text_scraper.py:40-52 | the output is one record per passing tuple, in input order: its length is the number of passing tuples and record k is built from the k-th passing tuple |
| `Detections.RecordFields` | tool-suite/text_scraper/text_scraper.py:46-51 | every record comes from a passing tuple: it copies that tuple's text and confidence unchanged, its coordinates are that tuple's with x and y of corners 0..3 replaced by their `int()`, and those x and y are ints |
| `Detections.FourPointRecordsAreIntegral` | tool-suite/text_scraper/text_scraper.py:46-49 | for a quadrilateral of four (x, y) points every output coordinate is an int |
| `Detections.ThresholdMonotone` | tool-suite/text_scraper/text_scraper.py:42-43 | raising the threshold yields a subsequence of the output at the lower threshold |
| `Detections.ZeroThresholdKeepsAll` | tool-suite/text_scraper/text_scraper.py:42-43 | with threshold 0 every tuple with non-negative confidence is kept: the output is every tuple's record, in order |
| `OcrLoop.TruncateCorners` | tool-suite/text_scraper/text_scraper.py:46-48 | in place, the x and y of corners 0..3 become `int()` of their old values; everything else in the quadrilateral is unchanged |
| `OcrLoop.ConvertKept` | tool-suite/text_scraper/text_scraper.py:44-52 | for one kept tuple: its corners 0..3 are truncated in place, no other list changes, and the record built is that of the tuple's initial contents |
| `OcrLoop.ConvertDetections` | tool-suite/text_scraper/text_scraper.py:40-52 | the returned list equals the specification on the tuples' initial contents; kept tuples' quadrilaterals are truncated in place, skipped tuples' lists are left exactly as they were |
| `ImageNames.EndsWith` | tool-suite/text_scraper/text_scraper.py:27 | `str.endswith`: the suffix matches the end of the name character by character, exactly |
| `ImageNames.IsImageName` | tool-suite/text_scraper/text_scraper.py:27 | a name is an image exactly when it ends with one of `.jpg`, `.jpeg`, `.JPG` |
| `ImageNames.SelectImages` | tool-suite/text_scraper/text_scraper.py:27 | a name is selected exactly when it is in the listing and ends with `.jpg`, `.jpeg` or `.JPG` |
| `ImageNames.SelectImagesKeepsOrder` | tool-suite/text_scraper/text_scraper.py:27 | the selected names are a subsequence of the listing (listing order kept) |
| `ImageNames.SelectImagesCounts` | tool-suite/text_scraper/text_scraper.py:27 | each accepted name occurs as often as in the listing, every other name not at all |
| `ImageNames.AcceptedSuffixes` | tool-suite/text_scraper/text_scraper.py:27 | names ending in `.jpg`, `.jpeg` and `.JPG` are accepted |
| `ImageNames.RejectedSuffixes` | tool-suite/text_scraper/text_scraper.py:27 | the match is exact and case-sensitive: `.JPEG`, `.Jpg`, `.png` and a bare `jpg` are rejected |
| `ImageNames.SelectBothSpellings` | tool-suite/text_scraper/text_scraper.py:27 | `a.jpg` and `a.jpeg` are both selected, in listing order |
| `ImageNames.SplitOnDot` | tool-suite/text_scraper/text_scraper.py:55 | `split('.')` returns at least one field and no field contains a dot |
| `ImageNames.SplitThenJoin` | tool-suite/text_scraper/text_scraper.py:55 | joining the fields of `split('.')` with dots gives the name back |
| `ImageNames.JoinThenSplit` | tool-suite/text_scraper/text_scraper.py:55 | splitting dot-free fields joined with dots gives the fields back |
| `ImageNames.SplitDotFreeHead` | tool-suite/text_scraper/text_scraper.py:55 | a dot-free head is prepended to the first field of what follows it |
| `ImageNames.OutputName` | tool-suite/text_scraper/text_scraper.py:55 | the output name is the part of the image name before its first dot plus `.txt`: at least 4 and at most `len(image) + 4` characters long (its exact form is `OutputNameIsStemTxt`) |
| `ImageNames.FirstFieldIsStem` | tool-suite/text_scraper/text_scraper.py:55 | the first field is the prefix of the name up to (not including) its first dot, or the whole name when it has none |
| `ImageNames.OutputNameIsStemTxt` | tool-suite/text_scraper/text_scraper.py:55 | the output name is that dot-free prefix followed by `.txt` |
| `ImageNames.StemNamesOutput` | tool-suite/text_scraper/text_scraper.py:55 | every name `stem.rest` with a dot-free stem is written to `stem.txt`, so names sharing a stem collide |
| `ImageNames.CollidingImages` | tool-suite/text_scraper/text_scraper.py:55 | `a.jpg`, `a.jpeg` and `a.b.jpg` all map to `a.txt` |
| `Batch.Outputs` | tool-suite/text_scraper/text_scraper.py:30-56 | the directory after processing images in order, each writing the file named after it; the last image's file holds that image's converted results |
| `Batch.OutputsNames` | tool-suite/text_scraper/text_scraper.py:30-56 | exactly one file is written per distinct output name of the processed images |
| `Batch.LastWriteWins` | tool-suite/text_scraper/text_scraper.py:30-56 | a file holds the converted results of the last image written under its name |
| `Batch.OutputsOfTwo` | tool-suite/text_scraper/text_scraper.py:30-56 | after two images the directory holds the second image's records under its name, and the first's only under a different name |
| `Batch.CollisionOverwrites` | tool-suite/text_scraper/text_scraper.py:27-56 | with `a.jpg` and `a.jpeg` in the listing, only `a.txt` is written and it holds the records of `a.jpeg` |
| `Batch.ReadText` | tool-suite/text_scraper/text_scraper.py:37 | the OCR results arrive as tuples whose corner lists are all fresh and distinct, with the given contents |
| `Batch.ScrapeDirectory` | tool-suite/text_scraper/text_scraper.py:26-56 | the files written are exactly those of processing the selected images in listing order, each converted by the loop |

## Left out

- EasyOCR itself (`easyocr.Reader`, `reader.readtext`, lines 24 and 37): the OCR result of an image is a parameter `ocr: string -> seq<Raw>`, a function of the image name; `Batch.ReadText` only builds fresh lists holding it.
- Image loading, the directory listing and file writing (`Image.open`, `os.listdir`, `open`/`f.write`, lines 27, 34, 55-56): the listing is an input sequence, the output directory a map from file name to the record list; files already in the directory are not modelled.
- JSON serialisation (`json.dumps`, line 56): the written content is the record list itself.
- Argument parsing, the model storage paths, the language list and debug printing (lines 14-24, 31-32, 58-66).
- Floating point: coordinates, confidences and the threshold are exact reals; rounding, NaN and infinities (and `int()` raising on them) are not modelled.
- OcrLoop.ConvertDetections: requires every kept tuple to have at least four corners with at least an x and a y; on a shorter one the script raises `IndexError` and stops, which is not modelled.
- OcrLoop.ConvertDetections: requires that no list the loop overwrites also sits at another corner position (a list repeated among corners 0..3 of one tuple would only be converted twice, which `Detections.IntCornerIdempotent` shows is harmless; a list that also sits at corner 4 or later, or in another tuple, would show the conversion there too, which the value-level specification does not). The script's lists are built fresh by the OCR call, so no sharing arises; with shared lists, later in-place writes would show through earlier records, which the value-level specification does not describe.
- Exceptions in general: the script has no error handling, and any exception (unreadable image, OCR failure) ends the run; the model has no failure path for them.
- Paragraph grouping, reading direction, language identification and entity annotation are not part of this script and are not modelled.
