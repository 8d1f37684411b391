# pdf-image-compression, modelled in Dafny

The program reads a PDF file and finds every embedded image stream: each
region of the file that matches the regular expression
`(?s)/Type\s*/XObject.*?/Subtype\s*/Image.*?stream(.*?)endstream`. It trims
space, carriage return, line feed, tab and form feed bytes off both ends of
each captured region. It then
decodes the region as JPEG and re-encodes it at quality 50. A region that
fails to decode or to encode is reported with its 1-based number and
skipped. Every surviving image then gets a portrait A4 page of its own
(210 × 297 mm) in a new PDF document. The image is registered as
`image<k>.jpg` and drawn at the page origin with width 297 and height 210.
Finally the document is written out.

The model has six modules, one file each:

- `bytes.dfy` (`Bytes`): the byte type, ASCII literals as bytes, and `Option`.
- `locator.dfy` (`Locator`): a dedicated scanner for the fixed pattern.
  - `IsMatch` describes declaratively every way the pattern can match.
  - `IsChosen` and `IsFindAll` describe which matches Go's leftmost-first
    `FindAllSubmatch` reports.
  - `FindAll` computes those matches, and its contract proves that it
    computes exactly them.
- `trim.dfy` (`Trim`): `bytes.Trim` with the cutset space, CR, LF, tab and form feed.
- `transcode.dfy` (`Transcode`): the decode and re-encode loop, as a method.
  - It is proved against prefix-recursive specification functions over the
    per-region outcomes.
  - The JPEG decoder and encoder are function parameters that either
    produce a value or fail.
- `pdf.dfy` (`Pdf`): the part of the gofpdf document builder the program
  uses. It is a class whose fields are the page list, the image table, the
  compression flag and a closed flag.
- `pipeline.dfy` (`Pipeline`): the page-assembly loop, and `Run`, the whole
  program from the input bytes to the closed document.

The scanner steps over bytes, whereas Go's regexp engine steps over UTF-8
runes. The two agree for this pattern for two reasons:

- Every literal of the pattern begins with an ASCII byte.
- Go decodes an ASCII byte as itself wherever it occurs, including right
  after a malformed multi-byte sequence.

So a literal can start at a byte position exactly when it can start at a rune
boundary, and `(?s).` consumes whatever lies between.

Both `\s*` in the pattern are forced: the literal after each of them starts
with `/`, which is not a space. Backtracking can therefore change only the
three lazy repetitions. It prefers an earlier `/Subtype`, then an earlier
`stream`, then an earlier `endstream` (`Locator.Preferred`).

## Model

| member | source | states |
|---|---|---|
| `Locator.SpaceRunForced` | main.go:27 | a `\s*` followed by a literal that does not start with a space byte can only stop at the end of the longest run of spaces |
| `Locator.XObjectForced` | main.go:27 | the `\s*` between `/Type` and `/XObject` admits exactly one end position, the end of the space run |
| `Locator.ImageForced` | main.go:27 | the `\s*` between `/Subtype` and `/Image` admits exactly one end position, the end of the space run |
| `Locator.SkipSpace` | main.go:27 | greedy `\s*`: the end of the run is in range, every byte before it is one of tab, LF, FF, CR, space, and the byte at the end is not |
| `Locator.FindEnd` | main.go:27 | lazy `(.*?)endstream`: the first `endstream` at or after the position, or none at all |
| `Locator.FindStream` | main.go:27 | lazy `.*?stream(.*?)endstream`: the first `stream` that some later `endstream` closes, with the first such `endstream`; none means no such pair exists |
| `Locator.FindTail` | main.go:27 | lazy `.*?/Subtype\s*/Image.*?stream(.*?)endstream`: the lexicographically preferred (subtype, stream, endstream) among all ways the tail matches, or none if it cannot match |
| `Locator.MatchAt` | main.go:27 | the match reported when the pattern is anchored at a position is a match that is preferred over every other match starting there; none means the pattern matches nowhere from there |
| `Locator.FindAll` | main.go:28 | `FindAllSubmatch(data, -1)`: each reported match is the leftmost one not overlapping the previous, the preferred one at its start, no match starts in the gaps, and none starts after the last |
| `Locator.AllChosen` | main.go:28 | every reported match is a real match of the pattern and the preferred one at its start |
| `Locator.FindAllChained` | main.go:28 | each reported match ends no later than the next one starts, and the first starts at or after the search position |
| `Locator.ImageStreams` | main.go:28 | every element of the match list is a match the regexp engine would choose |
| `Locator.Captures` | main.go:37 | there is exactly one captured region per match |
| `Locator.CaptureDelimited` | main.go:27-37 | each captured region is a contiguous slice of the input, immediately preceded by `stream` and immediately followed by `endstream` |
| `Locator.MatchDelimited` | main.go:27 | in any match, the capture group lies between a `stream` and an `endstream` inside the input |
| `Locator.CaptureMarkers` | main.go:27-37 | within the same match, `/Type<ws>/XObject` and then `/Subtype<ws>/Image` occur, in that order, before the `stream` that opens the capture |
| `Locator.CaptureExcludesEndstream` | main.go:27-37 | because the capture group is lazy, no captured region contains `endstream` anywhere |
| `Locator.ChosenExcludesEndstream` | main.go:27 | the preferred match's capture contains no `endstream` |
| `Locator.ChosenTakesFirstEndstream` | main.go:27 | the preferred match closes its capture at the first `endstream` after its `stream` |
| `Locator.StreamsInOrder` | main.go:28 | matches are pairwise non-overlapping and in strictly increasing order of position |
| `Locator.FirstIsLeftmost` | main.go:28 | if the pattern matches anywhere, the first reported match starts at or before that place |
| `Locator.NoCapturesIffNoMatch` | main.go:28 | no region is captured if and only if the pattern matches nowhere |
| `Trim.Trim` | main.go:38 | `bytes.Trim` with the cutset space, CR, LF, tab, form feed: the result is no longer than the region and neither of its ends is a cutset byte; its full meaning is given by `TrimIsSlice` and `TrimUnique` |
| `Trim.LeftEdge` | main.go:38 | the left scan stops at the first byte outside the cutset; every byte it skips is in the cutset |
| `Trim.RightEdge` | main.go:38 | the right scan stops after the last byte outside the cutset; every byte it drops is in the cutset |
| `Trim.TrimUnique` | main.go:38 | reference characterisation: any split into a cutset prefix, a middle with non-cutset ends (or empty), and a cutset suffix yields that middle |
| `Trim.TrimIsSlice` | main.go:38 | the trimmed region is a contiguous slice of the region; everything cut is in the cutset, and the first and last bytes kept are not |
| `Trim.TrimIdempotent` | main.go:38 | trimming twice equals trimming once |
| `Trim.TrimEmptyIffAllCutset` | main.go:38 | a region trims to empty if and only if every byte of it is whitespace from the cutset |
| `Trim.TrimAbsorbsPadding` | main.go:38 | surrounding a region with cutset bytes does not change what it trims to |
| `Transcode.Attempt` | main.go:37-53 | one iteration of the loop on one region: trim, decode, re-encode at quality 50, with the failing stage on failure; its contract is carried by `OutcomeOfRegion` and `PaddingDoesNotChangeOutcome` |
| `Transcode.TranscodeAll` | main.go:34-54 | the loop's `imageBuffers` and failure reports are exactly the successful payloads and the failures of the per-region outcomes, in region order |
| `Transcode.PayloadsFromSurvivors` | main.go:36-54 | the payload list is an order-preserving selection of the regions: the k-th payload is the payload of the k-th successful region |
| `Transcode.SurvivorsExact` | main.go:36-54 | the selected regions are strictly increasing, and a region is selected if and only if both decoding and encoding succeeded for it |
| `Transcode.FailuresLocated` | main.go:41-50 | every failure report carries the 1-based number i+1 of a region that failed, at the stage that failed, and reports come in increasing order |
| `Transcode.FailuresExact` | main.go:41-50 | a region is reported if and only if it failed |
| `Transcode.EachRegionOnce` | main.go:36-54 | every region is attempted once: the numbers of payloads and of failure reports add up to the number of regions |
| `Transcode.OutcomeOfRegion` | main.go:38-53 | a region succeeds if and only if the trimmed bytes decode and the raster re-encodes with quality 50; the payload is that encoding, and a decode failure is reported as one |
| `Transcode.PaddingDoesNotChangeOutcome` | main.go:37-40 | whitespace around a captured region makes no difference to its outcome |
| `Pdf.Register` | main.go:82 | registration adds the name with the given image, unless the name is taken; an image already registered under a name is never replaced, and other names are untouched |
| `Pdf.Document.New` | main.go:31 | a new document has no pages and no images, is open, compresses, and keeps the given default orientation and size |
| `Pdf.Document.SetCompression` | main.go:32 | sets the compression flag and changes nothing else |
| `Pdf.Document.AddPageFormat` | main.go:66 | appends one empty page of the given orientation and size |
| `Pdf.Document.RegisterImageOptionsReader` | main.go:82 | updates the image table as `Register` says and leaves the pages alone |
| `Pdf.Document.ImageOptions` | main.go:83 | draws the named image on the current (last) page in the given box; earlier pages and the image table are unchanged |
| `Pdf.ClosedPages` | main.go:91 | closing keeps a non-empty page list as it is and turns an empty one into a single blank page of the default format |
| `Pdf.Document.OutputFileAndClose` | main.go:89-95 | if the file cannot be created, the document stays open and unchanged and the call fails; otherwise the document is closed (a document without pages first gets one blank page of its default format) and the call succeeds exactly when writing succeeds |
| `Pipeline.Decimal` | main.go:82 | `%d` of a non-negative number is a non-empty string of decimal digits without a leading zero (except for 0 itself) |
| `Pipeline.DecimalRoundTrip` | main.go:82 | reading back the digits `%d` printed gives the number printed |
| `Pipeline.ImageName` | main.go:82-83 | `fmt.Sprintf("image%d.jpg", n)`; the property that matters, that different numbers give different names, is `ImageNameInjective` |
| `Pipeline.PageFor` | main.go:58-83 | the page one loop iteration builds for the k-th payload; its geometry is stated by `PageGeometry` and the uniqueness of its image name by `PageNamesDistinct` |
| `Pipeline.ImageNameInjective` | main.go:82-83 | `image%d.jpg` names of different numbers are different |
| `Pipeline.PageGeometry` | main.go:58-83 | each page is portrait 210 × 297 with one image at (0, 0), width = page height, height = page width; so the image overhangs the right edge by 87 and leaves the bottom 87 bare |
| `Pipeline.PageNamesDistinct` | main.go:82-83 | no two pages draw the same image name |
| `Pipeline.RegisteredKeeps` | main.go:82 | the assembly loop never replaces an image that was registered before it started |
| `Pipeline.RegisteredLater` | main.go:82 | the name of a later page is still free while earlier pages are being registered |
| `Pipeline.RegisteredLookup` | main.go:82-83 | with the names free, `image{k+1}.jpg` ends up holding exactly the k-th payload; the name is the same at registration and at placement |
| `Pipeline.AddImagePage` | main.go:58-83 | one loop iteration appends exactly the k-th page and registers the payload under its name |
| `Pipeline.AssemblePages` | main.go:56-87 | one page per payload, in payload order, appended after the existing pages, and the image table is the payloads registered in order |
| `Pipeline.Run` | main.go:27-95 | the output document has exactly one page per surviving image, in order, with the images registered under their names, except that with no surviving image the closed document holds a single blank portrait A4 page; failures are as the transcode loop reports them; the document ends closed exactly when the output file could be created, with compression on |
| `Pipeline.NoStreamsNoImages` | main.go:27-56 | an input where the pattern matches nowhere yields no payloads and no failure reports (so `Run` writes just the blank page) |
| `Pipeline.PageShowsPayload` | main.go:56-83 | in the document `Run` builds, page k draws an image registered with exactly the k-th surviving payload |

## Left out

- Reading the input file, the file names, and the console messages (main.go:18-25, 90-97). The input is a byte sequence. Each failure message becomes a `Failure` record carrying the region number and the failing stage, without the Go error text.
- `fileSize`, the size comparison and the percentage printout (main.go:99-124): file-system calls and floating-point output.
- `getOrientation` (main.go:126-158): never called, and built on a foreign PDF library.
- The commented-out orientation and rotation code (main.go:60-75, 85-86): disabled in the source.
- The JPEG codec: `jpeg.Decode` and `jpeg.Encode` are parameters that succeed or fail. The decoded raster is opaque.
- gofpdf internals: page serialisation, stream compression, parsing of the registered JPEG header, fonts, and the byte-level output. Compression is a flag only. `OutputFileAndClose` is a single closing transition; whether the file can be created and whether writing it succeeds are parameters.
- gofpdf's sticky error state: the model assumes every registration and placement succeeds.
- `Pdf.Document.ImageOptions`: requires that the name is registered and that a page exists. For an unregistered name, gofpdf would try to load an image file from disk, which is I/O. The program always adds a page and registers the name first.
- `Pdf.Document.ImageOptions`: drops the flow and link arguments (the program passes `false`, `0` and `""`). It also drops gofpdf's automatic sizing for zero or negative width and height; the program passes positive sizes.
- `Pdf.Document.AddPageFormat`, `Pdf.Document.RegisterImageOptionsReader`, `Pdf.Document.ImageOptions`, `Pdf.Document.OutputFileAndClose`: require an open document. Calls after closing are outside the model, and the program makes none.
- The unit argument of `gofpdf.New` is fixed to millimetres, and the page size name "A4" is the size 210 × 297.
- The general regular-expression engine: only this one pattern is modelled.
