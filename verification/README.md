# Image-to-PDF compositor, modelled in Dafny

The system takes images uploaded over HTTP, lays them out as the pages of a
PDF (one image per A4 page, or two per double-width page), strokes a border
around every page when the border size is positive, and serves the finished file back once. This project models
its three pieces of logic as pure Dafny functions and proves what they do:

- **PdfGenerator** (`pdf_generator.dfy`): the page compositor. It groups the
  images into pages and sizes each page. Each image is scaled with its aspect
  ratio kept, inset by the border, and centred in its column. It also gives the
  border frame and resolves the colour name. Coordinates are exact `real`s.
  An image is only its pixel size. Drawing is replaced by the rectangles that
  would be drawn.
- **ImageToPdfServlet** (`image_to_pdf_servlet.dfy`): the POST handler. The
  Java item loop is `ParseForm`, a method with a loop. It is proved equal to
  `FormSpec`, a declarative reading: last field wins, defaults otherwise, and
  failure if any item throws. `Convert` gives the outcome of the request.
- **DownloadServlet** (`download_servlet.dfy`): the GET handler as a
  classifier into its five responses. It also gives the path that a served
  request reads.
- **JavaString** (`java_string.dfy`): the `String`/`Integer` operations these
  rely on: `equalsIgnoreCase`, `toLowerCase`, `contains`, `lastIndexOf`,
  `substring` and `parseInt`. The 32-bit wrap of `2 * borderSize` is
  `PdfGenerator.Inset`.
- **EndToEnd** (`end_to_end.dfy`): the name the converter redirects to is one
  the download handler serves.

Inputs the Java code draws from its environment are parameters:
- the random UUIDs (`tokens`, `outToken`);
- whether the request is multipart;
- what each stored upload decodes to (`decode`, a map from stored name to pixel size);
- the output directory (a list of path components);
- the set of files that exist.

### Behaviour of the code worth knowing

- A non-positive scale ratio is not clamped: `Place` computes the raw ratio.
  `NegativeBorderOverflows` shows what a negative border does.
- The page is PDFBox's A4, 595.27563 × 841.8898 points.
- `generatePdf` accepts an empty list and yields no pages: `Compose([])` is
  `[]`. Only the servlet refuses an upload with no images.
- Any colour string is accepted. Names other than red, blue, green and gray
  give black.

### Case folding

`toLowerCase` and `equalsIgnoreCase` are modelled on ASCII letters only. For
the words the program compares against ("double", "red", "blue", "green",
"gray"), this gives the same answer as Java's full Unicode folding. The only
non-ASCII characters that fold onto ASCII letters fold onto `i`, `k` or `s`
(dotted and dotless I, the Kelvin sign, long s), and none of these words
contains those letters.

## Model

| member | source | states |
|---|---|---|
| `PdfGenerator.IsDoubleExactly` | pdfgenerator.java:18 | Double mode is chosen exactly when the layout, lower-cased, is "double"; every other string means single mode |
| `PdfGenerator.ComposePageCount` | pdfgenerator.java:21-23 | The document has n pages in single mode and ceil(n/2) = (n+1)/2 in double mode |
| `PdfGenerator.ComposeKeepsOrder` | pdfgenerator.java:21-23 | Reading the placements page after page gives 0, 1, …, n-1: no image is skipped, duplicated or reordered |
| `PdfGenerator.PageExists` | pdfgenerator.java:21 | Page k exists exactly when its first image, k in single mode and 2k in double mode, is in the input |
| `PdfGenerator.ComposePageShape` | pdfgenerator.java:57-65 | Page k holds two images iff the layout is double and image 2k+1 exists. Two-image pages are 2·A4 wide and one-image pages (including the trailing odd image) are A4. Every page is A4 high |
| `PdfGenerator.ComposeFitsColumns` | pdfgenerator.java:33-47 | The j-th placement of page k shows image k·step + j. It is fitted to column j, which is (0,0,W/2,H) or (W/2,0,W/2,H) on a spread and (0,0,W,H) on an A4 page. This holds whenever 2b fits in an A4 width and b ≥ -2^30, negative borders included |
| `PdfGenerator.ComposeAllocation` | pdfgenerator.java:33-47 | For every border, the j-th placement of page k is image k·step + j, placed by `Place` in column j: (0,0,W/2,H) or (W/2,0,W/2,H) on a spread, (0,0,W,H) on an A4 page |
| `PdfGenerator.MakePageFacts` | pdfgenerator.java:57-86 | One page: how many placements it has, its width and height, which image each placement shows, and that each is fitted to its column. This holds whenever 2b fits in an A4 width and b ≥ -2^30 |
| `PdfGenerator.PlaceKeepsAspect` | pdfgenerator.java:73-79 | The placed size keeps the image's aspect ratio, scaledW·ih = scaledH·iw, for every border |
| `PdfGenerator.PlaceCentred` | pdfgenerator.java:82-83 | The placement is centred in the whole un-inset region: equal gaps left and right, and equal gaps top and bottom |
| `PdfGenerator.PlaceFits` | pdfgenerator.java:75-83 | If -2^30 ≤ b < 2^30 and the region is at least 2b each way, the placed image lies inside the region inset by b on every side (grown by |b| when b < 0). It touches the inset on at least one axis, keeps the aspect ratio and is centred |
| `PdfGenerator.FitIsUnique` | pdfgenerator.java:75-83 | Any rectangle with those four properties is the one placed: the fit is fully determined |
| `PdfGenerator.NegativeBorderOverflows` | pdfgenerator.java:75-83 | With any negative border from -2^30 up, which parseInt lets through, the image reaches |b| past both sides of its region on the axis where it touches the inset |
| `PdfGenerator.NegativeBorderExample` | pdfgenerator.java:75-83 | For instance, b = -10 puts a square image 10 units outside each side of an A4 column |
| `PdfGenerator.Inset` | pdfgenerator.java:75-76 | `2 * borderSize` is `int` arithmetic with wrap-around: it equals 2b for every b with -2^30 ≤ b < 2^30, and otherwise differs from 2b by 2^32 |
| `PdfGenerator.ComposeBorder` | pdfgenerator.java:88-101 | For every border parseInt accepts, each page has its border iff b > 0 (line 29). It is stroked b wide in the chosen colour, around the path at b/2 from the edges, so its outer edge is the page edge |
| `PdfGenerator.BorderClearsImages` | pdfgenerator.java:88-101 | When 2b fits in an A4 width, the border's inner edge is the inset every image keeps, so no image overlaps it |
| `PdfGenerator.ColorTable` | pdfgenerator.java:105-118 | Each of red, blue, green and gray is found from its name. Any colour other than black comes from one of those four names, and every other name gives black |
| `PdfGenerator.ColorIgnoresCase` | pdfgenerator.java:106 | Names equal ignoring case give the same colour |
| `JavaString.LastIndexOf` | ImageToPdfServlet.java:78 | The result is -1 exactly when the character is absent. Otherwise it is a position holding that character, with no later occurrence |
| `JavaString.Substring` | ImageToPdfServlet.java:78 | The substring exists exactly when 0 ≤ begin ≤ length, and prefix + result is the original |
| `JavaString.ParseIntShowInt` | ImageToPdfServlet.java:68 | parseInt reads back every `int` from its decimal text |
| `ImageToPdfServlet.StoredName` | ImageToPdfServlet.java:77-78 | A stored name exists iff the original contains '.'. Without a '.', lastIndexOf gives -1 and substring throws |
| `ImageToPdfServlet.StoredNameShape` | ImageToPdfServlet.java:77-78 | A stored name is the token followed by the original's suffix from its last '.', dot included, with no further '.' after it |
| `ImageToPdfServlet.HandleItem` | ImageToPdfServlet.java:58-83 | Handling one item fails exactly when the item is faulty (an unparsable borderSize, or a non-empty file name without '.'). Otherwise it returns `ApplyItem`, the switch's update, which `FormSpecSnoc` shows is one step of the declarative `FormSpec` |
| `ImageToPdfServlet.LastValueOrigin` | ImageToPdfServlet.java:57-73 | A value found for a field name was the value of some field item with that name |
| `ImageToPdfServlet.ParseForm` | ImageToPdfServlet.java:52-84 | The item loop fails exactly when the declarative reading does, and otherwise yields the same options |
| `ImageToPdfServlet.FormSpecSnoc` | ImageToPdfServlet.java:57-84 | One more item fails the form if it throws. Otherwise it updates the options the way the switch does: layout and borderColor are replaced, borderSize is parsed, and a non-empty upload is appended |
| `ImageToPdfServlet.LastFieldWins` | ImageToPdfServlet.java:63-72 | A field with no later field of the same name decides that option: the last occurrence wins |
| `ImageToPdfServlet.BorderSizeIsLastParsed` | ImageToPdfServlet.java:67-69 | On success, the border size is the parsed value of the last borderSize field |
| `ImageToPdfServlet.FormDefaults` | ImageToPdfServlet.java:52-54 | With no form fields, the options are "single", 3 and "black" |
| `ImageToPdfServlet.UnknownFieldIgnored` | ImageToPdfServlet.java:63-73 | A field with an unrecognised name can be removed without changing the result |
| `ImageToPdfServlet.FaultyItemFails` | ImageToPdfServlet.java:63-84 | One unparsable borderSize anywhere fails the form, even before a valid one. So does a non-empty upload name with no '.' |
| `ImageToPdfServlet.StoredNamesAppend` | ImageToPdfServlet.java:74-82 | The stored names of a concatenation are the concatenation of the stored names, so image order follows upload order |
| `ImageToPdfServlet.StoredNamesSingle` | ImageToPdfServlet.java:76-81 | A non-empty upload contributes its stored name. An empty file name or a form field contributes nothing |
| `ImageToPdfServlet.DecodeAll` | pdfgenerator.java:70 | Decoding succeeds iff every stored image decodes, and the result lists them in order |
| `ImageToPdfServlet.ConvertOutcomes` | ImageToPdfServlet.java:36-108 | The outcomes in order: not multipart; any thrown exception (form or decoding) is a server error; no images is a bad request; otherwise a redirect to "result.html?file=" + token + ".pdf" |
| `ImageToPdfServlet.ConvertedDocument` | ImageToPdfServlet.java:87-93 | A converted document shows every upload once, in upload order. Its page count follows the last layout field |
| `DownloadServlet.Download` | DownloadServlet.java:19-37 | A missing or empty name is refused first. Next come names containing "..", "/" or "\". Then a name `Paths.get` rejects (one holding NUL) throws InvalidPathException, a server error. Then a missing file is not found. A served file is the output directory plus exactly the name as one component, and it exists |
| `DownloadServlet.SplitPath` | DownloadServlet.java:31 | The components a path string resolves to are non-empty and contain no separator |
| `DownloadServlet.SplitAtSeparator` | DownloadServlet.java:31 | A separator splits a path into the components before it followed by those after it. With `OneComponent` this makes the components exactly the separator-free runs of the string, in order |
| `DownloadServlet.OneComponent` | DownloadServlet.java:31 | A non-empty name without separators resolves to exactly one component |
| `DownloadServlet.AcceptedHasNoSeparator` | DownloadServlet.java:26 | A name passing the traversal test contains neither '/' nor '\' |
| `DownloadServlet.GeneratedNameAccepted` | DownloadServlet.java:26-37 | A name of the form UUID text + ".pdf" passes every check, and is served iff the file exists |
| `EndToEnd.ConvertThenDownload` | ImageToPdfServlet.java:88-101 | Once the PDF is in place, downloading the name the converter redirected to streams exactly that file |

## Left out

- Drawing: the PDFBox objects and calls (`PDDocument`, `PDPageContentStream`, `drawImage`, `addRect`, `stroke`, `save`) are not modelled. A page records the rectangles and the border it would draw. Drawing order is not modelled either (the border is drawn before the images).
- Floating point: all geometry is exact `real` arithmetic. `float` rounding, NaN and signed zeros in `Math.min`, and infinities from a zero-sized image are not modelled. A decoded image always has at least one pixel each way (`Pixels`).
- Image decoding is a foreign library: it is the `decode` map, and a name missing from it is a decoding failure.
- `PdfGenerator.PlaceFits`: the contract needs -2^30 ≤ b < 2^30 and a region at least 2b each way. Outside that (a border wider than half a page, or one so large that `2 * borderSize` wraps), the raw ratio is modelled without a clamp, as in the code. Only `PlaceKeepsAspect` and `PlaceCentred` cover that range.
- `JavaString.ParseInt`: only ASCII digits are accepted. Java's `parseInt` also accepts other Unicode decimal digits, which the model treats as a number-format failure.
- Case folding is ASCII only; the section above explains why that is exact for every comparison the program makes.
- Multipart parsing, the 100 MB request size limit, the 1 MB threshold above which an upload is buffered on disk, directory creation in `init`, writing uploads to disk, upload cleanup, streaming, and deleting the file after download are all I/O. Failures of these steps would also be server errors and are not modelled. Cleanup is skipped when an exception occurs, and that is not modelled either.
- UUID generation: tokens are inputs, and their uniqueness (no two uploads colliding) is assumed, not modelled.
- HTTP status codes, messages and headers appear only as outcome constructors. The `result.html` page behind the redirect is not part of this model.
- `DownloadServlet.Download`: the path layer is the Unix one, which rejects only NUL. On Windows `Paths.get` also rejects `<>:"|?*` and other reserved names; those cases are not modelled.
- `ImageToPdfServlet.HandleItem`: an upload name with NUL anywhere in it ends the request as a server error, and the model accepts it. commons-fileupload's `getName()` refuses it with InvalidFileNameException, and a NUL after the last '.' (such as "x.p\0g") would also make `Paths.get` throw at ImageToPdfServlet.java:79. Upload names are modelled as plain strings.
- `DownloadServlet.Download`: path resolution is a list of components with no normalisation. The name "." passes the traversal test and names the output directory itself. In Java `exists()` is then true, and opening the directory as a stream throws FileNotFoundException, a server error. The model answers `Stream` or `NotFound` according to the `existing` set.
- Concurrency across requests.
