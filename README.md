# Room stager: staging endpoint and upload preparation

The application lets a user upload a photo of a room and get back a
"virtually staged" version from a hosted image-editing model. This project
models its two pieces of local decision logic and proves what they promise.
Every external effect is an input to the model: the storage uploads, the
directory read, the model call and the browser's canvas encoder.

- **`POST /api/stage-room`** (module `StageRoom`, `stage_room.dfy`). The
  handler runs these steps in order:
  - it validates the form field `roomImage` (status 400) and rejects
    HEIC/HEIF photos (status 415), both before any external call;
  - it uploads the photo;
  - it selects at most three reference images from the example-rooms
    listing (extension filter, sort, first three);
  - on a public origin it turns them into public URLs; on a loopback origin
    it reads and uploads each one, with a MIME type taken from its
    extension;
  - it builds the prompt, whose closing clause depends on whether references
    exist;
  - it makes one generation call with the photo first;
  - it takes the staged URL and the description from either shape of the
    result, and maps a caught error to a status and details.

  `Post` returns an `Outcome`: the response together with the trace of
  external calls made, in order. That trace is how "before any upload" and
  "no storage or generation call" are stated.
- **The upload page** (module `Preprocess`, `preprocess.dfy`) covers two
  things:
  - `preprocessImage`: files under 3,500,000 bytes pass through. Larger ones
    are decoded and drawn on a canvas of at most 2048 pixels a side, which
    never upscales. The canvas is then encoded as WebP, then JPEG, at
    qualities 0.9 down to 0.4, until a blob is under 4,000,000 bytes. A
    missing blob abandons that format. When nothing fits, the original file
    is kept.
  - `handleFileSelect`: it keeps the first chosen file only when its type
    starts with `image/`.
- **Shared helpers** live in module `Text` (`text.dfy`): ASCII lower-casing,
  prefix, suffix and substring tests, the last index of a character, and the
  default string order of `Array.prototype.sort` with insertion sort. The
  sort is proved sorted, a permutation of its input and unique. `Wrappers`
  (`wrappers.dfy`) holds `Option` and `Result`.

The encoding loop is specified declaratively:
- `Made(f, i)` holds when the `i`-th attempt of format `f` is made: every
  earlier blob of `f` exists and is too large, and JPEG is started only when
  WebP yields nothing.
- `Chosen(f, i)` holds when it is made and fits.
- `Rank` orders attempts as WebP 0.9…0.4, then JPEG 0.9…0.4.

`PreprocessImage` is proved to return:
- the file from the chosen attempt's blob, whenever an attempt is chosen;
- the original file when nothing fits.

Its ghost trace `tried` is exactly the attempts made, in increasing rank.
The inner quality loop is the method `TryFormat`, called once per format by
the outer loop of `PreprocessImage`. Together they keep the nested
`for`/`break`/`return` structure of the source.

## Model

| member | source | states |
|---|---|---|
| StageRoom.Post | src/app/api/stage-room/route.ts:12-161 | A missing or non-file `roomImage` gives 400 "No room image provided", exactly then, with no external call. A HEIC/HEIF photo gives 415, exactly then, with no external call. Calls happen iff the form passed both checks, and the first one uploads the photo. Failures of form parsing or of the upload map through the error mapping. Otherwise the calls are: upload, listing, example uploads, one generation call; the response is the mapped generation outcome. |
| StageRoom.HeicIff | src/app/api/stage-room/route.ts:25-31 | A photo is HEIC/HEIF iff its lower-cased name ends in `.heic` or `.heif`, or `image/heic` or `image/heif` occurs at some position of its lower-cased type (unanchored, case-insensitive). |
| StageRoom.ExampleImages | src/app/api/stage-room/route.ts:48-52 | The filtered listing holds only example images, each with its multiplicity in the listing, and nothing else. |
| StageRoom.ReadmeExclusionRedundant | src/app/api/stage-room/route.ts:48-52 | The `readme.md` exclusion changes nothing: a name passes the filter iff it has an accepted image extension. |
| StageRoom.SelectExamples | src/app/api/stage-room/route.ts:54-55 | At most three names are selected. |
| StageRoom.SelectedAreImages | src/app/api/stage-room/route.ts:48-55 | Every selected name ends, in any case, in `.jpg`, `.jpeg`, `.png` or `.webp`, and is not `readme.md`. |
| StageRoom.SelectedAreFirst | src/app/api/stage-room/route.ts:54-55 | min(3, n) names are selected, in sorted order, all drawn from the filtered listing (as a sub-multiset), and each sorts at or before every example image left out. |
| StageRoom.SelectedFromListing | src/app/api/stage-room/route.ts:48-55 | The selection is a sub-multiset of the filtered listing: sorting and slicing add no name. |
| StageRoom.SelectionIgnoresListingOrder | src/app/api/stage-room/route.ts:47-55 | Two listings with the same names (as multisets) give the same selection. |
| StageRoom.LocalOriginIff | src/app/api/stage-room/route.ts:59 | An origin is loopback iff `localhost` or `127.0.0.1` occurs in it at some position. |
| StageRoom.PublicExampleUrls | src/app/api/stage-room/route.ts:63-65 | One URL per file, same length and order, each `origin + "/example-rooms/" + file`. |
| StageRoom.ExtNameShape | src/app/api/stage-room/route.ts:72 | A non-empty `path.extname` starts with a dot, is a proper suffix of the name and has no further dot. |
| StageRoom.ExtNameAt | src/app/api/stage-room/route.ts:72 | When the last dot is at `k`, neither first nor last, the extension is the name from `k` on. |
| StageRoom.ExtNameOfSuffix | src/app/api/stage-room/route.ts:72 | A name longer than a dot-led, dot-free extension that it ends with (ignoring case) has exactly that ending as its extension. |
| StageRoom.LowerExtension | src/app/api/stage-room/route.ts:72-78 | The lower-cased extension equals `e` iff the name is longer than `e` and ends in `e` ignoring case. |
| StageRoom.LowerExtensionEnds | src/app/api/stage-room/route.ts:72 | One direction of the previous row: a lower-cased extension equal to `e` means the name ends in `e` ignoring case and is longer. |
| StageRoom.MimeForIff | src/app/api/stage-room/route.ts:72-78 | The upload type is `image/png` iff the name ends in `.png` ignoring case and is longer than it. It is `image/webp` likewise for `.webp`. Otherwise it is `image/jpeg`, so `.jpg`, `.jpeg` and a bare `.png` name are uploaded as JPEG. |
| StageRoom.StoreExamples | src/app/api/stage-room/route.ts:68-86 | The uploads succeed as a whole iff every file's read and upload succeeds. Then there is one storage URL per file, in order, each the result for that file and its MIME type. |
| StageRoom.StoreCalls | src/app/api/stage-room/route.ts:69-84 | One read-and-upload call per selected file, in order, with that file's MIME type. |
| StageRoom.ReferenceUrls | src/app/api/stage-room/route.ts:45-90 | There are at most three reference URLs. |
| StageRoom.ReferenceSources | src/app/api/stage-room/route.ts:45-90 | A failed listing gives no references. A public origin gives the public URLs of the selection. On a loopback origin, a failed read or upload of any selected file gives no references; when every one succeeds there is one reference per selected file, in order, each the storage URL returned for that file and its MIME type. |
| StageRoom.ExampleImagesSnoc | src/app/api/stage-room/route.ts:48-52 | Filtering a listing with one more name appends that name exactly when it is an example image. |
| StageRoom.FilterExamples | src/app/api/stage-room/route.ts:47-52 | The filtering loop returns exactly the filtered listing `ExampleImages`. |
| StageRoom.MapPublicUrls | src/app/api/stage-room/route.ts:63-65 | The mapping loop returns exactly `PublicExampleUrls` of the selection. |
| StageRoom.StoreCallsSnoc | src/app/api/stage-room/route.ts:69-84 | One more file adds exactly one read-and-upload call, for that file with its MIME type. |
| StageRoom.StoreExamplesSnoc | src/app/api/stage-room/route.ts:68-86 | One more file appends its storage URL when every earlier upload and its own succeed; otherwise the whole fails. |
| StageRoom.StorePrefix | src/app/api/stage-room/route.ts:68-86 | The same two facts for the first `i + 1` files of a list in terms of the first `i`. |
| StageRoom.UploadExamples | src/app/api/stage-room/route.ts:68-86 | The upload loop starts one read-and-upload per selected file, in order (`StoreCalls`), and yields the storage URLs exactly as `StoreExamples`: all of them in order, or none when any fails. |
| StageRoom.ResolveReferences | src/app/api/stage-room/route.ts:44-90 | The reference step (list, filter, sort, slice, branch on origin, catch) computes exactly `ReferenceUrls`, so everything proved about that function holds of it. It makes exactly the example uploads of `ExampleCalls`. |
| StageRoom.PromptClauses | src/app/api/stage-room/route.ts:92-110 | The prompt starts with the fixed instructions. It ends with the reference clause iff there are references, and with the generic clause iff there are none. |
| StageRoom.ClausesDiffer | src/app/api/stage-room/route.ts:104-110 | No text ends with both closing clauses, so the ending tells which branch was taken. |
| StageRoom.RequestImages | src/app/api/stage-room/route.ts:112-118 | `image_urls` has 1 to 4 entries: the photo first, then exactly the references. |
| StageRoom.StagedUrlChoice | src/app/api/stage-room/route.ts:127-128 | The top-level first image URL wins when non-empty, else the nested one. The URL is empty iff neither place has one. |
| StageRoom.DescriptionChoice | src/app/api/stage-room/route.ts:134-137 | The description is never empty. The top-level one wins, then the nested one. The default message appears iff both are empty, or the winning one is that message. |
| StageRoom.FailureResponse | src/app/api/stage-room/route.ts:139-160 | For an object error: the status is its numeric `status`, else 500; the details are its `body` when present, else its `message`, else "Unknown error", always under "Failed to stage room". A non-object error gives 500 with "Unknown error". |
| StageRoom.Stage | src/app/api/stage-room/route.ts:44-138 | The calls after the photo upload are exactly `StageCalls`: the listing, the example uploads, the generation call with the built request. The response is the generation outcome mapped to 200 with the staged URL and description, or to the failure response. |
| StageRoom.StageProtocol | src/app/api/stage-room/route.ts:42-118 | The calls keep the earlier ones, then the listing call; every call between it and the last is an example upload, at most three, and only on a successful listing with a loopback origin; the last call is a generation call, so it is the only one after the listing, and its first image is the uploaded photo. |
| Text.LowerIdempotent | src/app/api/stage-room/route.ts:25 | Lower-casing twice is lower-casing once. |
| Text.ContainsIff | src/app/api/stage-room/route.ts:30 | The left-to-right search finds `t` in `s` iff `t` occurs in `s` at some index. |
| Text.LastIndexOf | src/app/page.tsx:86 | None iff the character is absent. Otherwise an index holding the character, with no occurrence after it. |
| Text.LexLeReflexive | src/app/api/stage-room/route.ts:54 | The sort order is reflexive. |
| Text.LexLeTotal | src/app/api/stage-room/route.ts:54 | Any two strings are comparable. |
| Text.LexLeAntisymmetric | src/app/api/stage-room/route.ts:54 | Strings ordered both ways are equal. |
| Text.LexLeTransitive | src/app/api/stage-room/route.ts:54 | The order is transitive. |
| Text.Insert | src/app/api/stage-room/route.ts:54 | Inserting adds exactly one copy of the element and keeps a sorted list sorted. |
| Text.SortStrings | src/app/api/stage-room/route.ts:54 | `sort()` output is sorted and a permutation of its input. |
| Text.SortedUnique | src/app/api/stage-room/route.ts:54 | Two sorted lists with the same elements are equal, so the sorted result is determined. |
| Text.SortIgnoresOrder | src/app/api/stage-room/route.ts:54 | Sorting gives the same list for any order of the same names. |
| Preprocess.RoundDiv | src/app/page.tsx:65-66 | `Math.round(n / d)`: the result is within one half of `n / d`, with halves rounded up. |
| Preprocess.ScaledSide | src/app/page.tsx:63-66 | Scaling by 2048 / longest never exceeds 2048 or the side itself, and the longest side becomes exactly 2048. |
| Preprocess.TargetCanvasBounds | src/app/page.tsx:63-66 | Target sides are at least 1; they never upscale a side of at least 1; they equal the bitmap's sides (at least 1) when its longer side is at most 2048; otherwise the longer target side is 2048. |
| Preprocess.StripExtensionSpec | src/app/page.tsx:86 | When `/\.[^.]+$/` matches at `k`, the base name is the name up to `k`. With no match, the name is kept whole. |
| Preprocess.RenameIdempotent | src/app/page.tsx:86 | Renaming an already renamed file for the same format changes nothing. |
| Preprocess.ChosenUnique | src/app/page.tsx:80-88 | At most one attempt is chosen. |
| Preprocess.ChosenExists | src/app/page.tsx:80-94 | Some attempt is chosen iff WebP or JPEG yields a file. |
| Preprocess.TraceExtend | src/app/page.tsx:82-83 | Recording the attempt of the next rank extends the trace by that rank. |
| Preprocess.TraceSkip | src/app/page.tsx:84 | Ranks that hold no made attempt can be passed over without changing the trace. |
| Preprocess.Step | src/app/page.tsx:82-83 | The `i`-th attempt is made once the earlier blobs were too large (and, for JPEG, WebP yielded nothing). Recording it extends the trace. |
| Preprocess.Abandoned | src/app/page.tsx:84 | A null blob means the format yields nothing, and no later quality of it is made. |
| Preprocess.AbandonedTrace | src/app/page.tsx:84 | After a null blob the trace is complete up to the next format. |
| Preprocess.FirstFit | src/app/page.tsx:85-87 | The first blob under budget is chosen, and no attempt after it in order is made. |
| Preprocess.FirstFitTrace | src/app/page.tsx:85-87 | After the chosen attempt the trace is complete. |
| Preprocess.Exhausted | src/app/page.tsx:82-90 | Six blobs all too large means the format yields nothing. |
| Preprocess.NothingChosen | src/app/page.tsx:93-94 | When neither format yields a file, no attempt is chosen. |
| Preprocess.TraceComplete | src/app/page.tsx:76-91 | A complete trace lists only made attempts, at qualities 0.9 to 0.4, in order WebP 0.9…0.4 then JPEG 0.9…0.4. It holds every made attempt and has at most 12 entries. |
| Preprocess.TryFormat | src/app/page.tsx:81-90 | One format's loop returns a blob size iff some attempt of that format is made and fits. That size is under 4,000,000 bytes and is the blob of the chosen attempt. Either way the loop extends the trace with exactly the attempts made. |
| Preprocess.PreprocessImage | src/app/page.tsx:52-95 | A file under 3,500,000 bytes comes back unchanged with no encoding. A decode failure is the only error. With no 2D context the original comes back. Otherwise a chosen attempt gives a file named by the renaming rule, with that format's MIME type and the blob's size. When neither format yields a file, the original comes back. The encoder calls are exactly the attempts made, in order, at most 12. A new file is under 4,000,000 bytes and is `image/webp` or `image/jpeg`. |
| Preprocess.Home.constructor | src/app/page.tsx:8 | Nothing is selected at first. |
| Preprocess.Home.HandleFileSelect | src/app/page.tsx:12-17 | The first file becomes the selection iff there is one and its type starts with `image/`. Otherwise the selection is unchanged, so only images are ever selected. |

## Left out

- External calls are not modelled. These become oracle inputs whose results
  are given: `fal.storage.upload`, `fal.subscribe`, `fal.config`, reading the
  form, `fs.readdir`, `fs.readFile`, and the request origin. Credentials and
  logging are not modelled.
- `Promise.all` in the loopback branch: the uploads run concurrently. They
  are modelled as one pass that fails as a whole when any read or upload
  fails. The trace records one call per selected file whatever fails, as
  all are started.
- `StageRoom.Post`: the payload is kept as text. JSON encoding, a
  non-string `body` as details, and a numeric status that `NextResponse`
  would refuse (outside 200-599) are not modelled.
- Lower-casing is ASCII only. Case-insensitive regular expressions without
  the `u` flag never match a non-ASCII character against an ASCII pattern
  letter, so they agree with this. `toLowerCase` does map two non-ASCII
  characters to ASCII letters:
  - the Kelvin sign becomes `k`;
  - `İ` becomes `i` followed by a combining dot.

  Neither can complete any ending or name compared here, so the results
  agree. The model does not otherwise capture Unicode case mapping.
- `Array.prototype.sort` compares UTF-16 code units. It is modelled as
  character-code order on `string`, which agrees for names in the Basic
  Multilingual Plane.
- `imageFiles.sort()` works in place. It is modelled as reassigning the
  sorted value, because the array is not aliased anywhere else.
- Quality is kept as integer tenths (9 down to 4) rather than the
  floating-point `0.9 - 0.1·i`.
- The scale is exact rational arithmetic: `round(side · 2048 / longest)`.
  Floating-point rounding of `bitmap.width * scale` is not modelled.
- Canvas, bitmap and image decoding (`createImageBitmap`, `loadImage`,
  `imageToBitmap`, `drawImage`, `toBlob`) are not modelled. The model gets:
  - the decoded size, or a decode failure;
  - whether a 2D context exists;
  - an encoder that gives a blob size or no blob.

  A browser that returns a PNG blob for an unsupported WebP request is seen
  only through that blob's size.
- `File` keeps only a name, a type and a size. The bytes and the other
  browser fields are not modelled.
- `handleUpload` is not modelled: the form post, the navigation to the
  result page and the `isUploading` flag. It calls `preprocessImage`
  outside its `try`, so a decode failure rejects `handleUpload` without the
  "Error uploading image" alert (page.tsx:24 is before the `try` at :28).
  The model returns the decode failure as `Failure(DecodeFailed)`.
- The result page `src/app/result/page.tsx` is not part of this model: it is
  presentation only.
- The prompt is kept character for character, including the mis-decoded em
  dash (`â€”`) in the source text.
