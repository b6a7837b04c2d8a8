/**
 * The staging endpoint, `POST /api/stage-room`: validates the uploaded room
 * photo, uploads it to storage, resolves up to three reference images, builds
 * the prompt, calls the image-editing model and shapes the JSON response.
 *
 * Every external call is an input: the parsed form, the storage upload of the
 * room photo, the directory listing of the example rooms, the request origin,
 * an oracle that reads and uploads one example file, and an oracle for the
 * generation call. The outcome records the response together with the
 * external calls made, in the order the handler makes them.
 */
module StageRoom {
  import opened Wrappers
  import opened Text

  const NoImageError := "No room image provided"
  const UnsupportedFormatError := "Unsupported image format (HEIC/HEIF). Please upload JPG, PNG, or WEBP."
  const FailedError := "Failed to stage room"
  const DefaultDescription := "Room staged successfully"
  const ExamplesPath := "/example-rooms/"
  /** The number of reference images the prompt is written for. */
  const MaxExamples := 3

  const BasePrompt :=
    "Transform the uploaded photo of a cozy attic bedroom (with large slanted window, warm wood beams, brick elements, built-in shelving, and a mix of orange, cream, and natural wood tones). Preserve all architectural details and layout exactly as in the source image: keep the size, perspective, positions and shapes of windows and doors, placement of structural beams, and all built-in features intact." +
    " Restyle the room to precisely match the textures, color palette, and overall visual style of the three attached example images." +
    " Use the same design language and atmosphere: contemporary urban style, with a warm, inviting vibe, coordinated staging, playful decor touches, and a cohesive color story." +
    " Change the surface colors, wall/ceiling hues, flooring, furniture finishes, bedding, and decor accents so they reflect the exact style, materials, and mood of the sample images." +
    " Adapt staging and arrangement to feel as professionally finished as the references, applying cohesive styling and visual balance." +
    " Important:" +
    " Do not alter the layout, scale, or structure\U{00E2}\U{20AC}\U{201D}window, door, and beam positions must remain unchanged." +
    " Only transform colors, textures, and decorative elements (such as throw blankets, rugs, artwork, and small objects) to match the exemplary style." +
    " Be true to the style and ambiance of the sample images: warm light, coordinated accent pops, and a modern yet lived-in, creative atmosphere." +
    " Style keywords for emphasis: Urban contemporary, warm color palette, natural textures, playful modern decor, casual and artistic staging, brick and wood accents."

  /** The closing clause when reference images were resolved. */
  const ReferenceClause :=
    " Use the style and staging approach shown in the example images to create a professionally staged room."

  /** The closing clause when there are no reference images. */
  const GenericClause :=
    " Create a modern, clean, and professionally staged room with appropriate furniture, lighting, and decor that would appeal to potential buyers or renters."

  // ---------------------------------------------------------------------------
  // Inputs and outputs

  /** What the form holds under the field `roomImage`. */
  datatype FormValue =
    | Missing                                          // no such field
    | TextValue(text: string)                          // a plain text field: no `arrayBuffer`
    | FileValue(name: string, contentType: string)     // an uploaded file part

  /**
   * A caught exception, as far as the handler inspects it. For an object:
   * its `status` when that is a number, its `body` when it has one (given as
   * its JSON text), and its message when it is an `Error` instance.
   */
  datatype Thrown =
    | ThrownObject(status: Option<int>, body: Option<string>, message: Option<string>)
    | ThrownPrimitive                                  // null, a string, a number, ...

  /** One entry of an `images` list; `url` is None when the entry has none. */
  datatype GeneratedImage = GeneratedImage(url: Option<string>)

  datatype GenerationData = GenerationData(images: Option<seq<GeneratedImage>>, description: Option<string>)

  /** The generation result in either of its two shapes: top-level fields, or nested under `data`. */
  datatype GenerationResult =
    GenerationResult(images: Option<seq<GeneratedImage>>, data: Option<GenerationData>, description: Option<string>)

  /** The input of the image-editing call. */
  datatype GenerationRequest =
    GenerationRequest(prompt: string, imageUrls: seq<string>, numImages: nat, outputFormat: string)

  datatype Body =
    | ErrorBody(error: string)                                                        // {error}
    | FailureBody(error: string, details: string)                                     // {error, details}
    | SuccessBody(originalImageUrl: string, stagedImageUrl: string, description: string)  // {success: true, ...}

  datatype Response = Response(status: int, body: Body)

  /** An external call the handler makes. */
  datatype ExternalCall =
    | UploadRoomImage                            // storage upload of the room photo
    | ListExamples                               // listing of the example-rooms directory
    | StoreExample(file: string, mime: string)   // read of one example file and its storage upload
    | Generate(request: GenerationRequest)       // the image-editing call

  datatype Outcome = Outcome(response: Response, calls: seq<ExternalCall>)

  function Min(a: int, b: int): int { if a <= b then a else b }

  // ---------------------------------------------------------------------------
  // Validation

  /** The name or the declared type marks the photo as HEIC/HEIF. */
  predicate IsHeic(name: string, contentType: string)
  {
    var lowerName := Lower(name);
    var lowerType := Lower(contentType);
    EndsWith(lowerName, ".heic") || EndsWith(lowerName, ".heif") ||
    Contains(lowerType, "image/heic") || Contains(lowerType, "image/heif")
  }

  /** The type test is an unanchored, case-insensitive search for either MIME type. */
  lemma HeicIff(name: string, contentType: string)
    ensures IsHeic(name, contentType) <==>
      || EndsWith(Lower(name), ".heic") || EndsWith(Lower(name), ".heif")
      || (exists i: nat :: OccursAt(Lower(contentType), "image/heic", i))
      || (exists i: nat :: OccursAt(Lower(contentType), "image/heif", i))
  {
    var lowerType := Lower(contentType);
    ContainsIff(lowerType, "image/heic");
    ContainsIff(lowerType, "image/heif");
    assert IsHeic(name, contentType) <==>
      || EndsWith(Lower(name), ".heic") || EndsWith(Lower(name), ".heif")
      || Contains(lowerType, "image/heic") || Contains(lowerType, "image/heif");
    assert Contains(lowerType, "image/heic") <==> exists i: nat :: OccursAt(Lower(contentType), "image/heic", i);
    assert Contains(lowerType, "image/heif") <==> exists i: nat :: OccursAt(Lower(contentType), "image/heif", i);
  }

  /** The form passed both checks, so the handler goes on to upload. */
  predicate Validated(form: Result<FormValue, Thrown>)
  {
    form.Success? && form.value.FileValue? && !IsHeic(form.value.name, form.value.contentType)
  }

  // ---------------------------------------------------------------------------
  // Reference-image selection

  /** The name ends, in any letter case, with one of the accepted image extensions. */
  predicate HasImageExtension(file: string)
  {
    var lower := Lower(file);
    EndsWith(lower, ".jpg") || EndsWith(lower, ".jpeg") || EndsWith(lower, ".png") || EndsWith(lower, ".webp")
  }

  /** The filter applied to the example-rooms listing. */
  predicate IsExampleImage(file: string)
  {
    HasImageExtension(file) && Lower(file) != "readme.md"
  }

  /** The exclusion of `readme.md` is already implied by the extension test. */
  lemma ReadmeExclusionRedundant(file: string)
    ensures IsExampleImage(file) <==> HasImageExtension(file)
  {
    if HasImageExtension(file) && Lower(file) == "readme.md" {
      var lower := Lower(file);
      assert false;
    }
  }

  /** The listing with everything but example images removed, in listing order. */
  function ExampleImages(files: seq<string>): (r: seq<string>)
    ensures forall f :: f in r ==> IsExampleImage(f)
    ensures forall f :: multiset(r)[f] == (if IsExampleImage(f) then multiset(files)[f] else 0)
  {
    if files == [] then []
    else
      var rest := ExampleImages(files[1..]);
      assert files == [files[0]] + files[1..];
      if IsExampleImage(files[0]) then [files[0]] + rest else rest
  }

  /** The example images in sorted order, at most the first three. */
  function SelectExamples(listing: seq<string>): (selected: seq<string>)
    ensures |selected| <= MaxExamples
  {
    var sorted := SortStrings(ExampleImages(listing));
    sorted[..Min(MaxExamples, |sorted|)]
  }

  /** Every selected name carries an accepted image extension, so `readme.md` never appears. */
  lemma SelectedAreImages(listing: seq<string>, f: string)
    requires f in SelectExamples(listing)
    ensures HasImageExtension(f) && Lower(f) != "readme.md"
  {
    var sorted := SortStrings(ExampleImages(listing));
    assert f in sorted;
    assert f in multiset(ExampleImages(listing));
  }

  /**
   * The selection is min(3, n) example images, none of which sorts after an
   * example image left out.
   */
  lemma SelectedAreFirst(listing: seq<string>)
    ensures |SelectExamples(listing)| == Min(MaxExamples, |ExampleImages(listing)|)
    ensures Sorted(SelectExamples(listing))
    ensures multiset(SelectExamples(listing)) <= multiset(ExampleImages(listing))
    ensures forall i, g :: 0 <= i < |SelectExamples(listing)| && g in ExampleImages(listing) && g !in SelectExamples(listing)
              ==> LexLe(SelectExamples(listing)[i], g)
  {
    var candidates := ExampleImages(listing);
    var sorted := SortStrings(candidates);
    var selected := SelectExamples(listing);
    assert |sorted| == |multiset(sorted)| == |multiset(candidates)| == |candidates|;
    forall i, g | 0 <= i < |selected| && g in candidates && g !in selected
      ensures LexLe(selected[i], g)
    {
      assert g in multiset(candidates);
      assert g in multiset(sorted);
      var j :| 0 <= j < |sorted| && sorted[j] == g;
      assert j >= |selected|;
      assert selected[i] == sorted[i];
    }
    SelectedFromListing(listing);
  }

  /** The selected names are drawn from the filtered listing. */
  lemma SelectedFromListing(listing: seq<string>)
    ensures multiset(SelectExamples(listing)) <= multiset(ExampleImages(listing))
  {
    var sorted := SortStrings(ExampleImages(listing));
    var k := Min(MaxExamples, |sorted|);
    assert sorted == sorted[..k] + sorted[k..];
    assert multiset(sorted) == multiset(sorted[..k]) + multiset(sorted[k..]);
  }

  /** The selection depends only on which names the directory holds, not on the listing order. */
  lemma SelectionIgnoresListingOrder(a: seq<string>, b: seq<string>)
    requires multiset(a) == multiset(b)
    ensures SelectExamples(a) == SelectExamples(b)
  {
    var fa, fb := ExampleImages(a), ExampleImages(b);
    assert multiset(fa) == multiset(fb) by {
      forall f ensures multiset(fa)[f] == multiset(fb)[f] {}
    }
    SortIgnoresOrder(fa, fb);
  }

  // ---------------------------------------------------------------------------
  // Reference URLs

  /** The origin names the loopback host, by name or by address, anywhere in it. */
  predicate IsLocalOrigin(origin: string)
  {
    Contains(origin, "localhost") || Contains(origin, "127.0.0.1")
  }

  lemma LocalOriginIff(origin: string)
    ensures IsLocalOrigin(origin) <==>
      (exists i: nat :: OccursAt(origin, "localhost", i)) || (exists i: nat :: OccursAt(origin, "127.0.0.1", i))
  {
    ContainsIff(origin, "localhost");
    ContainsIff(origin, "127.0.0.1");
  }

  /** The public URL of each example file under the request origin. */
  function PublicExampleUrls(origin: string, files: seq<string>): (urls: seq<string>)
    ensures |urls| == |files|
    ensures forall i :: 0 <= i < |files| ==> urls[i] == origin + ExamplesPath + files[i]
  {
    if files == [] then [] else [origin + ExamplesPath + files[0]] + PublicExampleUrls(origin, files[1..])
  }

  /**
   * The extension as Node's `path.extname` gives it for a name without
   * separators: from the last dot on, or empty when there is no dot, the only
   * dot starts the name, or the name is "..".
   */
  function ExtName(file: string): string
  {
    match LastIndexOf(file, '.')
    case None => ""
    case Some(k) => if k == 0 || file == ".." then "" else file[k..]
  }

  /** A non-empty extension is a dot-led, dot-free-after ending of the name, shorter than the name. */
  lemma ExtNameShape(file: string)
    ensures var ext := ExtName(file);
      ext == [] || (ext[0] == '.' && EndsWith(file, ext) && |ext| < |file| && '.' !in ext[1..])
  {
  }

  /** The MIME type an example file is uploaded with, from its lower-cased extension. */
  function MimeFor(file: string): string
  {
    var ext := Lower(ExtName(file));
    if ext == ".png" then "image/png" else if ext == ".webp" then "image/webp" else "image/jpeg"
  }

  /** The dot at `k` is the last one and neither starts the name nor ends it, so the extension starts there. */
  lemma ExtNameAt(file: string, k: nat)
    requires 0 < k && k + 1 < |file| && file[k] == '.'
    requires forall j :: k < j < |file| ==> file[j] != '.'
    ensures ExtName(file) == file[k..]
  {
    assert file[k] in file;
    var m := LastIndexOf(file, '.').value;
  }

  /** The name ends, ignoring case, in `ext`: so `path.extname` cuts exactly there. */
  lemma ExtNameOfSuffix(file: string, ext: string)
    requires |ext| >= 2 && ext[0] == '.'
    requires forall j :: 0 < j < |ext| ==> ext[j] != '.'
    requires |ext| < |file| && EndsWith(Lower(file), ext)
    ensures ExtName(file) == file[|file| - |ext|..]
  {
    var k := |file| - |ext|;
    var lower := Lower(file);
    assert lower[k] == ext[0];
    forall j | k <= j < |file| ensures (file[j] == '.' <==> j == k) {
      assert lower[j] == ext[j - k];
    }
    ExtNameAt(file, k);
  }

  /**
   * The MIME type follows the file name's ending, ignoring case; a name that
   * is only the extension (".png") has no extension and is uploaded as JPEG.
   */
  lemma MimeForIff(file: string)
    ensures MimeFor(file) == "image/png" <==> |file| > 4 && EndsWith(Lower(file), ".png")
    ensures MimeFor(file) == "image/webp" <==> |file| > 5 && EndsWith(Lower(file), ".webp")
    ensures MimeFor(file) in {"image/png", "image/webp", "image/jpeg"}
  {
    LowerExtension(file, ".png");
    LowerExtension(file, ".webp");
  }

  /** The lower-cased extension is `e` exactly when the name is longer than `e` and ends, ignoring case, in it. */
  lemma LowerExtension(file: string, e: string)
    requires |e| >= 2 && e[0] == '.'
    requires forall j :: 0 < j < |e| ==> e[j] != '.'
    ensures Lower(ExtName(file)) == e <==> |file| > |e| && EndsWith(Lower(file), e)
  {
    if Lower(ExtName(file)) == e {
      LowerExtensionEnds(file, e);
    }
    if |file| > |e| && EndsWith(Lower(file), e) {
      ExtNameOfSuffix(file, e);
      LowerSuffix(file, |file| - |e|);
    }
  }

  lemma LowerExtensionEnds(file: string, e: string)
    requires |e| >= 2 && Lower(ExtName(file)) == e
    ensures |file| > |e| && EndsWith(Lower(file), e)
  {
    var ext := ExtName(file);
    ExtNameShape(file);
    LowerSuffix(file, |file| - |ext|);
  }

  /** Lower-casing commutes with taking a suffix. */
  lemma LowerSuffix(s: string, k: nat)
    requires k <= |s|
    ensures Lower(s[k..]) == Lower(s)[k..]
  {
    assert forall j :: 0 <= j < |s| - k ==> s[k..][j] == s[k + j];
  }

  /**
   * The storage URLs of the example files, read and uploaded one per file;
   * none at all when any read or upload fails.
   */
  function StoreExamples(files: seq<string>, store: (string, string) -> Option<string>): (r: Option<seq<string>>)
    ensures r.Some? <==> forall i :: 0 <= i < |files| ==> store(files[i], MimeFor(files[i])).Some?
    ensures r.Some? ==> |r.value| == |files|
    ensures r.Some? ==> forall i :: 0 <= i < |files| ==> r.value[i] == store(files[i], MimeFor(files[i])).value
  {
    if files == [] then Some([])
    else
      var first := store(files[0], MimeFor(files[0]));
      var rest := StoreExamples(files[1..], store);
      if first.Some? && rest.Some? then Some([first.value] + rest.value)
      else
        assert first.None? ==> !store(files[0], MimeFor(files[0])).Some?;
        assert rest.None? ==> exists i :: 1 <= i < |files| && store(files[i], MimeFor(files[i])).None? by {
          if rest.None? {
            var i :| 0 <= i < |files[1..]| && store(files[1..][i], MimeFor(files[1..][i])).None?;
            assert files[1..][i] == files[i + 1];
          }
        }
        None
  }

  /** The per-file storage calls made for the example files, in order. */
  function StoreCalls(files: seq<string>): (calls: seq<ExternalCall>)
    ensures |calls| == |files|
    ensures forall i :: 0 <= i < |files| ==> calls[i] == StoreExample(files[i], MimeFor(files[i]))
  {
    if files == [] then [] else [StoreExample(files[0], MimeFor(files[0]))] + StoreCalls(files[1..])
  }

  /**
   * The reference URLs: none when the directory cannot be listed; public URLs
   * on a public origin; storage URLs on a loopback origin, or none when any
   * of those uploads fails.
   */
  function ReferenceUrls(listing: Result<seq<string>, Thrown>, origin: string, store: (string, string) -> Option<string>): (refs: seq<string>)
    ensures |refs| <= MaxExamples
  {
    match listing
    case Failure(_) => []
    case Success(files) =>
      var selected := SelectExamples(files);
      if !IsLocalOrigin(origin) then PublicExampleUrls(origin, selected)
      else StoreExamples(selected, store).GetOr([])
  }

  /**
   * Where the reference URLs come from: nothing when the listing fails, one
   * public URL per selected file on a public origin, and on a loopback origin
   * one storage URL per selected file, or nothing when any upload fails.
   */
  lemma ReferenceSources(listing: Result<seq<string>, Thrown>, origin: string, store: (string, string) -> Option<string>)
    ensures listing.Failure? ==> ReferenceUrls(listing, origin, store) == []
    ensures listing.Success? && !IsLocalOrigin(origin) ==>
      ReferenceUrls(listing, origin, store) == PublicExampleUrls(origin, SelectExamples(listing.value))
    ensures listing.Success? && IsLocalOrigin(origin) ==>
      ReferenceUrls(listing, origin, store) == [] || |ReferenceUrls(listing, origin, store)| == |SelectExamples(listing.value)|
    ensures listing.Success? && IsLocalOrigin(origin) ==>
      var selected := SelectExamples(listing.value);
      (exists i :: 0 <= i < |selected| && store(selected[i], MimeFor(selected[i])).None?) ==>
        ReferenceUrls(listing, origin, store) == []
    ensures listing.Success? && IsLocalOrigin(origin) ==>
      var selected := SelectExamples(listing.value);
      (forall i :: 0 <= i < |selected| ==> store(selected[i], MimeFor(selected[i])).Some?) ==>
        && |ReferenceUrls(listing, origin, store)| == |selected|
        && forall i :: 0 <= i < |selected| ==>
             ReferenceUrls(listing, origin, store)[i] == store(selected[i], MimeFor(selected[i])).value
  {
  }

  /** The storage calls for example files, made only on a loopback origin after a successful listing. */
  function ExampleCalls(listing: Result<seq<string>, Thrown>, origin: string): seq<ExternalCall>
  {
    if listing.Success? && IsLocalOrigin(origin) then StoreCalls(SelectExamples(listing.value)) else []
  }

  // ---------------------------------------------------------------------------
  // Prompt, result extraction and error mapping

  /** The prompt: the fixed instructions, closed by the clause for having references or not. */
  function Prompt(refs: seq<string>): string
  {
    BasePrompt + (if |refs| > 0 then ReferenceClause else GenericClause)
  }

  /**
   * The prompt always opens with the fixed instructions and ends with the
   * reference clause exactly when there are references, else with the
   * generic clause.
   */
  lemma PromptClauses(refs: seq<string>)
    ensures StartsWith(Prompt(refs), BasePrompt)
    ensures EndsWith(Prompt(refs), ReferenceClause) <==> |refs| > 0
    ensures EndsWith(Prompt(refs), GenericClause) <==> |refs| == 0
  {
    var clause := if |refs| > 0 then ReferenceClause else GenericClause;
    var prompt := Prompt(refs);
    assert prompt[..|BasePrompt|] == BasePrompt;
    assert prompt[|prompt| - |clause|..] == clause;
    ClausesDiffer(prompt);
  }

  /** Neither closing clause ends with the other. */
  lemma ClausesDiffer(s: string)
    ensures !(EndsWith(s, ReferenceClause) && EndsWith(s, GenericClause))
  {
    if EndsWith(s, ReferenceClause) {
      assert s[|s| - 2] == 'm';
    }
  }

  /** `images[0].url`, or "" when the list, its first entry or the URL is missing. */
  function FirstUrl(images: Option<seq<GeneratedImage>>): string
  {
    if images.Some? && |images.value| > 0 && images.value[0].url.Some? then images.value[0].url.value else ""
  }

  /** JavaScript's `a || b` on strings: `a` unless it is empty. */
  function Or(a: string, b: string): string
  {
    if a != "" then a else b
  }

  /** The staged image URL: the top-level first image, else the nested one, else "". */
  function StagedUrl(result: GenerationResult): string
  {
    var nested := if result.data.Some? then FirstUrl(result.data.value.images) else "";
    Or(Or(FirstUrl(result.images), nested), "")
  }

  /**
   * The top-level URL wins when present; otherwise the nested one is taken,
   * and the URL is empty only when neither place holds one.
   */
  lemma StagedUrlChoice(result: GenerationResult)
    ensures FirstUrl(result.images) != "" ==> StagedUrl(result) == FirstUrl(result.images)
    ensures FirstUrl(result.images) == "" && result.data.Some? ==>
      StagedUrl(result) == FirstUrl(result.data.value.images)
    ensures StagedUrl(result) == "" <==>
      FirstUrl(result.images) == "" && (result.data.None? || FirstUrl(result.data.value.images) == "")
  {
  }

  /** The description: the top-level one, else the nested one, else the default message. */
  function Description(result: GenerationResult): string
  {
    var nested := if result.data.Some? then result.data.value.description.GetOr("") else "";
    Or(Or(result.description.GetOr(""), nested), DefaultDescription)
  }

  /** The description is never empty, and the default appears only when both places are empty. */
  lemma DescriptionChoice(result: GenerationResult)
    ensures Description(result) != ""
    ensures result.description.GetOr("") != "" ==> Description(result) == result.description.value
    ensures result.description.GetOr("") == "" && result.data.Some? && result.data.value.description.GetOr("") != "" ==>
      Description(result) == result.data.value.description.value
    ensures Description(result) == DefaultDescription <==>
      || (result.description.GetOr("") == "" && (result.data.None? || result.data.value.description.GetOr("") == ""))
      || result.description.GetOr("") == DefaultDescription
      || (result.description.GetOr("") == "" && result.data.Some? && result.data.value.description.GetOr("") == DefaultDescription)
  {
  }

  /** The status of the failure response: the error's numeric status, else 500. */
  function FailureStatus(e: Thrown): int
  {
    if e.ThrownObject? && e.status.Some? then e.status.value else 500
  }

  /** The details of the failure response: the error's body, else its message, else "Unknown error". */
  function FailureDetails(e: Thrown): string
  {
    if e.ThrownObject? && e.body.Some? then e.body.value
    else if e.ThrownObject? && e.message.Some? then e.message.value
    else "Unknown error"
  }

  /** The response for an exception caught by the handler. */
  function FailureResponse(e: Thrown): (r: Response)
    ensures e.ThrownObject? && e.status.Some? ==> r.status == e.status.value
    ensures e.ThrownObject? && e.status.None? ==> r.status == 500
    ensures e.ThrownObject? && e.body.Some? ==> r.body == FailureBody(FailedError, e.body.value)
    ensures e.ThrownObject? && e.body.None? && e.message.Some? ==> r.body == FailureBody(FailedError, e.message.value)
    ensures e.ThrownObject? && e.body.None? && e.message.None? ==> r.body == FailureBody(FailedError, "Unknown error")
    ensures e.ThrownPrimitive? ==> r == Response(500, FailureBody(FailedError, "Unknown error"))
  {
    Response(FailureStatus(e), FailureBody(FailedError, FailureDetails(e)))
  }

  /** The response once the generation call has returned or thrown. */
  function GenerationResponse(originalUrl: string, generated: Result<GenerationResult, Thrown>): Response
  {
    match generated
    case Failure(e) => FailureResponse(e)
    case Success(r) => Response(200, SuccessBody(originalUrl, StagedUrl(r), Description(r)))
  }

  /** The generation request: the prompt, the photo followed by the references, one JPEG. */
  function Request(originalUrl: string, refs: seq<string>): GenerationRequest
  {
    GenerationRequest(Prompt(refs), [originalUrl] + refs, 1, "jpeg")
  }

  /**
   * The generation call sees the photo first and at most three references
   * after it.
   */
  lemma RequestImages(originalUrl: string, listing: Result<seq<string>, Thrown>, origin: string, store: (string, string) -> Option<string>)
    ensures var request := Request(originalUrl, ReferenceUrls(listing, origin, store));
      && 1 <= |request.imageUrls| <= 1 + MaxExamples
      && request.imageUrls[0] == originalUrl
      && request.imageUrls[1..] == ReferenceUrls(listing, origin, store)
  {
  }

  // ---------------------------------------------------------------------------
  // The handler

  /** Filtering a listing one more name extends the filtered list by that name when it passes. */
  lemma {:induction false} ExampleImagesSnoc(files: seq<string>, f: string)
    ensures ExampleImages(files + [f]) == ExampleImages(files) + (if IsExampleImage(f) then [f] else [])
  {
    if files == [] {
      assert [] + [f] == [f];
    } else {
      assert (files + [f])[1..] == files[1..] + [f];
      ExampleImagesSnoc(files[1..], f);
    }
  }

  /** `exampleFiles.filter(...)`: the example images of the listing, in listing order. */
  method FilterExamples(exampleFiles: seq<string>) returns (imageFiles: seq<string>)
    ensures imageFiles == ExampleImages(exampleFiles)
  {
    imageFiles := [];
    for i := 0 to |exampleFiles|
      invariant imageFiles == ExampleImages(exampleFiles[..i])
    {
      assert exampleFiles[..i + 1] == exampleFiles[..i] + [exampleFiles[i]];
      ExampleImagesSnoc(exampleFiles[..i], exampleFiles[i]);
      if IsExampleImage(exampleFiles[i]) {
        imageFiles := imageFiles + [exampleFiles[i]];
      }
    }
    assert exampleFiles[..|exampleFiles|] == exampleFiles;
  }

  /** `selected.map(...)` on a public origin: the public URL of each file. */
  method MapPublicUrls(origin: string, selected: seq<string>) returns (urls: seq<string>)
    ensures urls == PublicExampleUrls(origin, selected)
  {
    urls := [];
    for i := 0 to |selected|
      invariant |urls| == i
      invariant forall j :: 0 <= j < i ==> urls[j] == origin + ExamplesPath + selected[j]
    {
      urls := urls + [origin + ExamplesPath + selected[i]];
    }
  }

  /** Storing one more file makes one more call, for that file. */
  lemma StoreCallsSnoc(files: seq<string>, f: string)
    ensures StoreCalls(files + [f]) == StoreCalls(files) + [StoreExample(f, MimeFor(f))]
  {
    assert (files + [f])[|files|] == f;
    assert forall i :: 0 <= i < |files| ==> (files + [f])[i] == files[i];
  }

  /** Storing one more file appends its URL, unless this store or an earlier one fails. */
  lemma {:induction false} StoreExamplesSnoc(files: seq<string>, f: string, store: (string, string) -> Option<string>)
    ensures StoreExamples(files + [f], store) ==
      if StoreExamples(files, store).Some? && store(f, MimeFor(f)).Some?
      then Some(StoreExamples(files, store).value + [store(f, MimeFor(f)).value])
      else None
    decreases |files|
  {
    if files == [] {
      assert files + [f] == [f];
      assert [f][1..] == [];
      assert StoreExamples([], store) == Some([]);
      var last := store(f, MimeFor(f));
      if last.Some? {
        assert [last.value] + [] == [] + [last.value];
      }
    } else {
      assert (files + [f])[0] == files[0];
      assert (files + [f])[1..] == files[1..] + [f];
      StoreExamplesSnoc(files[1..], f, store);
      var first := store(files[0], MimeFor(files[0]));
      var rest := StoreExamples(files[1..], store);
      var last := store(f, MimeFor(f));
      if first.Some? && rest.Some? && last.Some? {
        assert [first.value] + (rest.value + [last.value]) == ([first.value] + rest.value) + [last.value];
      }
    }
  }

  /** The calls and URLs for the first `i + 1` files, from those for the first `i`. */
  lemma StorePrefix(files: seq<string>, i: nat, store: (string, string) -> Option<string>)
    requires i < |files|
    ensures StoreCalls(files[..i + 1]) == StoreCalls(files[..i]) + [StoreExample(files[i], MimeFor(files[i]))]
    ensures StoreExamples(files[..i + 1], store) ==
      if StoreExamples(files[..i], store).Some? && store(files[i], MimeFor(files[i])).Some?
      then Some(StoreExamples(files[..i], store).value + [store(files[i], MimeFor(files[i])).value])
      else None
  {
    assert files[..i + 1] == files[..i] + [files[i]];
    StoreCallsSnoc(files[..i], files[i]);
    StoreExamplesSnoc(files[..i], files[i], store);
  }

  /**
   * `Promise.all(selected.map(...))` on a loopback origin: every read and
   * upload is started, one per file; a single failure rejects the whole and
   * leaves no URLs.
   */
  method UploadExamples(selected: seq<string>, storeExample: (string, string) -> Option<string>)
    returns (urls: Option<seq<string>>, calls: seq<ExternalCall>)
    ensures urls == StoreExamples(selected, storeExample)
    ensures calls == StoreCalls(selected)
  {
    var stored: seq<string> := [];
    var failed := false;
    calls := [];
    for i := 0 to |selected|
      invariant calls == StoreCalls(selected[..i])
      invariant failed <==> StoreExamples(selected[..i], storeExample).None?
      invariant !failed ==> StoreExamples(selected[..i], storeExample) == Some(stored)
    {
      var mime := MimeFor(selected[i]);
      StorePrefix(selected, i, storeExample);
      calls := calls + [StoreExample(selected[i], mime)];
      var uploaded := storeExample(selected[i], mime);
      if uploaded.None? {
        failed := true;
      } else if !failed {
        stored := stored + [uploaded.value];
      }
    }
    assert selected[..|selected|] == selected;
    urls := if failed then None else Some(stored);
  }

  /**
   * The reference-image step of the handler: list, filter, sort, take three,
   * then map to public URLs or upload; any failure on the way (the listing, a
   * read or an upload) is caught and leaves the list empty.
   */
  method ResolveReferences(listing: Result<seq<string>, Thrown>, origin: string, storeExample: (string, string) -> Option<string>)
    returns (exampleUrls: seq<string>, calls: seq<ExternalCall>)
    ensures exampleUrls == ReferenceUrls(listing, origin, storeExample)
    ensures calls == ExampleCalls(listing, origin)
  {
    exampleUrls, calls := [], [];
    if listing.Failure? {
      return;
    }
    var imageFiles := FilterExamples(listing.value);
    imageFiles := SortStrings(imageFiles);
    var selected := imageFiles[..Min(MaxExamples, |imageFiles|)];
    if !IsLocalOrigin(origin) {
      exampleUrls := MapPublicUrls(origin, selected);
    } else {
      var uploaded;
      uploaded, calls := UploadExamples(selected, storeExample);
      exampleUrls := if uploaded.Some? then uploaded.value else [];
    }
  }

  /** The external calls from the listing on: the listing, the example uploads, the generation call. */
  function StageCalls(
    before: seq<ExternalCall>,
    originalUrl: string,
    listing: Result<seq<string>, Thrown>,
    origin: string,
    store: (string, string) -> Option<string>): seq<ExternalCall>
  {
    before + [ListExamples] + ExampleCalls(listing, origin) +
      [Generate(Request(originalUrl, ReferenceUrls(listing, origin, store)))]
  }

  /**
   * The call protocol after the photo upload: the listing comes first; then
   * only example uploads, at most three and only on a loopback origin after a
   * successful listing; last, the one generation call, with the photo first.
   */
  lemma StageProtocol(
    before: seq<ExternalCall>,
    originalUrl: string,
    listing: Result<seq<string>, Thrown>,
    origin: string,
    store: (string, string) -> Option<string>)
    ensures var calls := StageCalls(before, originalUrl, listing, origin, store);
      && |before| + 2 <= |calls| <= |before| + 2 + MaxExamples
      && calls[..|before|] == before
      && calls[|before|] == ListExamples
      && (forall k :: |before| < k < |calls| - 1 ==> calls[k].StoreExample?)
      && (|calls| > |before| + 2 ==> listing.Success? && IsLocalOrigin(origin))
      && calls[|calls| - 1].Generate?
      && calls[|calls| - 1].request.imageUrls[0] == originalUrl
  {
    var middle := ExampleCalls(listing, origin);
    var calls := StageCalls(before, originalUrl, listing, origin, store);
    assert |middle| <= MaxExamples;
    forall k | |before| < k < |calls| - 1 ensures calls[k].StoreExample? {
      assert calls[k] == middle[k - |before| - 1];
    }
  }

  /**
   * The steps after the photo upload: resolve the references, then make the
   * one generation call with the photo first and map its outcome to the
   * response.
   */
  method Stage(
    before: seq<ExternalCall>,
    originalUrl: string,
    listing: Result<seq<string>, Thrown>,
    origin: string,
    storeExample: (string, string) -> Option<string>,
    generate: GenerationRequest -> Result<GenerationResult, Thrown>)
    returns (response: Response, calls: seq<ExternalCall>)
    ensures calls == StageCalls(before, originalUrl, listing, origin, storeExample)
    ensures response == GenerationResponse(originalUrl, generate(Request(originalUrl, ReferenceUrls(listing, origin, storeExample))))
  {
    var exampleUrls, exampleCalls := ResolveReferences(listing, origin, storeExample);
    var request := Request(originalUrl, exampleUrls);
    calls := before + [ListExamples] + exampleCalls + [Generate(request)];
    var generated := generate(request);
    if generated.Failure? {
      return FailureResponse(generated.error), calls;
    }
    var result := generated.value;
    response := Response(200, SuccessBody(originalUrl, StagedUrl(result), Description(result)));
  }

  /** `POST /api/stage-room`. */
  method Post(
    form: Result<FormValue, Thrown>,
    roomUpload: Result<string, Thrown>,
    listing: Result<seq<string>, Thrown>,
    origin: string,
    storeExample: (string, string) -> Option<string>,
    generate: GenerationRequest -> Result<GenerationResult, Thrown>)
    returns (out: Outcome)
    // a missing field, or one that is not a file, is a 400 before any call
    ensures form.Success? && !form.value.FileValue? ==> out == Outcome(Response(400, ErrorBody(NoImageError)), [])
    ensures out.response.body == ErrorBody(NoImageError) <==> form.Success? && !form.value.FileValue?
    // a HEIC/HEIF photo is a 415 before any call
    ensures out.response.body == ErrorBody(UnsupportedFormatError) <==>
      form.Success? && form.value.FileValue? && IsHeic(form.value.name, form.value.contentType)
    ensures out.response.body == ErrorBody(UnsupportedFormatError) ==> out.response.status == 415
    // external calls happen exactly for validated forms, starting with the photo upload
    ensures out.calls == [] <==> !Validated(form)
    ensures out.calls != [] ==> out.calls[0] == UploadRoomImage
    ensures form.Failure? ==> out == Outcome(FailureResponse(form.error), [])
    ensures Validated(form) && roomUpload.Failure? ==>
      out == Outcome(FailureResponse(roomUpload.error), [UploadRoomImage])
    // otherwise the listing, the example uploads and one generation call with the photo first
    ensures Validated(form) && roomUpload.Success? ==>
      var request := Request(roomUpload.value, ReferenceUrls(listing, origin, storeExample));
      && out.calls == [UploadRoomImage] + [ListExamples] + ExampleCalls(listing, origin) + [Generate(request)]
      && out.response == GenerationResponse(roomUpload.value, generate(request))
  {
    if form.Failure? {
      return Outcome(FailureResponse(form.error), []);
    }
    var roomImage := form.value;
    if !roomImage.FileValue? {
      return Outcome(Response(400, ErrorBody(NoImageError)), []);
    }
    if IsHeic(roomImage.name, roomImage.contentType) {
      return Outcome(Response(415, ErrorBody(UnsupportedFormatError)), []);
    }
    if roomUpload.Failure? {
      return Outcome(FailureResponse(roomUpload.error), [UploadRoomImage]);
    }
    var response, calls := Stage([UploadRoomImage], roomUpload.value, listing, origin, storeExample, generate);
    out := Outcome(response, calls);
  }
}
