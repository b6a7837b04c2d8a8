/**
 * The upload page: the file-picker filter and the preparation of a large
 * photo before it is posted (src/app/page.tsx). Decoding, drawing and
 * encoding are browser work; the model receives their outcomes: whether the
 * photo decoded (and to which size), whether a 2D context exists, and an
 * encoder that gives the blob size for a canvas, a format and a quality.
 */
module Preprocess {
  import opened Wrappers
  import opened Text

  /** Files below this many bytes are posted as they are. */
  const SkipBelow := 3_500_000
  /** The longest side a re-encoded photo may have, in pixels. */
  const MaxSide := 2048
  /** A re-encoding is accepted when its blob is below this many bytes. */
  const ByteBudget := 4_000_000
  /** The first quality tried, in tenths (0.9). */
  const TopQuality := 9
  /** Qualities tried per format: 0.9, 0.8, ..., 0.4. */
  const AttemptsPerFormat := 6

  datatype File = File(name: string, mime: string, size: nat)

  /** The formats tried, in this order. */
  datatype Format = Webp | Jpeg

  function MimeOf(f: Format): string
  {
    match f
    case Webp => "image/webp"
    case Jpeg => "image/jpeg"
  }

  function ExtOf(f: Format): string
  {
    match f
    case Webp => "webp"
    case Jpeg => "jpg"
  }

  /** A decoded bitmap or a canvas, by its dimensions in pixels. */
  datatype Canvas = Canvas(width: nat, height: nat)

  /** One call of the encoder: a format at a quality in tenths. */
  datatype Attempt = Attempt(format: Format, quality: nat)

  /** The photo could be decoded neither as a bitmap nor through an image element. */
  datatype PrepareError = DecodeFailed

  function Max(a: nat, b: nat): nat { if a >= b then a else b }

  // ---------------------------------------------------------------------------
  // Target dimensions

  /**
   * `Math.round(n / d)` for a non-negative quotient: the nearest integer,
   * halves rounded up.
   */
  function RoundDiv(n: nat, d: nat): (r: nat)
    requires d > 0
    ensures d * (2 * r - 1) <= 2 * n < d * (2 * r + 1)
  {
    var r := (2 * n + d) / (2 * d);
    DivBounds(2 * n + d, 2 * d);
    r
  }

  /** The two bounds of a floor division, spelled out. */
  lemma DivBounds(a: nat, b: nat)
    requires b > 0
    ensures b * (a / b) <= a < b * (a / b + 1)
  {
  }

  /**
   * One target side: `max(1, round(side * min(1, 2048 / longest)))`, where
   * `longest` is the bitmap's longer side. Up to 2048 the scale is 1; past it
   * the side is scaled by 2048 / longest and rounded.
   */
  function TargetSide(side: nat, longest: nat): nat
  {
    var scaled := if longest <= MaxSide then side else RoundDiv(MaxSide * side, longest);
    Max(1, scaled)
  }

  /** The canvas the bitmap is drawn onto. */
  function TargetCanvas(bitmap: Canvas): Canvas
  {
    var longest := Max(bitmap.width, bitmap.height);
    Canvas(TargetSide(bitmap.width, longest), TargetSide(bitmap.height, longest))
  }

  /** Multiplying by a non-negative factor keeps an order. */
  lemma MulMono(c: int, a: int, b: int)
    requires c >= 0 && a <= b
    ensures c * a <= c * b
  {
    assert c * b - c * a == c * (b - a);
  }

  /** Scaling a side by 2048 / longest never makes it longer, and the longest side lands on 2048. */
  lemma ScaledSide(side: nat, longest: nat)
    requires longest > MaxSide && side <= longest
    ensures RoundDiv(MaxSide * side, longest) <= MaxSide
    ensures side >= 1 ==> RoundDiv(MaxSide * side, longest) <= side
    ensures side == longest ==> RoundDiv(MaxSide * side, longest) == MaxSide
  {
    var r: int := RoundDiv(MaxSide * side, longest);
    var twice := 2 * MaxSide * side;
    assert longest * (2 * r - 1) <= twice < longest * (2 * r + 1);
    MulMono(2 * MaxSide, side, longest);
    if r > MaxSide {
      MulMono(longest, 2 * MaxSide + 1, 2 * r - 1);
    }
    if side >= 1 && r > side {
      MulMono(longest, 2 * side + 1, 2 * r - 1);
      MulMono(side, MaxSide, longest);
    }
    if side == longest && r < MaxSide {
      MulMono(longest, 2 * r + 1, 2 * MaxSide - 1);
    }
  }

  /**
   * The target canvas has non-empty sides, never upscales a real bitmap,
   * keeps the bitmap's size up to 2048, and otherwise has 2048 as its longer
   * side.
   */
  lemma TargetCanvasBounds(bitmap: Canvas)
    ensures var c := TargetCanvas(bitmap);
      && c.width >= 1 && c.height >= 1
      && (bitmap.width >= 1 ==> c.width <= bitmap.width)
      && (bitmap.height >= 1 ==> c.height <= bitmap.height)
      && (Max(bitmap.width, bitmap.height) <= MaxSide ==> c == Canvas(Max(1, bitmap.width), Max(1, bitmap.height)))
      && (Max(bitmap.width, bitmap.height) > MaxSide ==> Max(c.width, c.height) == MaxSide)
  {
    var longest := Max(bitmap.width, bitmap.height);
    if longest > MaxSide {
      ScaledSide(bitmap.width, longest);
      ScaledSide(bitmap.height, longest);
    }
  }

  // ---------------------------------------------------------------------------
  // The new file name

  /** `name[k..]` is what `/\.[^.]+$/` matches: a dot, then one or more characters, none a dot. */
  predicate ExtensionAt(name: string, k: int)
  {
    0 <= k && k + 1 < |name| && name[k] == '.' && forall j :: k < j < |name| ==> name[j] != '.'
  }

  /** The name with the match of `/\.[^.]+$/`, if any, removed. */
  function StripExtension(name: string): string
  {
    match LastIndexOf(name, '.')
    case None => name
    case Some(k) => if k + 1 < |name| then name[..k] else name
  }

  /** The match is removed when there is one, and the name is kept whole when there is none. */
  lemma StripExtensionSpec(name: string)
    ensures forall k :: ExtensionAt(name, k) ==> StripExtension(name) == name[..k]
    ensures (forall k :: !ExtensionAt(name, k)) ==> StripExtension(name) == name
  {
    forall k | ExtensionAt(name, k) ensures StripExtension(name) == name[..k] {
      assert name[k] in name;
      var m := LastIndexOf(name, '.').value;
    }
    var last := LastIndexOf(name, '.');
    if last.Some? && last.value + 1 < |name| {
      assert forall j :: last.value < j < |name| ==> name[j] in name[last.value + 1..];
      assert ExtensionAt(name, last.value);
    }
  }

  /** The re-encoded file's name: the base name and the format's extension. */
  function Renamed(name: string, f: Format): string
  {
    StripExtension(name) + "." + ExtOf(f)
  }

  /** Renaming a renamed file changes nothing: the new extension is exactly what is stripped. */
  lemma RenameIdempotent(name: string, f: Format)
    ensures Renamed(Renamed(name, f), f) == Renamed(name, f)
  {
    var base := StripExtension(name);
    var renamed := Renamed(name, f);
    assert ExtensionAt(renamed, |base|);
    StripExtensionSpec(renamed);
    assert renamed[..|base|] == base;
  }

  // ---------------------------------------------------------------------------
  // The encoding attempts

  /** The quality of the `i`-th attempt of a format, in tenths. */
  function Quality(i: nat): nat
    requires i < AttemptsPerFormat
  {
    TopQuality - i
  }

  /** The encoder produced a blob that is too large. */
  predicate Oversized(encode: (Canvas, Format, nat) -> Option<nat>, canvas: Canvas, f: Format, i: nat)
    requires i < AttemptsPerFormat
  {
    var blob := encode(canvas, f, Quality(i));
    blob.Some? && blob.value >= ByteBudget
  }

  /** The encoder produced a blob within the budget. */
  predicate Fits(encode: (Canvas, Format, nat) -> Option<nat>, canvas: Canvas, f: Format, i: nat)
    requires i < AttemptsPerFormat
  {
    var blob := encode(canvas, f, Quality(i));
    blob.Some? && blob.value < ByteBudget
  }

  /**
   * Once format `f` is started, its `i`-th attempt is made: every earlier
   * attempt gave a blob, and each was too large.
   */
  predicate Reaches(encode: (Canvas, Format, nat) -> Option<nat>, canvas: Canvas, f: Format, i: nat)
  {
    i < AttemptsPerFormat && forall j :: 0 <= j < i ==> Oversized(encode, canvas, f, j)
  }

  /** Format `f`, once started, yields a file. */
  ghost predicate Succeeds(encode: (Canvas, Format, nat) -> Option<nat>, canvas: Canvas, f: Format)
  {
    exists i: nat :: Reaches(encode, canvas, f, i) && Fits(encode, canvas, f, i)
  }

  /** The `i`-th attempt of `f` is made: WebP is always started, JPEG only when WebP yields nothing. */
  ghost predicate Made(encode: (Canvas, Format, nat) -> Option<nat>, canvas: Canvas, f: Format, i: nat)
  {
    Reaches(encode, canvas, f, i) && (f == Jpeg ==> !Succeeds(encode, canvas, Webp))
  }

  /** The attempt whose blob becomes the new file: the first in order that fits. */
  ghost predicate Chosen(encode: (Canvas, Format, nat) -> Option<nat>, canvas: Canvas, f: Format, i: nat)
  {
    Made(encode, canvas, f, i) && Fits(encode, canvas, f, i)
  }

  /** Position of an attempt in the order WebP 0.9 ... 0.4, then JPEG 0.9 ... 0.4. */
  function Rank(a: Attempt): int
  {
    (if a.format == Webp then 0 else AttemptsPerFormat) + (TopQuality - a.quality)
  }

  /** At most one attempt is chosen. */
  lemma ChosenUnique(encode: (Canvas, Format, nat) -> Option<nat>, canvas: Canvas, f: Format, i: nat, g: Format, j: nat)
    requires Chosen(encode, canvas, f, i) && Chosen(encode, canvas, g, j)
    ensures f == g && i == j
  {
    if f == Webp {
      assert Reaches(encode, canvas, f, i) && Fits(encode, canvas, f, i);
    }
    if g == Webp {
      assert Reaches(encode, canvas, g, j) && Fits(encode, canvas, g, j);
    }
    assert !Oversized(encode, canvas, f, i) && !Oversized(encode, canvas, g, j);
  }

  /** Some attempt is chosen exactly when one of the two formats yields a file. */
  lemma ChosenExists(encode: (Canvas, Format, nat) -> Option<nat>, canvas: Canvas)
    ensures (exists f, i: nat :: Chosen(encode, canvas, f, i)) <==>
      Succeeds(encode, canvas, Webp) || Succeeds(encode, canvas, Jpeg)
  {
    if Succeeds(encode, canvas, Webp) {
      var i :| Reaches(encode, canvas, Webp, i) && Fits(encode, canvas, Webp, i);
      assert Chosen(encode, canvas, Webp, i);
    } else if Succeeds(encode, canvas, Jpeg) {
      var i :| Reaches(encode, canvas, Jpeg, i) && Fits(encode, canvas, Jpeg, i);
      assert Chosen(encode, canvas, Jpeg, i);
    }
  }

  /** The rank of the `i`-th attempt of `f`. */
  function RankOf(f: Format, i: nat): int
    requires i < AttemptsPerFormat
  {
    Rank(Attempt(f, Quality(i)))
  }

  /**
   * `tried` lists, in rank order, exactly the attempts made whose rank is
   * below `r`.
   */
  ghost predicate TraceUpTo(encode: (Canvas, Format, nat) -> Option<nat>, canvas: Canvas, tried: seq<Attempt>, r: int)
  {
    && (forall k :: 0 <= k < |tried| ==>
          tried[k].quality <= TopQuality && Made(encode, canvas, tried[k].format, TopQuality - tried[k].quality)
          && Rank(tried[k]) < r)
    && (forall f, i: nat {:trigger RankOf(f, i)} :: Made(encode, canvas, f, i) && RankOf(f, i) < r ==> Attempt(f, Quality(i)) in tried)
    && (forall k, l :: 0 <= k < l < |tried| ==> Rank(tried[k]) < Rank(tried[l]))
    && |tried| <= r
  }

  /** Recording the attempt of rank `r` extends the trace by one rank. */
  lemma TraceExtend(encode: (Canvas, Format, nat) -> Option<nat>, canvas: Canvas, tried: seq<Attempt>, f: Format, i: nat)
    requires i < AttemptsPerFormat && Made(encode, canvas, f, i)
    requires TraceUpTo(encode, canvas, tried, RankOf(f, i))
    ensures TraceUpTo(encode, canvas, tried + [Attempt(f, Quality(i))], RankOf(f, i) + 1)
  {
    var t := tried + [Attempt(f, Quality(i))];
    forall g, j: nat | Made(encode, canvas, g, j) && RankOf(g, j) < RankOf(f, i) + 1
      ensures Attempt(g, Quality(j)) in t
    {
      if RankOf(g, j) == RankOf(f, i) {
        assert g == f && j == i;
        assert t[|tried|] == Attempt(f, Quality(i));
      } else {
        assert Attempt(g, Quality(j)) in tried;
      }
    }
  }

  /** Ranks `r` up to `r2` hold no attempt that is made, so the trace reaches `r2` unchanged. */
  lemma TraceSkip(encode: (Canvas, Format, nat) -> Option<nat>, canvas: Canvas, tried: seq<Attempt>, r: int, r2: int)
    requires r <= r2 && TraceUpTo(encode, canvas, tried, r)
    requires forall f, i: nat :: Made(encode, canvas, f, i) ==> RankOf(f, i) < r || RankOf(f, i) >= r2
    ensures TraceUpTo(encode, canvas, tried, r2)
  {
  }

  /**
   * The `i`-th attempt of `f` is made once the earlier ones were too large
   * (and, for JPEG, WebP gave nothing); recording it extends the trace.
   */
  lemma Step(encode: (Canvas, Format, nat) -> Option<nat>, canvas: Canvas, tried: seq<Attempt>, f: Format, i: nat)
    requires i < AttemptsPerFormat && forall j :: 0 <= j < i ==> Oversized(encode, canvas, f, j)
    requires f == Jpeg ==> !Succeeds(encode, canvas, Webp)
    requires TraceUpTo(encode, canvas, tried, RankOf(f, 0) + i)
    ensures Made(encode, canvas, f, i)
    ensures TraceUpTo(encode, canvas, tried + [Attempt(f, Quality(i))], RankOf(f, 0) + i + 1)
  {
    assert RankOf(f, i) == RankOf(f, 0) + i;
    TraceExtend(encode, canvas, tried, f, i);
  }

  /** A format all of whose six blobs are too large yields nothing. */
  lemma Exhausted(encode: (Canvas, Format, nat) -> Option<nat>, canvas: Canvas, f: Format)
    requires forall j :: 0 <= j < AttemptsPerFormat ==> Oversized(encode, canvas, f, j)
    ensures !Succeeds(encode, canvas, f)
  {
    forall j: nat | Reaches(encode, canvas, f, j)
      ensures !Fits(encode, canvas, f, j)
    {
      assert Oversized(encode, canvas, f, j);
    }
  }

  /** When neither format yields a file, no attempt is chosen. */
  lemma NothingChosen(encode: (Canvas, Format, nat) -> Option<nat>, canvas: Canvas)
    requires !Succeeds(encode, canvas, Webp) && !Succeeds(encode, canvas, Jpeg)
    ensures forall f, i: nat :: !Chosen(encode, canvas, f, i)
  {
    forall f, i: nat
      ensures !Chosen(encode, canvas, f, i)
    {
      assert f == Webp || f == Jpeg;
      assert !Succeeds(encode, canvas, f);
    }
  }

  /** A format whose encoder gives no blob is abandoned: no later quality of it is tried. */
  lemma Abandoned(encode: (Canvas, Format, nat) -> Option<nat>, canvas: Canvas, f: Format, i: nat)
    requires i < AttemptsPerFormat && encode(canvas, f, Quality(i)).None?
    requires Made(encode, canvas, f, i)
    ensures !Succeeds(encode, canvas, f)
    ensures forall g, j: nat :: Made(encode, canvas, g, j) ==>
      RankOf(g, j) <= RankOf(f, i) || RankOf(g, j) >= (if f == Webp then AttemptsPerFormat else 2 * AttemptsPerFormat)
  {
    assert !Oversized(encode, canvas, f, i) && !Fits(encode, canvas, f, i);
    forall j: nat | Reaches(encode, canvas, f, j)
      ensures j <= i && !Fits(encode, canvas, f, j)
    {
      if j < i {
        assert Oversized(encode, canvas, f, j);
      }
    }
    forall g, j: nat | Made(encode, canvas, g, j)
      ensures RankOf(g, j) <= RankOf(f, i) || RankOf(g, j) >= (if f == Webp then AttemptsPerFormat else 2 * AttemptsPerFormat)
    {
      assert g == f ==> j <= i;
    }
  }

  /** Once an attempt fits, no attempt after it in order is made. */
  lemma FirstFit(encode: (Canvas, Format, nat) -> Option<nat>, canvas: Canvas, f: Format, i: nat)
    requires i < AttemptsPerFormat && Made(encode, canvas, f, i) && Fits(encode, canvas, f, i)
    ensures Chosen(encode, canvas, f, i) && Succeeds(encode, canvas, f)
    ensures forall g, j: nat :: Made(encode, canvas, g, j) ==> RankOf(g, j) <= RankOf(f, i)
  {
    assert Reaches(encode, canvas, f, i) && !Oversized(encode, canvas, f, i);
  }

  /**
   * A trace that reaches the end of the order: every attempt in it was made,
   * at a quality from 0.9 down to 0.4, in increasing rank; every attempt made
   * is in it; and there are at most twelve, as many as there are ranks.
   */
  lemma TraceComplete(encode: (Canvas, Format, nat) -> Option<nat>, canvas: Canvas, tried: seq<Attempt>)
    requires TraceUpTo(encode, canvas, tried, 2 * AttemptsPerFormat)
    ensures forall k :: 0 <= k < |tried| ==>
      TopQuality - AttemptsPerFormat < tried[k].quality <= TopQuality
      && Made(encode, canvas, tried[k].format, TopQuality - tried[k].quality)
    ensures forall f, i: nat :: Made(encode, canvas, f, i) ==> Attempt(f, Quality(i)) in tried
    ensures forall k, l :: 0 <= k < l < |tried| ==> Rank(tried[k]) < Rank(tried[l])
    ensures |tried| <= 2 * AttemptsPerFormat
  {
    forall f, i: nat | Made(encode, canvas, f, i)
      ensures Attempt(f, Quality(i)) in tried
    {
      assert RankOf(f, i) < 2 * AttemptsPerFormat;
    }
  }

  /** After an abandoned format the trace is complete up to the next format. */
  lemma AbandonedTrace(encode: (Canvas, Format, nat) -> Option<nat>, canvas: Canvas, tried: seq<Attempt>, f: Format, i: nat)
    requires i < AttemptsPerFormat && encode(canvas, f, Quality(i)).None?
    requires Made(encode, canvas, f, i)
    requires TraceUpTo(encode, canvas, tried, RankOf(f, 0) + i + 1)
    ensures !Succeeds(encode, canvas, f)
    ensures TraceUpTo(encode, canvas, tried, RankOf(f, 0) + AttemptsPerFormat)
  {
    Abandoned(encode, canvas, f, i);
    TraceSkip(encode, canvas, tried, RankOf(f, 0) + i + 1, RankOf(f, 0) + AttemptsPerFormat);
  }

  /** After the chosen attempt the trace is complete: nothing later is made. */
  lemma FirstFitTrace(encode: (Canvas, Format, nat) -> Option<nat>, canvas: Canvas, tried: seq<Attempt>, f: Format, i: nat)
    requires i < AttemptsPerFormat && Made(encode, canvas, f, i) && Fits(encode, canvas, f, i)
    requires TraceUpTo(encode, canvas, tried, RankOf(f, 0) + i + 1)
    ensures Chosen(encode, canvas, f, i)
    ensures TraceUpTo(encode, canvas, tried, 2 * AttemptsPerFormat)
  {
    FirstFit(encode, canvas, f, i);
    assert RankOf(f, i) == RankOf(f, 0) + i;
    TraceSkip(encode, canvas, tried, RankOf(f, 0) + i + 1, 2 * AttemptsPerFormat);
  }

  /** The file made from the chosen attempt's blob. */
  function Encoded(file: File, f: Format, size: nat): File
  {
    File(Renamed(file.name, f), MimeOf(f), size)
  }

  /**
   * One pass of the inner loop of `preprocessImage`: format `f` encoded at
   * qualities 0.9 down to 0.4 until a blob is under budget; a missing blob
   * abandons the format. `tried` is extended by the encoder calls made.
   */
  method TryFormat(encode: (Canvas, Format, nat) -> Option<nat>, canvas: Canvas, f: Format, ghost before: seq<Attempt>)
    returns (size: Option<nat>, ghost at: nat, ghost tried: seq<Attempt>)
    requires f == Jpeg ==> !Succeeds(encode, canvas, Webp)
    requires TraceUpTo(encode, canvas, before, RankOf(f, 0))
    ensures size.Some? <==> Succeeds(encode, canvas, f)
    ensures size.Some? ==> size.value < ByteBudget
    ensures size.Some? ==>
      && at < AttemptsPerFormat && Chosen(encode, canvas, f, at)
      && size.value == encode(canvas, f, Quality(at)).value
      && TraceUpTo(encode, canvas, tried, 2 * AttemptsPerFormat)
    ensures size.None? ==> !Succeeds(encode, canvas, f) && TraceUpTo(encode, canvas, tried, RankOf(f, 0) + AttemptsPerFormat)
  {
    tried := before;
    at := 0;
    var quality := TopQuality;
    for i := 0 to AttemptsPerFormat
      invariant quality == TopQuality - i
      invariant forall j :: 0 <= j < i ==> Oversized(encode, canvas, f, j)
      invariant TraceUpTo(encode, canvas, tried, RankOf(f, 0) + i)
    {
      assert quality == Quality(i);
      var blob := encode(canvas, f, quality);
      Step(encode, canvas, tried, f, i);
      tried := tried + [Attempt(f, quality)];
      if blob.None? {
        AbandonedTrace(encode, canvas, tried, f, i);
        return None, at, tried;
      }
      if blob.value < ByteBudget {
        FirstFitTrace(encode, canvas, tried, f, i);
        return Some(blob.value), i, tried;
      }
      assert Oversized(encode, canvas, f, i);
      quality := quality - 1;
    }
    Exhausted(encode, canvas, f);
    return None, at, tried;
  }

  /**
   * `preprocessImage`: small files pass through; otherwise the photo is
   * decoded, scaled onto a canvas of at most 2048 pixels a side, and encoded
   * as WebP and then JPEG at falling qualities until a blob is under budget;
   * when none is, the original is kept. `tried` lists the encoder calls.
   */
  method PreprocessImage(file: File, bitmap: Option<Canvas>, hasContext: bool, encode: (Canvas, Format, nat) -> Option<nat>)
    returns (out: Result<File, PrepareError>, ghost tried: seq<Attempt>)
    ensures file.size < SkipBelow ==> out == Success(file) && tried == []
    ensures out.Failure? <==> file.size >= SkipBelow && bitmap.None?
    ensures file.size >= SkipBelow && bitmap.Some? && !hasContext ==> out == Success(file) && tried == []
    ensures file.size >= SkipBelow && bitmap.Some? && hasContext ==>
      var canvas := TargetCanvas(bitmap.value);
      && (forall f, i: nat :: Chosen(encode, canvas, f, i) ==>
            out == Success(Encoded(file, f, encode(canvas, f, Quality(i)).value)))
      && (!Succeeds(encode, canvas, Webp) && !Succeeds(encode, canvas, Jpeg) ==> out == Success(file))
      // the encoder calls: exactly the attempts made, in order (see TraceComplete)
      && TraceUpTo(encode, canvas, tried, 2 * AttemptsPerFormat)
    ensures out.Success? ==> out.value == file || (out.value.size < ByteBudget && out.value.mime in {"image/webp", "image/jpeg"})
  {
    tried := [];
    if file.size < SkipBelow {
      return Success(file), tried;
    }
    if bitmap.None? {
      return Failure(DecodeFailed), tried;
    }
    var canvas := TargetCanvas(bitmap.value);
    if !hasContext {
      return Success(file), tried;
    }
    var formats := [Webp, Jpeg];
    for n := 0 to |formats|
      invariant n >= 1 ==> !Succeeds(encode, canvas, Webp)
      invariant n >= 2 ==> !Succeeds(encode, canvas, Jpeg)
      invariant TraceUpTo(encode, canvas, tried, AttemptsPerFormat * n)
    {
      var fmt := formats[n];
      assert RankOf(fmt, 0) == AttemptsPerFormat * n;
      var size;
      ghost var at;
      size, at, tried := TryFormat(encode, canvas, fmt, tried);
      if size.Some? {
        forall f, j: nat | Chosen(encode, canvas, f, j)
          ensures f == fmt && j == at
        {
          ChosenUnique(encode, canvas, f, j, fmt, at);
        }
        return Success(Encoded(file, fmt, size.value)), tried;
      }
    }
    NothingChosen(encode, canvas);
    return Success(file), tried;
  }

  // ---------------------------------------------------------------------------
  // File selection

  /** A file the page accepts: its MIME type starts with `image/`. */
  predicate IsImage(f: File)
  {
    StartsWith(f.mime, "image/")
  }

  /** The upload page's selection state. */
  class Home {
    var selectedFile: Option<File>

    /** Only images are ever selected. */
    predicate Valid()
      reads this
    {
      selectedFile.Some? ==> IsImage(selectedFile.value)
    }

    constructor()
      ensures selectedFile == None && Valid()
    {
      selectedFile := None;
    }

    /**
     * `handleFileSelect`: the first chosen file becomes the selection when it
     * is an image; an empty choice or a non-image leaves the selection as it was.
     */
    method HandleFileSelect(files: seq<File>)
      requires Valid()
      modifies this
      ensures files != [] && IsImage(files[0]) ==> selectedFile == Some(files[0])
      ensures !(files != [] && IsImage(files[0])) ==> selectedFile == old(selectedFile)
      ensures Valid()
    {
      if files != [] && IsImage(files[0]) {
        selectedFile := Some(files[0]);
      }
    }
  }
}
