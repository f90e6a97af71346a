/** The conversion engine (lib/convert.ts): HEIC detection, output naming,
    MIME selection, the two-pass resize, quality choice, and the staged
    `convertImage` pipeline with its temporary object URL.

    The browser calls the engine makes (heic2any, createImageBitmap, the
    `Image` fallback, `getContext`, `canvasToBlob`) are fields of a `Platform`
    value: total functions whose answers are whatever the browser would give. */
module Convert {
  import opened Wrappers
  import opened Browser
  import opened Types

  // ---------------------------------------------------------------------
  // HEIC / HEIF detection
  // ---------------------------------------------------------------------

  /** ASCII case folding: the part of `toLowerCase` that can matter for the
      suffix test below. */
  function LowerChar(c: char): char {
    if 'A' <= c <= 'Z' then (c as int + 32) as char else c
  }

  function Lower(s: string): (r: string)
    ensures |r| == |s|
    ensures forall i :: 0 <= i < |s| ==> r[i] == LowerChar(s[i])
  {
    seq(|s|, i requires 0 <= i < |s| => LowerChar(s[i]))
  }

  predicate EndsWith(s: string, suffix: string) {
    |suffix| <= |s| && s[|s| - |suffix|..] == suffix
  }

  /** A file is treated as HEIC/HEIF when its declared type is exactly one of
      the two HEIF media types, or its lower-cased name ends in `.heic` or
      `.heif`. The contract states the rule without lower-casing: the type is
      compared case-sensitively, the name suffix case-insensitively. */
  function IsHeic(file: InputFile): (b: bool)
    ensures b <==> file.mime == "image/heic" || file.mime == "image/heif" || HeicSuffix(file.name)
  {
    NameRule(file.name);
    || file.mime == "image/heic"
    || file.mime == "image/heif"
    || EndsWith(Lower(file.name), ".heic")
    || EndsWith(Lower(file.name), ".heif")
  }

  /** The name part of the test, character by character: a dot, then
      h, e, i in either case, then c or f in either case, at the very end. */
  predicate HeicSuffix(n: string) {
    && |n| >= 5
    && n[|n| - 5] == '.'
    && n[|n| - 4] in "hH"
    && n[|n| - 3] in "eE"
    && n[|n| - 2] in "iI"
    && n[|n| - 1] in "cCfF"
  }

  lemma LowerCharIs(c: char, lo: char, up: char)
    requires 'a' <= lo <= 'z' && up as int == lo as int - 32
    ensures LowerChar(c) == lo <==> c == lo || c == up
  {
  }

  lemma NameRule(n: string)
    ensures EndsWith(Lower(n), ".heic") || EndsWith(Lower(n), ".heif") <==> HeicSuffix(n)
  {
    var l := Lower(n);
    EndsWith5(l, ".heic");
    EndsWith5(l, ".heif");
    if |n| >= 5 {
      var k := |n| - 5;
      assert LowerChar(n[k]) == '.' <==> n[k] == '.';
      LowerCharIs(n[k + 1], 'h', 'H');
      LowerCharIs(n[k + 2], 'e', 'E');
      LowerCharIs(n[k + 3], 'i', 'I');
      LowerCharIs(n[k + 4], 'c', 'C');
      LowerCharIs(n[k + 4], 'f', 'F');
    }
  }

  /** A five-character suffix, character by character. */
  lemma EndsWith5(l: string, s: string)
    requires |s| == 5
    ensures EndsWith(l, s) <==>
      && |l| >= 5
      && l[|l| - 5] == s[0] && l[|l| - 4] == s[1] && l[|l| - 3] == s[2]
      && l[|l| - 2] == s[3] && l[|l| - 1] == s[4]
  {
    if |l| >= 5 {
      var t := l[|l| - 5..];
      assert t[0] == l[|l| - 5] && t[1] == l[|l| - 4] && t[2] == l[|l| - 3] && t[3] == l[|l| - 2] && t[4] == l[|l| - 1];
    }
  }

  // ---------------------------------------------------------------------
  // Output naming: `name.replace(/\.[^/.]+$/, '')` followed by `.${format}`
  // ---------------------------------------------------------------------

  /** A character the extension pattern `[^/.]` accepts. */
  predicate Plain(c: char) {
    c != '.' && c != '/'
  }

  /** `s[i]` is the dot the pattern `\.[^/.]+$` matches: one or more plain
      characters follow it and run to the end of the string. */
  predicate IsExtensionDot(s: string, i: int) {
    && 0 <= i < |s| - 1
    && s[i] == '.'
    && forall j :: i < j < |s| ==> Plain(s[j])
  }

  /** Scan leftwards from `i` over plain characters for the extension dot. */
  function ScanForDot(s: string, i: nat): (r: Option<nat>)
    requires i < |s| - 1
    requires forall j :: i < j < |s| ==> Plain(s[j])
    ensures forall k: nat :: IsExtensionDot(s, k) <==> r == Some(k)
    decreases i
  {
    if s[i] == '.' then NoDotBefore(s, i); Some(i)
    else if s[i] == '/' then NoDotBefore(s, i); NoDotFrom(s, i); None
    else if i == 0 then NoDotFrom(s, i); None
    else ScanForDot(s, i - 1)
  }

  /** A character the pattern cannot skip over rules out every earlier dot. */
  lemma NoDotBefore(s: string, i: nat)
    requires i < |s| && !Plain(s[i])
    ensures forall k :: 0 <= k < i ==> !IsExtensionDot(s, k)
  {
    forall k | 0 <= k < i ensures !IsExtensionDot(s, k) {
      assert k < i < |s| && !Plain(s[i]);
    }
  }

  /** No dot at `i` and only plain characters after it: no extension dot from `i` on. */
  lemma NoDotFrom(s: string, i: nat)
    requires i < |s| && s[i] != '.'
    requires forall j :: i < j < |s| ==> Plain(s[j])
    ensures forall k :: i <= k ==> !IsExtensionDot(s, k)
  {
    forall k | i <= k < |s| ensures !IsExtensionDot(s, k) {
      assert s[k] != '.';
    }
  }

  /** Where the extension pattern matches in `s`, if anywhere. The match is
      unique, so this is the position of the only extension dot. */
  function ExtensionDot(s: string): (r: Option<nat>)
    ensures forall k: nat :: IsExtensionDot(s, k) <==> r == Some(k)
  {
    if |s| < 2 || !Plain(s[|s| - 1]) then None
    else ScanForDot(s, |s| - 2)
  }

  /** The name with at most one trailing extension removed. */
  function StripExtension(s: string): (r: string)
    ensures forall i: nat :: IsExtensionDot(s, i) ==> r == s[..i]
    ensures (forall i: nat :: !IsExtensionDot(s, i)) ==> r == s
  {
    match ExtensionDot(s)
    case Some(i) => s[..i]
    case None => s
  }

  /** `getOutputFileName`: drop the extension, if there is one, and append
      `.` and the format. A name without an extension just gains the suffix. */
  function OutputFileName(name: string, format: string): (r: string)
    ensures EndsWith(r, "." + format)
    ensures forall i: nat :: IsExtensionDot(name, i) ==> r == name[..i] + "." + format
    ensures (forall i: nat :: !IsExtensionDot(name, i)) ==> r == name + "." + format
  {
    StripExtension(name) + "." + format
  }

  /** Renaming twice with the same format changes nothing, for any format the
      extension pattern reads back as a whole (non-empty, no `.` or `/`). */
  lemma {:induction false} OutputFileNameIdempotent(name: string, format: string)
    requires |format| > 0 && '.' !in format && '/' !in format
    ensures OutputFileName(OutputFileName(name, format), format) == OutputFileName(name, format)
  {
    var base := StripExtension(name);
    var r := OutputFileName(name, format);
    assert r == base + "." + format;
    forall j | |base| < j < |r| ensures Plain(r[j]) {
      assert r[j] == format[j - |base| - 1];
    }
    assert IsExtensionDot(r, |base|);
    assert StripExtension(r) == r[..|base|] == base;
  }

  // ---------------------------------------------------------------------
  // MIME type and quality
  // ---------------------------------------------------------------------

  /** `getMimeType`: the three known names map to their image types, any
      other string falls back to JPEG. */
  function MimeType(format: string): (mime: string)
    // always one of the three encoder types
    ensures mime in {"image/jpeg", "image/png", "image/webp"}
    // only `png` and `webp` leave the JPEG default, and then the type is named after the format
    ensures mime != "image/jpeg" <==> format == "png" || format == "webp"
    ensures mime != "image/jpeg" ==> mime == "image/" + format
  {
    match format
    case "jpg" => "image/jpeg"
    case "png" => "image/png"
    case "webp" => "image/webp"
    case _ => "image/jpeg"
  }

  /** The encoder is asked for the same format the output is named after. */
  lemma MimeMatchesFormat(f: OutputFormat)
    ensures MimeType(FormatName(f)) == "image/" + (if f == Jpg then "jpeg" else FormatName(f))
  {
  }

  /** The quality handed to the encoder: none for PNG, the option otherwise. */
  function QualityArg(out: OutputFormat, quality: real): (q: Option<real>)
    ensures q.None? <==> out == Png
    ensures q.Some? ==> q.value == quality
  {
    if out == Png then None else Some(quality)
  }

  // ---------------------------------------------------------------------
  // Resize arithmetic
  // ---------------------------------------------------------------------

  datatype Size = Size(width: real, height: real)

  /** A bound takes part only when it is JavaScript-truthy: present and not 0. */
  predicate Truthy(bound: Option<real>) {
    bound.Some? && bound.value != 0.0
  }

  /** A bound that is absent, ignored (0) or positive. */
  predicate Sensible(bound: Option<real>) {
    bound.None? || bound.value >= 0.0
  }

  /** The first pass: fit the width, scaling the height by the same factor. */
  function FitWidth(s: Size, maxW: Option<real>): (r: Size)
    requires s.width > 0.0 && s.height > 0.0
    ensures r.height != 0.0
    ensures r.width * s.height == r.height * s.width
    // the pass runs exactly when a truthy bound is exceeded, and sets the width to it
    ensures Truthy(maxW) && s.width > maxW.value ==> r.width == maxW.value
    ensures !(Truthy(maxW) && s.width > maxW.value) ==> r == s
    ensures Truthy(maxW) ==> r.width <= maxW.value
    ensures Sensible(maxW) ==> 0.0 < r.width <= s.width && 0.0 < r.height <= s.height
  {
    if Truthy(maxW) && s.width > maxW.value then
      Shrinks(s.height, maxW.value, s.width);
      ScaledSign(s.height, maxW.value, s.width);
      Size(maxW.value, s.height * maxW.value / s.width)
    else s
  }

  /** The second pass, on the result of the first: fit the height. */
  function FitHeight(s: Size, maxH: Option<real>): (r: Size)
    requires s.height != 0.0
    ensures r.width * s.height == r.height * s.width
    ensures Truthy(maxH) && s.height > maxH.value ==> r.height == maxH.value
    ensures !(Truthy(maxH) && s.height > maxH.value) ==> r == s
    ensures Truthy(maxH) ==> r.height <= maxH.value
    ensures Sensible(maxH) && s.width > 0.0 && s.height > 0.0 ==>
              0.0 < r.width <= s.width && 0.0 < r.height <= s.height
  {
    if Truthy(maxH) && s.height > maxH.value then
      Shrinks(s.width, maxH.value, s.height);
      Size(s.width * maxH.value / s.height, maxH.value)
    else s
  }

  /** The dimensions `convertImage` computes before rounding: width first,
      then height, each pass triggered only by a truthy bound that is
      exceeded and setting that side to the bound. */
  function Resize(width: real, height: real, maxW: Option<real>, maxH: Option<real>): (r: Size)
    requires width > 0.0 && height > 0.0
    // aspect ratio is kept
    ensures r.width * height == r.height * width
    // every truthy bound holds afterwards, whatever its sign
    ensures Truthy(maxH) ==> r.height <= maxH.value
    ensures Truthy(maxW) ==> r.width <= maxW.value
    // with bounds that are absent, ignored or positive, the image only shrinks
    ensures Sensible(maxW) && Sensible(maxH) ==>
              0.0 < r.width <= width && 0.0 < r.height <= height
  {
    TwoPass(Size(width, height), maxW, maxH);
    FitHeight(FitWidth(Size(width, height), maxW), maxH)
  }

  /** The facts `Resize` promises, about the two passes it composes. */
  lemma TwoPass(s0: Size, maxW: Option<real>, maxH: Option<real>)
    requires s0.width > 0.0 && s0.height > 0.0
    ensures var r := FitHeight(FitWidth(s0, maxW), maxH);
      && r.width * s0.height == r.height * s0.width
      && (Truthy(maxH) ==> r.height <= maxH.value)
      && (Truthy(maxW) ==> r.width <= maxW.value)
      && (Sensible(maxW) && Sensible(maxH) ==>
            0.0 < r.width <= s0.width && 0.0 < r.height <= s0.height)
  {
    var s1 := FitWidth(s0, maxW);
    RatioCarries(s0, s1, FitHeight(s1, maxH));
    TwoPassBounds(s0, maxW, maxH);
    TwoPassShrinks(s0, maxW, maxH);
  }

  /** The values `Resize` lands on: a triggered height pass sets the height
      to its bound; otherwise the width pass's size stands, whose width is
      the width bound when that pass ran; with no bound exceeded the size
      is untouched. With the kept ratio this fixes both sides. */
  lemma ResizeValues(width: real, height: real, maxW: Option<real>, maxH: Option<real>)
    requires width > 0.0 && height > 0.0
    ensures var s1 := FitWidth(Size(width, height), maxW);
      Truthy(maxH) && s1.height > maxH.value ==> Resize(width, height, maxW, maxH).height == maxH.value
    ensures var s1 := FitWidth(Size(width, height), maxW);
      !(Truthy(maxH) && s1.height > maxH.value) ==> Resize(width, height, maxW, maxH) == s1
    ensures var s1 := FitWidth(Size(width, height), maxW);
      Truthy(maxW) && width > maxW.value && !(Truthy(maxH) && s1.height > maxH.value)
      ==> Resize(width, height, maxW, maxH).width == maxW.value
    ensures !(Truthy(maxW) && width > maxW.value) && !(Truthy(maxH) && height > maxH.value)
            ==> Resize(width, height, maxW, maxH) == Size(width, height)
  {
    var s0 := Size(width, height);
    var s1 := FitWidth(s0, maxW);
    assert Resize(width, height, maxW, maxH) == FitHeight(s1, maxH);
    assert !(Truthy(maxW) && width > maxW.value) ==> s1 == s0;
  }

  /** Each truthy bound holds after both passes: the height pass fixes the
      height, and on a same-signed size it never widens what the width pass left. */
  lemma TwoPassBounds(s0: Size, maxW: Option<real>, maxH: Option<real>)
    requires s0.width > 0.0 && s0.height > 0.0
    ensures Truthy(maxH) ==> FitHeight(FitWidth(s0, maxW), maxH).height <= maxH.value
    ensures Truthy(maxW) ==> FitHeight(FitWidth(s0, maxW), maxH).width <= maxW.value
  {
    var s1 := FitWidth(s0, maxW);
    FitWidthSign(s0, maxW);
    FitHeightNarrows(s1, maxH);
  }

  /** After the width pass both sides share one sign: positive, or negative
      after a negative bound. */
  lemma FitWidthSign(s: Size, maxW: Option<real>)
    requires s.width > 0.0 && s.height > 0.0
    ensures var r := FitWidth(s, maxW);
      (r.width > 0.0 && r.height > 0.0) || (r.width < 0.0 && r.height < 0.0)
  {
    if Truthy(maxW) && s.width > maxW.value {
      ScaledSign(s.height, maxW.value, s.width);
    }
  }

  /** On a size whose sides share a sign, the height pass never widens. */
  lemma FitHeightNarrows(s: Size, maxH: Option<real>)
    requires (s.width > 0.0 && s.height > 0.0) || (s.width < 0.0 && s.height < 0.0)
    ensures FitHeight(s, maxH).width <= s.width
  {
    if Truthy(maxH) && s.height > maxH.value {
      ScaleBelow(s.width, maxH.value, s.height);
    }
  }

  lemma TwoPassShrinks(s0: Size, maxW: Option<real>, maxH: Option<real>)
    requires s0.width > 0.0 && s0.height > 0.0
    ensures Sensible(maxW) && Sensible(maxH) ==>
              var r := FitHeight(FitWidth(s0, maxW), maxH);
              0.0 < r.width <= s0.width && 0.0 < r.height <= s0.height
  {
    var s1 := FitWidth(s0, maxW);
    var r := FitHeight(s1, maxH);
    if Sensible(maxW) && Sensible(maxH) {
      assert 0.0 < s1.width <= s0.width && 0.0 < s1.height <= s0.height;
      assert 0.0 < r.width <= s1.width && 0.0 < r.height <= s1.height;
    }
  }

  lemma RatioCarries(s0: Size, s1: Size, s2: Size)
    requires s0.width > 0.0 && s0.height > 0.0 && s1.height != 0.0
    requires s1.width * s0.height == s1.height * s0.width
    requires s2.width * s1.height == s2.height * s1.width
    ensures s2.width * s0.height == s2.height * s0.width
  {
    calc {
      s2.width * s0.height * s1.height;
      == s2.height * s1.width * s0.height;
      == s2.height * s1.height * s0.width;
    }
  }

  /** Scaling `a` by `b / c` with `b < c`: the result is below `a` when `a`
      is positive, and positive when `b` is too. */
  lemma Shrinks(a: real, b: real, c: real)
    requires c != 0.0
    ensures c > 0.0 && b < c && a > 0.0 ==> a * b / c < a
    ensures c > 0.0 && a > 0.0 && b > 0.0 ==> a * b / c > 0.0
  {
    if c > 0.0 && b < c && a > 0.0 {
      assert a * b < a * c;
    }
  }

  /** Scaling a positive `a` by `b / c` with `c` positive keeps the sign of `b`. */
  lemma ScaledSign(a: real, b: real, c: real)
    requires a > 0.0 && c > 0.0 && b != 0.0
    ensures b > 0.0 ==> a * b / c > 0.0
    ensures b < 0.0 ==> a * b / c < 0.0
  {
    if b < 0.0 {
      assert a * b < 0.0;
    } else {
      assert a * b > 0.0;
    }
  }

  /** Scaling `a` by `b / c` with `b < c` and `a`, `c` of one sign lowers `a`. */
  lemma ScaleBelow(a: real, b: real, c: real)
    requires c != 0.0
    ensures (a > 0.0 && c > 0.0) || (a < 0.0 && c < 0.0) ==> b < c ==> a * b / c < a
  {
    if b >= c {
    } else if a > 0.0 && c > 0.0 {
      assert a * b < a * c;
      assert a * b / c < a * c / c;
    } else if a < 0.0 && c < 0.0 {
      assert a * b > a * c;
      assert a * b / c < a * c / c;
    }
  }

  /** `Math.round`: the nearest integer, halves rounded up. */
  function Round(x: real): (n: int)
    ensures x - 0.5 < n as real <= x + 0.5
  {
    (x + 0.5).Floor
  }

  lemma RoundMonotone(x: real, y: real)
    requires x <= y
    ensures Round(x) <= Round(y)
  {
  }

  /** A width or height within an integer bound still fits after rounding. */
  lemma RoundWithinBound(x: real, bound: int)
    requires x <= bound as real
    ensures Round(x) <= bound
  {
    RoundMonotone(x, bound as real);
  }

  // ---------------------------------------------------------------------
  // The conversion pipeline
  // ---------------------------------------------------------------------

  /** Engine options (`ConvertOptions`): same format domain as the UI's. */
  datatype ConvertOptions = ConvertOptions(
    out: OutputFormat,
    quality: real,
    maxW: Option<real>,
    maxH: Option<real>)

  /** What `convertImage` resolves with. */
  datatype ConvertResult = ConvertResult(
    blob: Blob,
    outName: string,
    originalBytes: nat,
    convertedBytes: nat)

  type Pixels = n: int | n > 0 witness 1

  /** The size of a decoded image (browsers refuse to decode empty images). */
  datatype Dims = Dims(width: Pixels, height: Pixels)

  /** The heic2any call: always to JPEG at quality 0.8. */
  datatype HeicRequest = HeicRequest(blob: Blob, toType: string, quality: real)

  /** The canvas handed to `canvasToBlob`: its rounded size, the drawn image,
      the MIME type and the quality argument. */
  datatype EncodeRequest = EncodeRequest(
    width: int,
    height: int,
    image: Blob,
    mime: string,
    quality: Option<real>)

  /** The browser as the engine sees it. */
  datatype Platform = Platform(
    heic2any: HeicRequest -> Result<Blob, Thrown>,
    hasCreateImageBitmap: bool,
    createImageBitmap: Blob -> Result<Dims, Thrown>,
    loadImage: Blob -> Option<Dims>,
    hasContext2d: bool,
    canvasToBlob: EncodeRequest -> Result<Blob, Thrown>)

  const LoadFailedMessage := "Failed to load image"
  const NoContextMessage := "Failed to get canvas context"

  /** The source bytes to decode: HEIC input goes through heic2any first. */
  function Normalize(file: InputFile, p: Platform): (r: Result<Blob, Thrown>)
    ensures !IsHeic(file) ==> r == Success(file.content)
    // HEIC input is always asked for as JPEG at quality 0.8, and its outcome is passed on
    ensures IsHeic(file) ==> r == p.heic2any(HeicRequest(file.content, "image/jpeg", 0.8))
  {
    if IsHeic(file) then p.heic2any(HeicRequest(file.content, "image/jpeg", 0.8))
    else Success(file.content)
  }

  /** Decoding: `createImageBitmap` when it exists, otherwise an `Image`
      loaded from an object URL, whose load error becomes a fixed message. */
  function Decode(blob: Blob, p: Platform): (r: Result<Dims, Thrown>)
    ensures p.hasCreateImageBitmap ==> r == p.createImageBitmap(blob)
    // the fallback succeeds exactly when the image loads, with the loaded size
    ensures !p.hasCreateImageBitmap ==> (r.Success? <==> p.loadImage(blob).Some?)
    ensures !p.hasCreateImageBitmap && r.Success? ==> r.value == p.loadImage(blob).value
    ensures !p.hasCreateImageBitmap && r.Failure? ==> r.error == JsError(LoadFailedMessage)
  {
    if p.hasCreateImageBitmap then p.createImageBitmap(blob)
    else match p.loadImage(blob)
      case Some(d) => Success(d)
      case None => Failure(JsError(LoadFailedMessage))
  }

  /** The canvas size: the resized dimensions rounded, with no clamp to 1. */
  function CanvasSize(d: Dims, options: ConvertOptions): (r: (int, int))
    // each side is the nearest integer to the resized side
    ensures var s := Resize(d.width as real, d.height as real, options.maxW, options.maxH);
      && s.width - 0.5 < r.0 as real <= s.width + 0.5
      && s.height - 0.5 < r.1 as real <= s.height + 0.5
    // an integer-valued truthy bound still holds after rounding
    ensures Truthy(options.maxW) && options.maxW.value.Floor as real == options.maxW.value
            ==> r.0 <= options.maxW.value.Floor
    ensures Truthy(options.maxH) && options.maxH.value.Floor as real == options.maxH.value
            ==> r.1 <= options.maxH.value.Floor
  {
    var s := Resize(d.width as real, d.height as real, options.maxW, options.maxH);
    RoundedFits(s.width, options.maxW);
    RoundedFits(s.height, options.maxH);
    (Round(s.width), Round(s.height))
  }

  lemma RoundedFits(x: real, bound: Option<real>)
    requires Truthy(bound) ==> x <= bound.value
    ensures Truthy(bound) && bound.value.Floor as real == bound.value ==> Round(x) <= bound.value.Floor
  {
    if Truthy(bound) && bound.value.Floor as real == bound.value {
      RoundWithinBound(x, bound.value.Floor);
    }
  }

  /** One call of `convertImage`: its outcome, the object URLs it created and
      revoked (in order), and the encoder request it made, if it got that far. */
  datatype ConvertRun = ConvertRun(
    result: Result<ConvertResult, Thrown>,
    created: seq<Url>,
    revoked: seq<Url>,
    request: Option<EncodeRequest>)

  /** `convertImage(file, options)`. `tempUrl` is the fresh token
      `URL.createObjectURL` would hand out on the fallback decode path. */
  function ConvertImage(file: InputFile, options: ConvertOptions, p: Platform, tempUrl: Url): (run: ConvertRun)
    // the temporary URL is created only on the fallback path and revoked exactly once, on every path
    ensures run.revoked == run.created
    ensures run.created == (if !p.hasCreateImageBitmap && Normalize(file, p).Success? then [tempUrl] else [])
    // the pipeline succeeds exactly when every browser step does
    ensures run.result.Success? <==>
      && Normalize(file, p).Success?
      && Decode(Normalize(file, p).value, p).Success?
      && p.hasContext2d
      && run.request.Some?
      && p.canvasToBlob(run.request.value).Success?
    // the encoder is reached exactly when the source, the decode and the context are all there
    ensures run.request.Some? <==>
      Normalize(file, p).Success? && Decode(Normalize(file, p).value, p).Success? && p.hasContext2d
    // a failing step's error is the one the pipeline rejects with
    ensures Normalize(file, p).Failure? ==> run.result == Failure(Normalize(file, p).error)
    ensures Normalize(file, p).Success? && Decode(Normalize(file, p).value, p).Failure?
            ==> run.result == Failure(Decode(Normalize(file, p).value, p).error)
    ensures run.request.Some? && p.canvasToBlob(run.request.value).Failure?
            ==> run.result == Failure(p.canvasToBlob(run.request.value).error)
    // a missing 2D context is reported with its own message
    ensures Normalize(file, p).Success? && Decode(Normalize(file, p).value, p).Success? && !p.hasContext2d
            ==> run.result == Failure(JsError(NoContextMessage))
    // the encoder sees the normalized image, the format's MIME type, and a quality only for lossy formats
    ensures run.request.Some? ==>
      && Normalize(file, p).Success?
      && Decode(Normalize(file, p).value, p).Success?
      && (run.request.value.width, run.request.value.height)
         == CanvasSize(Decode(Normalize(file, p).value, p).value, options)
      && run.request.value.image == Normalize(file, p).value
      && run.request.value.mime == MimeType(FormatName(options.out))
      && run.request.value.quality == QualityArg(options.out, options.quality)
    // the result record
    ensures run.result.Success? ==>
      && p.canvasToBlob(run.request.value) == Success(run.result.value.blob)
      && run.result.value.outName == OutputFileName(file.name, FormatName(options.out))
      && run.result.value.originalBytes == file.Size()
      && run.result.value.convertedBytes == run.result.value.blob.size
  {
    var source := Normalize(file, p);
    if source.Failure? then ConvertRun(Failure(source.error), [], [], None)
    else
      var created := if p.hasCreateImageBitmap then [] else [tempUrl];
      var image := Decode(source.value, p);
      if image.Failure? then ConvertRun(Failure(image.error), created, created, None)
      else if !p.hasContext2d then ConvertRun(Failure(JsError(NoContextMessage)), created, created, None)
      else
        var (w, h) := CanvasSize(image.value, options);
        var req := EncodeRequest(w, h, source.value, MimeType(FormatName(options.out)),
                                 QualityArg(options.out, options.quality));
        match p.canvasToBlob(req)
        case Failure(e) => ConvertRun(Failure(e), created, created, Some(req))
        case Success(blob) =>
          var res := ConvertResult(blob, OutputFileName(file.name, FormatName(options.out)), file.Size(), blob.size);
          ConvertRun(Success(res), created, created, Some(req))
  }

  /** The engine's outcome; it does not depend on which token the temporary URL gets. */
  function Engine(file: InputFile, options: ConvertOptions, p: Platform): Result<ConvertResult, Thrown> {
    ConvertImage(file, options, p, 0).result
  }

  lemma ResultIgnoresTempUrl(file: InputFile, options: ConvertOptions, p: Platform, u: Url)
    ensures ConvertImage(file, options, p, u).result == Engine(file, options, p)
  {
  }

  /** For PNG the quality option has no effect at all. */
  lemma PngIgnoresQuality(file: InputFile, options: ConvertOptions, p: Platform, u: Url, q: real)
    requires options.out == Png
    ensures ConvertImage(file, options.(quality := q), p, u) == ConvertImage(file, options, p, u)
  {
  }

  /** The canvas is not clamped to at least one pixel: a 1000x1 image bounded
      to width 100 gets a canvas of height 0. */
  lemma CanvasMayBeEmpty()
    ensures CanvasSize(Dims(1000, 1), ConvertOptions(Jpg, 0.85, Some(100.0), None)) == (100, 0)
  {
    var s := Resize(1000.0, 1.0, Some(100.0), None);
    assert s == Size(100.0, 0.1);
    assert Round(0.1) == 0;
    assert Round(100.0) == 100;
  }
}
