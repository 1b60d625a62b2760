/** The WebP conversion gate of the Yireo Webp2 Magento module: `Convertor::convertImage`,
    its private `convert` and `convertSrcSet`.

    Everything the class reaches through a collaborator is an input here: the module
    configuration is two booleans, the filesystem is the set of existing paths, the
    staleness check and the WebP encoder are oracles, and the two image factories are
    deterministic functions. A `World` is threaded through every call so that the file a
    completed encoding leaves behind is visible to the checks that follow it. */
module Convertor {
  import opened PhpStrings

  type Path = string

  /** A located image: what the code reads through `getPath`, `getUrl`, `getMimetype`
      and `getSrcSet`. */
  datatype Image = Image(path: Path, url: string, mimetype: string, srcSet: string)

  /** How one call of the external encoder ends. */
  datatype Outcome =
    | Converted              // returned normally; the target file has been written
    | Rejected               // an invalid-image-type or invalid-input exception (soft rejection)
    | Failed(message: string)  // a conversion-failed or invalid-convertor exception (hard failure)
    | Escaped(message: string) // any other exception, which no catch clause names

  /** The collaborators the converter is constructed with. `needsConversion` is
      `File::needsConversion`; it sees the whole world, so the encoder calls already made
      stand in for the modification times it compares. `createTarget(image, format)` is
      `TargetImageFactory::create`, `createFromUrl` is `ImageFactory::createFromUrl`. */
  datatype Env = Env(
    enabled: bool,
    allowImageCreation: bool,
    needsConversion: (World, Path, Path) -> bool,
    encode: (Path, Path) -> Outcome,
    createTarget: (Image, string) -> Image,
    createFromUrl: string -> Image)

  /** The filesystem as the converter sees it, and the trace of encoder calls made so far
      (source, target), oldest first. */
  datatype World = World(files: set<Path>, encoded: seq<(Path, Path)>)

  /** The `ConvertorException`s the class throws, by the condition behind each message,
      and the exceptions that leave the encoder uncaught. */
  datatype Error =
    | NotEnabled
    | UnsupportedMimetype(mimetype: string)
    | SourceMissing(path: Path)
    | MissingAfterConversion(path: Path)
    | ConversionFailed(message: string)
    | Uncaught(message: string)

  datatype Result<T> = Ok(value: T) | Err(error: Error)

  /** What a call returns or throws, and the world it leaves behind (a write made before
      an exception is thrown stays on disk). */
  datatype Step<T> = Step(result: Result<T>, world: World)

  const SupportedMimetypes: set<string> := {"image/jpeg", "image/jpg", "image/png"}
  const TargetFormat: string := "webp"

  /** Every guard in front of the encoder passes: the source exists, the staleness check
      asks for a conversion, and the module is enabled and may create images. */
  predicate EncoderReached(env: Env, w: World, src: Path, dst: Path) {
    src in w.files && env.needsConversion(w, src, dst)
    && env.enabled && env.allowImageCreation
  }

  /** `after` is `before` with files added and encoder calls appended, nothing removed. */
  predicate Grows(before: World, after: World) {
    before.files <= after.files && |before.encoded| <= |after.encoded|
    && after.encoded[..|before.encoded|] == before.encoded
  }

  /** One call of the encoder: recorded in the trace; only a completed conversion leaves
      the target on disk. */
  function Encode(env: Env, w: World, src: Path, dst: Path): World {
    World(if env.encode(src, dst).Converted? then w.files + {dst} else w.files,
          w.encoded + [(src, dst)])
  }

  /** `convert(source, target)`: the guarded encoder call. Its guards and outcomes are
      stated by the lemmas that follow. */
  function Convert(env: Env, w: World, src: Path, dst: Path): (s: Step<bool>)
    // at most one encoder call is added, and no file is removed
    ensures Grows(w, s.world) && |s.world.encoded| <= |w.encoded| + 1
  {
    if src !in w.files then Step(Err(SourceMissing(src)), w)
    else if !env.needsConversion(w, src, dst) then Step(Ok(true), w)
    else if !env.enabled || !env.allowImageCreation then Step(Err(NotEnabled), w)
    else
      var w' := Encode(env, w, src, dst);
      match env.encode(src, dst)
      case Converted => Step(Ok(true), w')
      case Rejected => Step(Ok(false), w')
      case Failed(message) => Step(Err(ConversionFailed(dst + ": " + message)), w')
      case Escaped(message) => Step(Err(Uncaught(message)), w')
  }

  /** The missing source is reported first, whatever the flags and the staleness check say. */
  lemma ConvertChecksSourceFirst(env: Env, w: World, src: Path, dst: Path)
    requires src !in w.files
    ensures Convert(env, w, src, dst) == Step(Err(SourceMissing(src)), w)
  {
  }

  /** A target the staleness check calls fresh is served as it is, without the encoder and
      whatever the two flags say (read-only mode still serves converted files). */
  lemma ConvertServesFreshTarget(env: Env, w: World, src: Path, dst: Path)
    requires src in w.files && !env.needsConversion(w, src, dst)
    ensures Convert(env, w, src, dst) == Step(Ok(true), w)
  {
  }

  /** "Not enabled" is thrown exactly when a conversion is needed but the module is switched
      off or may not create images. */
  lemma ConvertNotEnabled(env: Env, w: World, src: Path, dst: Path)
    ensures Convert(env, w, src, dst).result == Err(NotEnabled) <==>
              src in w.files && env.needsConversion(w, src, dst)
              && !(env.enabled && env.allowImageCreation)
  {
  }

  /** The encoder is called once, on this pair, exactly when every guard passes; otherwise
      the world is left as it was. */
  lemma ConvertWorld(env: Env, w: World, src: Path, dst: Path)
    ensures Convert(env, w, src, dst).world ==
              if EncoderReached(env, w, src, dst) then Encode(env, w, src, dst) else w
  {
  }

  /** `false` comes only from a soft rejection by the encoder, never from an error. */
  lemma ConvertFalseIsSoftRejection(env: Env, w: World, src: Path, dst: Path)
    ensures Convert(env, w, src, dst).result == Ok(false) <==>
              EncoderReached(env, w, src, dst) && env.encode(src, dst) == Rejected
  {
  }

  /** A hard failure of the encoder is rethrown with the target path in front of its message. */
  lemma ConvertHardFailure(env: Env, w: World, src: Path, dst: Path)
    ensures (Convert(env, w, src, dst).result.Err? && Convert(env, w, src, dst).result.error.ConversionFailed?)
            <==> EncoderReached(env, w, src, dst) && env.encode(src, dst).Failed?
    ensures EncoderReached(env, w, src, dst) && env.encode(src, dst).Failed? ==>
              Convert(env, w, src, dst).result == Err(ConversionFailed(dst + ": " + env.encode(src, dst).message))
  {
  }

  /** An exception the encoder throws that no catch clause names leaves `convert` as it is,
      after the encoder call. */
  lemma ConvertUncaught(env: Env, w: World, src: Path, dst: Path)
    requires EncoderReached(env, w, src, dst) && env.encode(src, dst).Escaped?
    ensures Convert(env, w, src, dst)
            == Step(Err(Uncaught(env.encode(src, dst).message)), Encode(env, w, src, dst))
  {
  }

  /** A completed encoding returns true and leaves the target on disk. */
  lemma ConvertCompleted(env: Env, w: World, src: Path, dst: Path)
    requires EncoderReached(env, w, src, dst) && env.encode(src, dst) == Converted
    ensures Convert(env, w, src, dst).result == Ok(true)
    ensures Convert(env, w, src, dst).world.files == w.files + {dst}
  {
  }

  /** `convert` followed by the "does not exist after conversion" check, as `convertImage`
      and every round of `convertSrcSet` run it. */
  function ConvertToTarget(env: Env, w: World, source: Image, target: Image): (s: Step<()>)
    ensures s.world == Convert(env, w, source.path, target.path).world && Grows(w, s.world)
    // a soft rejection is forgiven exactly when the target was already on disk before the call
    ensures s.result == Err(MissingAfterConversion(target.path)) <==>
              EncoderReached(env, w, source.path, target.path)
              && env.encode(source.path, target.path) == Rejected && target.path !in w.files
    ensures s.result.Ok? ==> target.path in s.world.files || Convert(env, w, source.path, target.path).result == Ok(true)
    ensures s.result.Err? && !s.result.error.MissingAfterConversion? ==>
              Convert(env, w, source.path, target.path).result == Err(s.result.error)
    // an exception from `convert` is rethrown as it is, whatever is on disk
    ensures Convert(env, w, source.path, target.path).result.Err? ==>
              s.result == Err(Convert(env, w, source.path, target.path).result.error)
  {
    var c := Convert(env, w, source.path, target.path);
    ConvertWorld(env, w, source.path, target.path);
    ConvertFalseIsSoftRejection(env, w, source.path, target.path);
    match c.result
    case Err(e) => Step(Err(e), c.world)
    case Ok(converted) =>
      if !converted && target.path !in c.world.files then Step(Err(MissingAfterConversion(target.path)), c.world)
      else Step(Ok(()), c.world)
  }

  /** One srcset element after `trim` and `explode(' ', …)`: the first piece is the URL and
      the second, if any, the descriptor; `None` is the integer sentinel 0 of `?? 0`. */
  datatype Entry = Entry(url: string, descriptor: Option<string>)

  datatype Option<T> = None | Some(value: T)

  function ParseEntry(element: string): Entry {
    var pieces := Explode(Trim(element), ' ');
    Entry(pieces[0], if |pieces| > 1 then Some(pieces[1]) else None)
  }

  /** The URL and the descriptor are space-free tokens read from the front of the trimmed
      element: the URL alone when it holds no space, else the URL, one space and the
      descriptor start it. */
  lemma ParseEntryShape(element: string)
    ensures var e := ParseEntry(element);
            ' ' !in e.url
            && (e.descriptor.Some? ==> ' ' !in e.descriptor.value)
            && (e.descriptor.None? <==> ' ' !in Trim(element))
            && (e.descriptor.None? ==> e.url == Trim(element))
            && (e.descriptor.Some? ==> e.url + " " + e.descriptor.value <= Trim(element))
            // the descriptor is the whole second token: the trimmed element ends after it or
            // goes on with another space
            && (e.descriptor.Some? ==>
                  e.url + " " + e.descriptor.value == Trim(element)
                  || e.url + " " + e.descriptor.value + " " <= Trim(element))
  {
    var trimmed := Trim(element);
    var pieces := Explode(trimmed, ' ');
    ImplodeExplode(trimmed, ' ');
    ExplodeSeparatorFree(trimmed, ' ');
    if ' ' !in trimmed {
      ExplodeWithoutSeparator(trimmed, ' ');
    }
    if |pieces| > 1 {
      ImplodeHead(pieces[1..], " ");
      var tail := Implode(pieces[1..], " ");
      assert trimmed == pieces[0] + " " + tail;
      if |pieces| > 2 {
        var more := Implode(pieces[2..], " ");
        assert pieces[1..][1..] == pieces[2..];
        assert tail == pieces[1] + " " + more;
        assert pieces[0] + " " + pieces[1] + " " + more == trimmed;
      } else {
        assert tail == pieces[1];
      }
    }
  }

  /** `$descriptor ?: ''`: the sentinel and every falsy string ("" and "0") print as nothing. */
  function RenderDescriptor(descriptor: Option<string>): (r: string)
    // either nothing or the descriptor itself, and then a truthy one
    ensures r == "" || (descriptor == Some(r) && Truthy(r))
    ensures descriptor.Some? && Truthy(descriptor.value) ==> r == descriptor.value
  {
    if descriptor.Some? && Truthy(descriptor.value) then descriptor.value else ""
  }

  /** What one srcset element is rewritten to: the URL of the WebP target of the image the
      element's URL resolves to, a space, and the printed descriptor. */
  function RenderEntry(env: Env, element: string): (r: string)
    // the space after the URL is always written, so a rendered element is never falsy
    ensures ' ' in r && Truthy(r)
  {
    var e := ParseEntry(element);
    TargetUrl(env, e.url) + " " + RenderDescriptor(e.descriptor)
  }

  /** The URL of the WebP target derived from the image a URL resolves to. */
  function TargetUrl(env: Env, url: string): string {
    env.createTarget(env.createFromUrl(url), TargetFormat).url
  }

  /** One round of the `convertSrcSet` loop. */
  function ConvertEntry(env: Env, w: World, element: string): (s: Step<string>)
    ensures s.result.Ok? ==> s.result.value == RenderEntry(env, element)
    ensures Grows(w, s.world)
  {
    var e := ParseEntry(element);
    var source := env.createFromUrl(e.url);
    var target := env.createTarget(source, TargetFormat);
    var c := ConvertToTarget(env, w, source, target);
    match c.result
    case Err(err) => Step(Err(err), c.world)
    case Ok(_) => Step(Ok(target.url + " " + RenderDescriptor(e.descriptor)), c.world)
  }

  /** The `foreach` of `convertSrcSet` with `round` as its body: the rounds run on the
      elements in order, each in the world the previous one left, and the first exception
      ends the loop; on success, the value of every round. */
  function Rounds(round: (World, string) -> Step<string>, w: World, elements: seq<string>): (s: Step<seq<string>>)
    ensures s.result.Ok? ==> |s.result.value| == |elements|
    decreases |elements|
  {
    if elements == [] then Step(Ok([]), w)
    else
      var prior := Rounds(round, w, elements[..|elements| - 1]);
      if prior.result.Err? then prior
      else
        var last := round(prior.world, elements[|elements| - 1]);
        match last.result
        case Err(err) => Step(Err(err), last.world)
        case Ok(rendered) => Step(Ok(prior.result.value + [rendered]), last.world)
  }

  /** The `convertSrcSet` loop over the elements in order, stopping at the first exception;
      on success, the rewritten elements. */
  function RewriteEntries(env: Env, w: World, elements: seq<string>): (s: Step<seq<string>>)
    ensures s.result.Ok? ==> |s.result.value| == |elements|
  {
    Rounds((w': World, element: string) => ConvertEntry(env, w', element), w, elements)
  }

  /** The loop only ever adds files and appends to the encoder trace. */
  lemma {:induction false} RoundsGrow(round: (World, string) -> Step<string>, w: World, elements: seq<string>)
    requires forall w': World, element: string :: Grows(w', round(w', element).world)
    ensures Grows(w, Rounds(round, w, elements).world)
    decreases |elements|
  {
    if elements != [] {
      var init := elements[..|elements| - 1];
      RoundsGrow(round, w, init);
      var prior := Rounds(round, w, init);
      if prior.result.Ok? {
        var last := round(prior.world, elements[|elements| - 1]);
        assert Grows(prior.world, last.world);
        assert last.world.encoded[..|w.encoded|] == prior.world.encoded[..|w.encoded|];
      }
    }
  }

  lemma RewriteEntriesGrow(env: Env, w: World, elements: seq<string>)
    ensures Grows(w, RewriteEntries(env, w, elements).world)
  {
    RoundsGrow((w': World, element: string) => ConvertEntry(env, w', element), w, elements);
  }

  /** What `convertSrcSet` returns or throws for a srcset string. */
  function RewrittenSrcSet(env: Env, w: World, srcSet: string): (s: Step<string>)
    // the rewrite only adds files and encoder calls
    ensures Grows(w, s.world)
  {
    var r := RewriteEntries(env, w, Explode(srcSet, ','));
    RewriteEntriesGrow(env, w, Explode(srcSet, ','));
    match r.result
    case Err(err) => Step(Err(err), r.world)
    case Ok(rendered) => Step(Ok(Implode(rendered, ", ")), r.world)
  }

  /** `convertImage(image)`. */
  function ConvertImage(env: Env, w: World, image: Image): (s: Step<Image>)
    // the feature flag comes first, whatever the mimetype and the files on disk
    ensures !env.enabled ==> s == Step(Err(NotEnabled), w)
    // then the mimetype allow-list; neither failure reaches the encoder or the disk
    ensures env.enabled && image.mimetype !in SupportedMimetypes ==>
              s == Step(Err(UnsupportedMimetype(image.mimetype)), w)
    // success returns the derived WebP target with only its srcset replaced
    ensures s.result.Ok? ==>
              env.enabled && image.mimetype in SupportedMimetypes
              && s.result.value == env.createTarget(image, TargetFormat).(srcSet := s.result.value.srcSet)
    // the converter never removes a file and only appends to the encoder trace
    ensures Grows(w, s.world)
  {
    if !env.enabled then Step(Err(NotEnabled), w)
    else if image.mimetype !in SupportedMimetypes then Step(Err(UnsupportedMimetype(image.mimetype)), w)
    else
      var target := env.createTarget(image, TargetFormat);
      var c := ConvertToTarget(env, w, image, target);
      if c.result.Err? then Step(Err(c.result.error), c.world)
      else
        var r := RewrittenSrcSet(env, c.world, image.srcSet);
        assert r.world.encoded[..|w.encoded|] == c.world.encoded[..|w.encoded|];
        match r.result
        case Err(err) => Step(Err(err), r.world)
        case Ok(srcSet) => Step(Ok(target.(srcSet := srcSet)), r.world)
  }

  /** `convertSrcSet(image)` as the PHP loop runs it: an accumulator extended one element at
      a time, with `", "` in front of every element but the first (the accumulator is tested
      for PHP truthiness). */
  method ConvertSrcSet(env: Env, w: World, image: Image) returns (r: Result<string>, w': World)
    ensures Step(r, w') == RewrittenSrcSet(env, w, image.srcSet)
  {
    var srcSetImages := Explode(image.srcSet, ',');
    var webpImageSrcSet := "";
    var world := w;
    ghost var done: seq<string> := [];
    var i := 0;
    assert srcSetImages[..0] == [];
    while i < |srcSetImages|
      invariant 0 <= i <= |srcSetImages|
      invariant RewriteEntries(env, w, srcSetImages[..i]) == Step(Ok(done), world)
      invariant webpImageSrcSet == Implode(done, ", ")
      invariant done != [] ==> ' ' in webpImageSrcSet
    {
      var round := ConvertEntry(env, world, srcSetImages[i]);
      if round.result.Err? {
        RewriteFails(env, w, srcSetImages, i, done, world);
        return Err(round.result.error), round.world;
      }
      var rendered := round.result.value;
      RewriteGoesOn(env, w, srcSetImages, i, done, world);
      AccumulateEntry(webpImageSrcSet, done, rendered);
      webpImageSrcSet := webpImageSrcSet + (if Truthy(webpImageSrcSet) then ", " else "") + rendered;
      world := round.world;
      done := done + [rendered];
      i := i + 1;
    }
    assert srcSetImages[..i] == srcSetImages;
    r, w' := Ok(webpImageSrcSet), world;
  }

  /** The accumulator step `$acc .= ($acc ? ', ' : '') . $url . ' ' . $descriptor`: once an
      element is in, the accumulator holds a space and is therefore truthy, so every element
      but the first gets a separator. */
  lemma AccumulateEntry(acc: string, done: seq<string>, rendered: string)
    requires acc == Implode(done, ", ")
    requires done != [] ==> ' ' in acc
    requires ' ' in rendered
    ensures acc + (if Truthy(acc) then ", " else "") + rendered == Implode(done + [rendered], ", ")
    ensures ' ' in Implode(done + [rendered], ", ")
  {
    ImplodeSnoc(done, rendered, ", ");
    if done == [] {
      assert acc + "" + rendered == rendered;
    } else {
      assert Truthy(acc);
    }
  }

  /** The loop after one more element: the rounds so far, then the round on that element
      in the world they left. */
  lemma RoundsSnoc(round: (World, string) -> Step<string>, w: World, elements: seq<string>, i: nat)
    requires i < |elements|
    ensures var prior := Rounds(round, w, elements[..i]);
            var last := round(prior.world, elements[i]);
            Rounds(round, w, elements[..i + 1])
              == if prior.result.Err? then prior
                 else if last.result.Err? then Step(Err(last.result.error), last.world)
                 else Step(Ok(prior.result.value + [last.result.value]), last.world)
  {
    assert elements[..i + 1][..i] == elements[..i];
  }

  /** A round that goes through extends the loop's result by its rendering. */
  lemma RewriteGoesOn(env: Env, w: World, elements: seq<string>, i: nat, done: seq<string>, world: World)
    requires i < |elements|
    requires RewriteEntries(env, w, elements[..i]) == Step(Ok(done), world)
    requires ConvertEntry(env, world, elements[i]).result.Ok?
    ensures var last := ConvertEntry(env, world, elements[i]);
            RewriteEntries(env, w, elements[..i + 1]) == Step(Ok(done + [last.result.value]), last.world)
  {
    RoundsSnoc((w': World, element: string) => ConvertEntry(env, w', element), w, elements, i);
  }

  /** A round that throws ends the loop with its exception. */
  lemma RewriteFails(env: Env, w: World, elements: seq<string>, i: nat, done: seq<string>, world: World)
    requires i < |elements|
    requires RewriteEntries(env, w, elements[..i]) == Step(Ok(done), world)
    requires ConvertEntry(env, world, elements[i]).result.Err?
    ensures var last := ConvertEntry(env, world, elements[i]);
            RewriteEntries(env, w, elements) == Step(Err(last.result.error), last.world)
  {
    RoundsSnoc((w': World, element: string) => ConvertEntry(env, w', element), w, elements, i);
    RewriteStopsAtError(env, w, elements, i + 1);
  }

  /** One round of the loop, after a prefix that went through, spelled out as the PHP
      statements run it. */
  lemma RewriteRound(env: Env, w: World, elements: seq<string>, i: nat)
    requires i < |elements|
    requires RewriteEntries(env, w, elements[..i]).result.Ok?
    ensures var prior := RewriteEntries(env, w, elements[..i]);
            var e := ParseEntry(elements[i]);
            var source := env.createFromUrl(e.url);
            var target := env.createTarget(source, TargetFormat);
            var c := Convert(env, prior.world, source.path, target.path);
            RewriteEntries(env, w, elements[..i + 1])
              == if c.result.Err? then Step(Err(c.result.error), c.world)
                 else if !c.result.value && target.path !in c.world.files
                 then Step(Err(MissingAfterConversion(target.path)), c.world)
                 else Step(Ok(prior.result.value + [target.url + " " + RenderDescriptor(e.descriptor)]), c.world)
  {
    assert elements[..i + 1][..i] == elements[..i];
  }

  /** Once a prefix of the elements has thrown, the later elements are never looked at. */
  lemma {:induction false} RoundsStopAtError(round: (World, string) -> Step<string>, w: World, elements: seq<string>, k: nat)
    requires k <= |elements|
    requires Rounds(round, w, elements[..k]).result.Err?
    ensures Rounds(round, w, elements) == Rounds(round, w, elements[..k])
    decreases |elements| - k
  {
    if k < |elements| {
      var init := elements[..|elements| - 1];
      assert init[..k] == elements[..k];
      RoundsStopAtError(round, w, init, k);
    } else {
      assert elements[..k] == elements;
    }
  }

  lemma RewriteStopsAtError(env: Env, w: World, elements: seq<string>, k: nat)
    requires k <= |elements|
    requires RewriteEntries(env, w, elements[..k]).result.Err?
    ensures RewriteEntries(env, w, elements) == RewriteEntries(env, w, elements[..k])
  {
    RoundsStopAtError((w': World, element: string) => ConvertEntry(env, w', element), w, elements, k);
  }
}
