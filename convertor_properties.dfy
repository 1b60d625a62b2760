/** Properties of the converter that relate several calls, or the whole srcset rewrite to
    its elements: idempotence, read-only mode, the handling of soft rejections, and the
    exact shape of a rewritten srcset, including its quirks. */
module ConvertorProperties {
  import opened PhpStrings
  import opened Convertor

  // ----- convert -----

  /** A second `convert` of a pair the first call answered with true does not encode again,
      provided the staleness check reports the target as up to date in the world the first
      call left (whether the target was written then or was on disk already). */
  lemma ConvertTwiceEncodesAtMostOnce(env: Env, w: World, src: Path, dst: Path)
    requires Convert(env, w, src, dst).result == Ok(true)
    requires !env.needsConversion(Convert(env, w, src, dst).world, src, dst)
    ensures var first := Convert(env, w, src, dst);
            Convert(env, first.world, src, dst) == Step(Ok(true), first.world)
  {
  }

  // ----- the srcset loop -----

  /** With image creation switched off (or the module disabled) the srcset loop neither
      writes a file nor calls the encoder. */
  lemma {:induction false} RewriteEntriesReadOnly(env: Env, w: World, elements: seq<string>)
    requires !env.enabled || !env.allowImageCreation
    ensures RewriteEntries(env, w, elements).world == w
    decreases |elements|
  {
    if elements != [] {
      var init := elements[..|elements| - 1];
      RewriteEntriesReadOnly(env, w, init);
      var prior := RewriteEntries(env, w, init);
      if prior.result.Ok? {
        var e := ParseEntry(elements[|elements| - 1]);
        var source := env.createFromUrl(e.url);
        var target := env.createTarget(source, TargetFormat);
        ConvertWorld(env, prior.world, source.path, target.path);
      }
    }
  }

  /** Read-only mode: `convertImage` with image creation switched off leaves the disk and the
      encoder untouched, whatever it returns. */
  lemma ReadOnlyModeWritesNothing(env: Env, w: World, image: Image)
    requires !env.allowImageCreation
    ensures ConvertImage(env, w, image).world == w
  {
    if env.enabled && image.mimetype in SupportedMimetypes {
      var target := env.createTarget(image, TargetFormat);
      ConvertWorld(env, w, image.path, target.path);
      RewriteEntriesReadOnly(env, w, Explode(image.srcSet, ','));
    }
  }

  /** A successful srcset loop rewrites every element, in order, to its rendering. */
  lemma {:induction false} RewriteEntriesRendered(env: Env, w: World, elements: seq<string>)
    requires RewriteEntries(env, w, elements).result.Ok?
    ensures RewriteEntries(env, w, elements).result.value == RenderAll(env, elements)
    decreases |elements|
  {
    if elements != [] {
      var init := elements[..|elements| - 1];
      RewriteEntriesRendered(env, w, init);
      var done := RewriteEntries(env, w, init).result.value;
      var rendered := RewriteEntries(env, w, elements).result.value;
      assert rendered == done + [RenderEntry(env, elements[|elements| - 1])];
    }
  }

  /** A failed srcset loop has a first failing element: the loop over the elements before
      it goes through, and the loop up to and including it fails. The result is its index. */
  function FirstFailure(round: (World, string) -> Step<string>, w: World, elements: seq<string>): (k: nat)
    requires Rounds(round, w, elements).result.Err?
    ensures k < |elements|
    ensures Rounds(round, w, elements[..k]).result.Ok?
    ensures Rounds(round, w, elements[..k + 1]).result.Err?
    decreases |elements|
  {
    var n := |elements|;
    var init := elements[..n - 1];
    if Rounds(round, w, init).result.Err? then
      var k := FirstFailure(round, w, init);
      PrefixOfPrefix(elements, n - 1, k);
      PrefixOfPrefix(elements, n - 1, k + 1);
      k
    else
      assert elements[..n] == elements;
      n - 1
  }

  /** The first failing element ends the loop: its error and the world it leaves are what
      the whole loop returns, so nothing after it is looked at. */
  lemma FirstFailureEndsLoop(round: (World, string) -> Step<string>, w: World, elements: seq<string>)
    requires Rounds(round, w, elements).result.Err?
    ensures var k := FirstFailure(round, w, elements);
            Rounds(round, w, elements) == Rounds(round, w, elements[..k + 1])
  {
    var k := FirstFailure(round, w, elements);
    RoundsStopAtError(round, w, elements, k + 1);
  }

  lemma PrefixOfPrefix<T>(s: seq<T>, n: nat, k: nat)
    requires k <= n <= |s|
    ensures s[..n][..k] == s[..k]
  {
  }

  /** The rendering of every element, in order. */
  function RenderAll(env: Env, elements: seq<string>): seq<string>
    decreases |elements|
  {
    if elements == [] then []
    else RenderAll(env, elements[..|elements| - 1]) + [RenderEntry(env, elements[|elements| - 1])]
  }

  /** The srcset `convertSrcSet` returns: the rendering of every comma-separated element,
      in order, joined by ", " with nothing in front of the first. */
  lemma SrcSetOutput(env: Env, w: World, srcSet: string)
    requires RewrittenSrcSet(env, w, srcSet).result.Ok?
    ensures RewrittenSrcSet(env, w, srcSet).result.value
            == Implode(RenderAll(env, Explode(srcSet, ',')), ", ")
  {
    RewriteEntriesRendered(env, w, Explode(srcSet, ','));
  }

  // ----- one srcset element -----

  /** An element that is a URL and a descriptor separated by one space is read as such. */
  lemma ParseUrlAndDescriptor(url: string, descriptor: string)
    requires url != [] && ' ' !in url && !IsTrimmable(url[0])
    requires descriptor != [] && ' ' !in descriptor && !IsTrimmable(descriptor[|descriptor| - 1])
    ensures ParseEntry(url + " " + descriptor) == Entry(url, Some(descriptor))
  {
    var element := url + " " + descriptor;
    assert element[0] == url[0] && element[|element| - 1] == descriptor[|descriptor| - 1];
    TrimUntouched(element);
    ExplodePrepend(url, [' '] + descriptor, ' ');
    assert element == url + ([' '] + descriptor);
    assert ([' '] + descriptor)[1..] == descriptor;
    ExplodeWithoutSeparator(descriptor, ' ');
    assert Explode([' '] + descriptor, ' ') == [""] + [descriptor];
  }

  /** Quirk: an element with no descriptor is still written with a space after its URL. */
  lemma BareUrlKeepsTrailingSpace(env: Env, url: string)
    requires url != [] && ' ' !in url && !IsTrimmable(url[0]) && !IsTrimmable(url[|url| - 1])
    ensures RenderEntry(env, url) == TargetUrl(env, url) + " "
  {
    TrimUntouched(url);
    ExplodeWithoutSeparator(url, ' ');
  }

  /** Quirk: the descriptor "0" is falsy in PHP and is written as nothing. */
  lemma ZeroDescriptorBlanked(env: Env, url: string)
    requires url != [] && ' ' !in url && !IsTrimmable(url[0])
    ensures RenderEntry(env, url + " 0") == TargetUrl(env, url) + " "
  {
    ParseUrlAndDescriptor(url, "0");
    assert url + " 0" == url + " " + "0";
    assert TargetUrl(env, url) + " " + "" == TargetUrl(env, url) + " ";
  }

  lemma ExplodeAtSpace(a: string, b: string)
    requires ' ' !in a
    ensures Explode(a + " " + b, ' ') == [a] + Explode(b, ' ')
  {
    assert a + " " + b == a + [' '] + b;
    ExplodeAt(a, ' ', b);
  }

  /** Quirk: only the first two space-separated tokens are used; the rest are dropped. */
  lemma ExtraTokensDropped(env: Env, url: string, descriptor: string, rest: string)
    requires url != [] && ' ' !in url && !IsTrimmable(url[0])
    requires ' ' !in descriptor && Truthy(descriptor)
    requires rest != [] && !IsTrimmable(rest[|rest| - 1])
    ensures RenderEntry(env, url + " " + (descriptor + " " + rest)) == TargetUrl(env, url) + " " + descriptor
  {
    var element := url + " " + (descriptor + " " + rest);
    assert element[0] == url[0] && element[|element| - 1] == rest[|rest| - 1];
    TrimUntouched(element);
    ExplodeAtSpace(descriptor, rest);
    ExplodeAtSpace(url, descriptor + " " + rest);
    var pieces := Explode(element, ' ');
    assert pieces == [url] + ([descriptor] + Explode(rest, ' '));
    assert pieces[0] == url && pieces[1] == descriptor;
    assert ParseEntry(element) == Entry(url, Some(descriptor));
  }

  /** Whitespace around an element (such as the space after each comma) does not matter. */
  lemma LeadingSpaceIgnored(env: Env, element: string)
    ensures RenderEntry(env, " " + element) == RenderEntry(env, element)
  {
  }

  lemma ExplodePair(a: string, b: string)
    requires ',' !in a && ',' !in b
    ensures Explode(a + ", " + b, ',') == [a, " " + b]
  {
    assert a + ", " + b == a + [','] + (" " + b);
    ExplodeAt(a, ',', " " + b);
    assert ',' !in " " + b;
    ExplodeWithoutSeparator(" " + b, ',');
  }

  /** A srcset of two elements is rewritten to the two renderings joined by ", "; the space
      after the comma belongs to the second element and is trimmed away. */
  lemma TwoElementSrcSet(env: Env, w: World, first: string, second: string)
    requires ',' !in first && ',' !in second
    requires RewrittenSrcSet(env, w, first + ", " + second).result.Ok?
    ensures RewrittenSrcSet(env, w, first + ", " + second).result.value
            == RenderEntry(env, first) + ", " + RenderEntry(env, second)
  {
    var srcSet := first + ", " + second;
    ExplodePair(first, second);
    SrcSetOutput(env, w, srcSet);
    var r1 := RenderEntry(env, first);
    var r2 := RenderEntry(env, " " + second);
    RenderAllPair(env, first, " " + second);
    assert Implode([r1, r2], ", ") == r1 + ", " + r2;
    LeadingSpaceIgnored(env, second);
  }

  lemma RenderAllPair(env: Env, a: string, b: string)
    ensures RenderAll(env, [a, b]) == [RenderEntry(env, a), RenderEntry(env, b)]
  {
    assert [a, b][..1] == [a];
    assert [a][..0] == [];
    assert RenderAll(env, [a]) == [RenderEntry(env, a)];
  }

  /** An element made of a URL, one space and a truthy descriptor is rewritten to the
      target URL, one space and the same descriptor. */
  lemma UrlWithDescriptor(env: Env, url: string, descriptor: string)
    requires Token(url) && Token(descriptor) && Truthy(descriptor)
    ensures RenderEntry(env, url + " " + descriptor) == TargetUrl(env, url) + " " + descriptor
  {
    ParseUrlAndDescriptor(url, descriptor);
  }

  /** A token of a srcset: non-empty, with no space or comma and nothing to trim at its ends. */
  predicate Token(s: string) {
    s != [] && ' ' !in s && ',' !in s && !IsTrimmable(s[0]) && !IsTrimmable(s[|s| - 1])
  }

  /** A srcset such as "a.jpg 1x, b.jpg 2x" becomes the two WebP URLs with their descriptors,
      in the same layout. */
  lemma TwoEntrySrcSet(env: Env, w: World, url1: string, d1: string, url2: string, d2: string)
    requires Token(url1) && Token(d1) && Truthy(d1) && Token(url2) && Token(d2) && Truthy(d2)
    requires RewrittenSrcSet(env, w, url1 + " " + d1 + ", " + (url2 + " " + d2)).result.Ok?
    ensures RewrittenSrcSet(env, w, url1 + " " + d1 + ", " + (url2 + " " + d2)).result.value
            == TargetUrl(env, url1) + " " + d1 + ", " + (TargetUrl(env, url2) + " " + d2)
  {
    var first := url1 + " " + d1;
    var second := url2 + " " + d2;
    assert ',' !in first && ',' !in second;
    TwoElementSrcSet(env, w, first, second);
    UrlWithDescriptor(env, url1, d1);
    UrlWithDescriptor(env, url2, d2);
  }

  /** Quirk: an empty srcset is not skipped. `explode` yields one empty element, so the URL
      "" is resolved, converted and written out like any other. */
  lemma EmptySrcSetIsOneElement(env: Env, w: World)
    ensures var s := ConvertEntry(env, w, "");
            RewrittenSrcSet(env, w, "")
              == if s.result.Ok? then Step(Ok(RenderEntry(env, "")), s.world)
                 else Step(Err(s.result.error), s.world)
  {
  }

  // ----- convertImage -----

  /** A successful `convertImage` returns the derived target whose srcset is the rewrite of
      the source image's srcset. */
  lemma ConvertImageResult(env: Env, w: World, image: Image)
    requires ConvertImage(env, w, image).result.Ok?
    ensures ConvertImage(env, w, image).result.value
            == env.createTarget(image, TargetFormat).(srcSet := Implode(RenderAll(env, Explode(image.srcSet, ',')), ", "))
  {
    var target := env.createTarget(image, TargetFormat);
    var c := ConvertToTarget(env, w, image, target);
    SrcSetOutput(env, c.world, image.srcSet);
  }

  /** An exception thrown by `convert` on the main image is what `convertImage` throws, in
      the world `convert` left: the srcset is never looked at, whatever is on disk. */
  lemma MainImageErrorIsRethrown(env: Env, w: World, image: Image)
    requires env.enabled && image.mimetype in SupportedMimetypes
    requires Convert(env, w, image.path, env.createTarget(image, TargetFormat).path).result.Err?
    ensures var c := Convert(env, w, image.path, env.createTarget(image, TargetFormat).path);
            ConvertImage(env, w, image) == Step(Err(c.result.error), c.world)
  {
  }

  /** A soft rejection of the main image with no target on disk fails with "does not exist
      after conversion" for the target path, and the srcset is never looked at. */
  lemma SoftRejectionWithoutTarget(env: Env, w: World, image: Image)
    requires env.enabled && image.mimetype in SupportedMimetypes
    requires var target := env.createTarget(image, TargetFormat);
             EncoderReached(env, w, image.path, target.path)
             && env.encode(image.path, target.path) == Rejected && target.path !in w.files
    ensures var target := env.createTarget(image, TargetFormat);
            ConvertImage(env, w, image)
              == Step(Err(MissingAfterConversion(target.path)), Encode(env, w, image.path, target.path))
  {
  }

  /** Once the main image has gone through `convert` and the existence check (a fresh
      target, a completed encoding, or a forgiven soft rejection), `convertImage` rewrites the
      srcset in the world that left and returns the derived target carrying it, or throws what
      the srcset rewrite throws. */
  lemma ConvertImageGoesOnToSrcSet(env: Env, w: World, image: Image)
    requires env.enabled && image.mimetype in SupportedMimetypes
    requires ConvertToTarget(env, w, image, env.createTarget(image, TargetFormat)).result.Ok?
    ensures var target := env.createTarget(image, TargetFormat);
            var s := RewrittenSrcSet(env, ConvertToTarget(env, w, image, target).world, image.srcSet);
            ConvertImage(env, w, image)
              == if s.result.Ok? then Step(Ok(target.(srcSet := s.result.value)), s.world)
                 else Step(Err(s.result.error), s.world)
  {
  }

  /** A soft rejection of the main image whose target is already on disk counts as success:
      `convertImage` goes on to the srcset exactly as after a completed conversion. */
  lemma SoftRejectionWithExistingTarget(env: Env, w: World, image: Image)
    requires env.enabled && image.mimetype in SupportedMimetypes
    requires var target := env.createTarget(image, TargetFormat);
             EncoderReached(env, w, image.path, target.path)
             && env.encode(image.path, target.path) == Rejected && target.path in w.files
    ensures var target := env.createTarget(image, TargetFormat);
            var s := RewrittenSrcSet(env, Encode(env, w, image.path, target.path), image.srcSet);
            ConvertImage(env, w, image)
              == if s.result.Ok? then Step(Ok(target.(srcSet := s.result.value)), s.world)
                 else Step(Err(s.result.error), s.world)
  {
  }

  /** The allow-list is applied to the image given to `convertImage` only: an element of its
      srcset goes to the encoder on the same conditions as `convert` alone sets, whatever the
      mimetype of the image its URL resolves to (a GIF named in the srcset of a JPEG is
      handed to the encoder, which may still reject it). */
  lemma SrcSetEntriesSkipMimetypeCheck(env: Env, w: World, element: string)
    ensures var source := env.createFromUrl(ParseEntry(element).url);
            var target := env.createTarget(source, TargetFormat);
            var s := ConvertEntry(env, w, element);
            s.world == (if EncoderReached(env, w, source.path, target.path)
                        then Encode(env, w, source.path, target.path) else w)
            && (EncoderReached(env, w, source.path, target.path) ==>
                  (source.path, target.path) in s.world.encoded)
  {
  }
}
