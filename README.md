# Yireo Webp2 — the WebP conversion gate

This project models `Yireo\Webp2\Convertor\Convertor`, the class that decides whether a
Magento image gets a WebP sibling and writes it if so. It has three operations:

- **`convertImage(image)`** is the public entry point. It checks the feature flag first and
  then the mimetype allow-list (`image/jpeg`, `image/jpg`, `image/png`). Next it derives the
  WebP target image and converts the main image. If the encoder soft-rejected the image and
  no target exists, it throws "does not exist after conversion". Finally it replaces the
  target's srcset with the rewritten srcset of the source image.
- **`convert(source, target)`** is the guarded encoder call. A missing source throws. A target
  that the staleness check calls fresh is served without touching the encoder, even in
  read-only mode. A stale target with the module disabled, or image creation switched off,
  throws "not enabled". Otherwise the encoder runs. A soft rejection (invalid image type or
  input) returns `false`. A hard failure (conversion failed, invalid convertor) is rethrown
  as `"<target>: <message>"`. A normal return gives `true`.
- **`convertSrcSet(image)`** splits the srcset on `,`. For each element it trims it and
  splits it on spaces, then converts the image the first token resolves to, and appends
  `"<webp url> <descriptor>"`. Every element but the first is preceded by `", "`.

The collaborators are inputs, bundled in the `Env` datatype:
- the configuration is two booleans;
- `needsConversion` and the encoder are oracles; `needsConversion` sees the whole `World`;
- the two image factories are deterministic functions.

The filesystem is a `World` value. It holds the set of existing paths and the trace of
encoder calls made so far. Every operation takes a `World` and returns the `World` it
leaves behind, so a target written by one conversion is visible to the next check.

The modules are:
- `PhpStrings` (`php_strings.dfy`): PHP's `explode`, `implode`, `trim` and string
  truthiness.
- `Convertor` (`convertor.dfy`): the three operations and the facts each call guarantees.
  `convertImage` and `convert` are functions. `convertSrcSet` is a method with the PHP
  loop and its accumulator. It is proved equal to the function `RewrittenSrcSet`.
- `ConvertorProperties` (`convertor_properties.dfy`): properties that span several calls,
  and the exact shape of a rewritten srcset.

The mimetype allow-list is applied only to the image passed to `convertImage`
(Convertor/Convertor.php:81-83). The srcset elements are resolved and converted at lines
139-141, and nothing checks their mimetype there. So a GIF named in the srcset of a JPEG
is handed to the encoder like any JPEG; whether the encoder accepts it is up to the
encoder. `ConvertorProperties.SrcSetEntriesSkipMimetypeCheck` states this.

## Model

| member | source | states |
|---|---|---|
| `Convertor.Convert` | Convertor/Convertor.php:105-128 | defined by its body, the guard order of `convert`; its contract says at most one encoder call is added and no file is removed; its guards and outcomes are stated by the `Convert…` lemmas below |
| `Convertor.ConvertChecksSourceFirst` | Convertor/Convertor.php:107-109 | a missing source throws "source does not exist" before the staleness check or either flag is consulted, and nothing is written |
| `Convertor.ConvertServesFreshTarget` | Convertor/Convertor.php:111-113 | a target the staleness check calls fresh gives `true` without the encoder, whatever the two flags say |
| `Convertor.ConvertNotEnabled` | Convertor/Convertor.php:115-117 | "not enabled" is thrown if and only if the source exists, a conversion is needed, and either flag is off |
| `Convertor.ConvertWorld` | Convertor/Convertor.php:105-128 | the encoder is called once, on this pair, exactly when every guard passes; otherwise nothing changes on disk |
| `Convertor.ConvertFalseIsSoftRejection` | Convertor/Convertor.php:119-122 | `false` is returned if and only if the encoder was reached and soft-rejected the image |
| `Convertor.ConvertHardFailure` | Convertor/Convertor.php:123-125 | a hard failure is rethrown if and only if the encoder failed hard; the message is the target path, ": " and the encoder's message |
| `Convertor.ConvertUncaught` | Convertor/Convertor.php:119-125 | an encoder exception that neither catch clause names leaves `convert` unchanged, after the encoder call |
| `Convertor.ConvertCompleted` | Convertor/Convertor.php:120-127 | a completed encoding returns `true` and leaves the target on disk |
| `Convertor.ConvertToTarget` | Convertor/Convertor.php:88-92 | "does not exist after conversion" is thrown if and only if the encoder soft-rejected and the target was not on disk before; an exception from `convert` is rethrown as it is, whatever is on disk; success means the target is on disk or `convert` returned `true` |
| `Convertor.ParseEntry` | Convertor/Convertor.php:135-137 | defined by its body: the first token of the trimmed element and the second if there is one; its properties are stated by `ParseEntryShape` and `ParseUrlAndDescriptor` |
| `Convertor.ParseEntryShape` | Convertor/Convertor.php:135-137 | the URL and the descriptor are space-free; the descriptor is absent exactly when the trimmed element has no space; the URL, a space and the whole second token start the trimmed element, which ends there or continues with another space |
| `Convertor.RenderDescriptor` | Convertor/Convertor.php:147 | `$descriptor ?: ''` prints nothing or the descriptor itself, and the descriptor exactly when it is truthy |
| `Convertor.RenderEntry` | Convertor/Convertor.php:147 | a rendered element always holds the space after its URL, so it is never falsy |
| `Convertor.ConvertEntry` | Convertor/Convertor.php:135-145 | one loop round that goes through yields the element's rendering; it only adds files and encoder calls |
| `Convertor.Rounds` | Convertor/Convertor.php:134-148 | a loop that goes through yields one value per element |
| `Convertor.RewriteEntries` | Convertor/Convertor.php:134-148 | the srcset loop is `Rounds` with `ConvertEntry` as its body; one rendering per element when it goes through; see `RewriteEntriesRendered` and `FirstFailureEndsLoop` |
| `Convertor.RewrittenSrcSet` | Convertor/Convertor.php:130-151 | what `convertSrcSet` returns or throws; it only adds files and encoder calls; its output is stated by `SrcSetOutput` |
| `Convertor.RoundsGrow` | Convertor/Convertor.php:134-148 | if each round only adds files and encoder calls, so does the whole loop |
| `Convertor.RewriteEntriesGrow` | Convertor/Convertor.php:134-148 | the srcset loop never removes a file or an earlier encoder call |
| `Convertor.ConvertImage` | Convertor/Convertor.php:75-97 | the flag is checked before the mimetype allow-list, and neither failure touches the disk; success returns the derived target with only its srcset replaced; files and encoder calls are only ever added |
| `Convertor.ConvertSrcSet` | Convertor/Convertor.php:130-151 | the PHP loop, with its truthiness-tested accumulator, returns or throws exactly what `RewrittenSrcSet` does and leaves the same world |
| `Convertor.AccumulateEntry` | Convertor/Convertor.php:147 | appending to the accumulator with `", "` only when it is truthy is joining the renderings with `", "` |
| `Convertor.RoundsSnoc` | Convertor/Convertor.php:134-148 | one more element runs one more round in the world the earlier rounds left, unless they already threw |
| `Convertor.RewriteGoesOn` | Convertor/Convertor.php:134-147 | a round that goes through appends its rendering to the result |
| `Convertor.RewriteFails` | Convertor/Convertor.php:141-145 | a round that throws ends `convertSrcSet` with its exception and the world it left |
| `Convertor.RewriteRound` | Convertor/Convertor.php:135-147 | one round spelled out as the PHP statements run it: parse, resolve, derive the target, `convert`, the existence check, render |
| `Convertor.RoundsStopAtError` | Convertor/Convertor.php:134-148 | once a prefix of the elements has thrown, the later elements are never looked at |
| `Convertor.RewriteStopsAtError` | Convertor/Convertor.php:141-145 | the same, for the srcset loop |
| `ConvertorProperties.ConvertTwiceEncodesAtMostOnce` | Convertor/Convertor.php:111-113 | a second `convert` after a `true` returns `true` without a second encoding and leaves the world as it was, provided the staleness check calls the target fresh in the world the first call left |
| `ConvertorProperties.RewriteEntriesReadOnly` | Convertor/Convertor.php:134-148 | with image creation off, the srcset loop writes nothing and never calls the encoder |
| `ConvertorProperties.ReadOnlyModeWritesNothing` | Convertor/Convertor.php:75-97 | read-only mode: `convertImage` leaves disk and encoder untouched, whatever it returns |
| `ConvertorProperties.RewriteEntriesRendered` | Convertor/Convertor.php:134-148 | a srcset loop that goes through renders every element, in order |
| `ConvertorProperties.FirstFailure` | Convertor/Convertor.php:134-148 | a loop that throws has a first failing element: the rounds before it go through and its own round throws |
| `ConvertorProperties.FirstFailureEndsLoop` | Convertor/Convertor.php:141-145 | the loop's exception and final world are those of its first failing element |
| `ConvertorProperties.SrcSetOutput` | Convertor/Convertor.php:130-151 | the returned srcset is the renderings of the comma-separated elements joined by `", "` |
| `ConvertorProperties.ParseUrlAndDescriptor` | Convertor/Convertor.php:135-137 | `"<url> <descriptor>"` is read as that URL and that descriptor |
| `ConvertorProperties.BareUrlKeepsTrailingSpace` | Convertor/Convertor.php:137-147 | an element without a descriptor is written with a trailing space after its URL |
| `ConvertorProperties.ZeroDescriptorBlanked` | Convertor/Convertor.php:147 | the descriptor `"0"` is falsy and is written as nothing |
| `ConvertorProperties.ExtraTokensDropped` | Convertor/Convertor.php:135-137 | tokens after the second are dropped |
| `ConvertorProperties.LeadingSpaceIgnored` | Convertor/Convertor.php:135 | a space in front of an element, such as the one after each comma, does not change its rendering |
| `ConvertorProperties.TwoElementSrcSet` | Convertor/Convertor.php:132-150 | a two-element srcset becomes the two renderings joined by `", "` |
| `ConvertorProperties.UrlWithDescriptor` | Convertor/Convertor.php:135-147 | `"<url> <descriptor>"` with a truthy descriptor becomes the WebP URL, a space and the descriptor |
| `ConvertorProperties.TwoEntrySrcSet` | Convertor/Convertor.php:130-151 | a srcset such as `"a.jpg 1x, b.jpg 2x"` becomes the two WebP URLs with their descriptors, in the same layout |
| `ConvertorProperties.EmptySrcSetIsOneElement` | Convertor/Convertor.php:132-134 | an empty srcset is not skipped: it is one empty element, converted like any other |
| `ConvertorProperties.ConvertImageResult` | Convertor/Convertor.php:94-96 | a successful `convertImage` returns the derived target whose srcset is the joined renderings of the source image's srcset |
| `ConvertorProperties.MainImageErrorIsRethrown` | Convertor/Convertor.php:87-92 | an exception from `convert` on the main image is what `convertImage` throws, in the world `convert` left; the srcset loop never runs |
| `ConvertorProperties.ConvertImageGoesOnToSrcSet` | Convertor/Convertor.php:88-96 | once the main image passes `convert` and the existence check, `convertImage` returns the derived target carrying the rewritten srcset, or throws what the rewrite throws, in the world the rewrite leaves |
| `ConvertorProperties.SoftRejectionWithoutTarget` | Convertor/Convertor.php:88-92 | a soft rejection of the main image with no target on disk throws "does not exist after conversion" for the target path, after the encoder call |
| `ConvertorProperties.SoftRejectionWithExistingTarget` | Convertor/Convertor.php:88-94 | a soft rejection of the main image whose target is already on disk goes on to the srcset as after a completed conversion |
| `ConvertorProperties.SrcSetEntriesSkipMimetypeCheck` | Convertor/Convertor.php:139-141 | a srcset element reaches the encoder on the guards of `convert` alone; its mimetype is never checked |
| `PhpStrings.Explode` | Convertor/Convertor.php:132 | `explode` always yields at least one piece |
| `PhpStrings.Implode` | Convertor/Convertor.php:147 | defined by its body, `implode`; its properties are stated by `ImplodeExplode`, `ExplodeImplode` and `ImplodeSnoc` |
| `PhpStrings.ExplodeSeparatorFree` | Convertor/Convertor.php:135 | no piece of an `explode` holds the separator |
| `PhpStrings.ExplodeWithoutSeparator` | Convertor/Convertor.php:132 | a string without the separator explodes to itself alone |
| `PhpStrings.ImplodeExplode` | Convertor/Convertor.php:132 | joining the pieces with the separator gives the string back |
| `PhpStrings.ExplodeImplode` | Convertor/Convertor.php:132 | joining separator-free pieces and splitting again gives the pieces back |
| `PhpStrings.ExplodePrepend` | Convertor/Convertor.php:135 | a separator-free prefix is glued onto the first piece |
| `PhpStrings.ExplodeAt` | Convertor/Convertor.php:135 | splitting after a separator-free first piece yields that piece, then the pieces of the rest |
| `PhpStrings.Trim` | Convertor/Convertor.php:135 | defined by its body, `trim` as `rtrim` after `ltrim`; its properties are stated by `TrimInfix` and `TrimUntouched` |
| `PhpStrings.TrimLeftSuffix` | Convertor/Convertor.php:135 | the left half of `trim` keeps a suffix and drops only trimmable characters, stopping at the first one that is not |
| `PhpStrings.TrimRightPrefix` | Convertor/Convertor.php:135 | the right half of `trim` keeps a prefix and drops only trimmable characters, stopping at the last one that is not |
| `PhpStrings.TrimInfix` | Convertor/Convertor.php:135 | `trim` keeps an infix with only trimmable characters around it, and neither end of what it keeps is trimmable |
| `PhpStrings.TrimUntouched` | Convertor/Convertor.php:135 | a string with nothing to strip at either end is left as it is |
| `PhpStrings.Truthy` | Convertor/Convertor.php:147 | defined by its body: a PHP string is falsy exactly when it is "" or "0" |
| `PhpStrings.ImplodeSnoc` | Convertor/Convertor.php:147 | appending a piece to a non-empty join puts exactly one separator in front of it |

## Left out

- The encoder (`ConvertWrapper::convert`) is an oracle `encode(source, target)`. It returns
  one of four outcomes: completed, soft rejection, hard failure with a message, or any other
  exception, which propagates unchanged. Its image processing and the library it drives are
  not part of this model.
- `File::needsConversion` compares modification times. It is an oracle that sees the
  whole `World`: the files and the encoder calls made so far, which stand in for the
  timestamps. Clocks and timestamps themselves are not modelled.
- `File::fileExists` is membership in the `World`'s file set. Writes by anything other than
  a completed encoding are not modelled.
- The exceptions the filesystem collaborator itself can throw (`FileSystemException` from
  `File::fileExists` and `File::needsConversion`, declared by `convertImage`) are not
  modelled. Both are total functions of the `World` here.
- The configuration (`Config::enabled`, `Config::allowImageCreation`) is two booleans that
  stay fixed for one call.
- `ImageFactory::createFromUrl` and `TargetImageFactory::create` are deterministic
  functions. The exceptions they can throw themselves are not modelled.
- `setSrcSet` on the new target image is a record update. The model does not capture
  aliasing of the mutable `Image` object.
- The exception messages are identified by their kind and the values they embed, not by
  their full text. The one message that is built from the encoder's message,
  `"<target>: <message>"`, is modelled exactly.
- Concurrency (two requests converting the same image) is not modelled.
- `registration.php` only registers the module with Magento and is not part of this model.
- `Convertor.ConvertEntry`: its contract states the rendering and the growth of the world.
  How the round's outcome relates to `convert` is stated by `Convertor.RewriteRound`
  instead.
