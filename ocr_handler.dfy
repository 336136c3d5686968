/** The `POST /ocr` handler (`read_image`): URL-decode the posted string,
    repair its base64 padding, base64-decode it, hand the bytes to the
    recognition model, and map every failure to HTTP status 400.

    The three library calls the handler makes are not modelled; they are
    supplied as a `Services` value, so every property below holds for every
    behaviour those calls might have. */
module OcrHandler {
  import opened Padding

  type Bytes = seq<bv8>

  /** Outcome of a foreign call: it returned a value or raised an exception
      (whose message is not modelled). */
  datatype Call<T> = Returned(value: T) | Raised

  /** The foreign calls of the handler. */
  datatype Services = Services(
    unquote: string -> string,         // urllib.parse.unquote; total on str
    b64decode: string -> Call<Bytes>,  // base64.b64decode; may raise
    classify: Bytes -> Call<string>)   // ocr.classification; may raise

  /** Which step failed. The text of the HTTP error's `detail` is not modelled. */
  datatype Failure = DecodeFailed | NoResult | RecognitionRaised

  /** Exceptions that can leave the body of the handler's outer `try`. */
  datatype Exception =
    | HttpException(status: int, failure: Failure)  // raised by the handler itself
    | ForeignError(failure: Failure)                // raised inside a library call

  /** How the body of the outer `try` ends: a `return` or a `raise`. */
  datatype Flow = Return(text: string) | Throw(exc: Exception)

  /** What the client receives: 200 with `{"result": ...}`, or an HTTP error. */
  datatype Response = Ok(result: string) | Err(status: int, failure: Failure)

  /** HTTP 400 Bad Request, the only error status the handler produces. */
  const BadRequest: int := 400

  /** The string handed to the base64 decoder: the URL-decoded payload with
      its padding repaired, so a correct padding of that payload. */
  function DecoderInput(svc: Services, image: string): (p: string)
    ensures IsPaddingOf(svc.unquote(image), p)
  {
    FixPadding(svc.unquote(image))
  }

  /** The body of the outer `try`: decode (a decoder failure becomes a 400
      `HttpException`), classify (an exception from the model propagates),
      reject an empty result with a 400 `HttpException`, else return the text. */
  function TryBody(svc: Services, image: string): (f: Flow)
    ensures f.Return? <==>
      && svc.b64decode(DecoderInput(svc, image)).Returned?
      && svc.classify(svc.b64decode(DecoderInput(svc, image)).value).Returned?
      && svc.classify(svc.b64decode(DecoderInput(svc, image)).value).value != ""
    ensures f.Return? ==>
      && svc.classify(svc.b64decode(DecoderInput(svc, image)).value) == Returned(f.text)
      && f.text != ""
    ensures svc.b64decode(DecoderInput(svc, image)).Raised? ==>
      f == Throw(HttpException(BadRequest, DecodeFailed))
    ensures svc.b64decode(DecoderInput(svc, image)).Returned? ==>
      && (svc.classify(svc.b64decode(DecoderInput(svc, image)).value).Raised? ==>
            f == Throw(ForeignError(RecognitionRaised)))
      && (svc.classify(svc.b64decode(DecoderInput(svc, image)).value) == Returned("") ==>
            f == Throw(HttpException(BadRequest, NoResult)))
    ensures f.Throw? && f.exc.HttpException? ==> f.exc.status == BadRequest
  {
    var decoded := svc.b64decode(DecoderInput(svc, image));
    match decoded
    case Raised => Throw(HttpException(BadRequest, DecodeFailed))
    case Returned(imageBytes) =>
      match svc.classify(imageBytes)
      case Raised => Throw(ForeignError(RecognitionRaised))
      case Returned(result) =>
        if result == "" then Throw(HttpException(BadRequest, NoResult))
        else Return(result)
  }

  /** `read_image`: the outer `except` turns every exception of the body,
      whatever its own status, into a 400 error. The response is a success
      exactly when decoding succeeds and the model returns non-empty text, and
      the success carries that text unchanged. */
  function ReadImage(svc: Services, image: string): (r: Response)
    ensures r.Err? ==> r.status == BadRequest
    ensures r.Ok? <==>
      && svc.b64decode(DecoderInput(svc, image)).Returned?
      && svc.classify(svc.b64decode(DecoderInput(svc, image)).value).Returned?
      && svc.classify(svc.b64decode(DecoderInput(svc, image)).value).value != ""
    ensures r.Ok? ==>
      && r.result != ""
      && r.result == svc.classify(svc.b64decode(DecoderInput(svc, image)).value).value
  {
    match TryBody(svc, image)
    case Return(text) => Ok(text)
    case Throw(e) => Err(BadRequest, e.failure)
  }

  /** A decoder failure yields 400 whatever the model would have done. */
  lemma DecodeFailureIsBadRequest(svc: Services, image: string)
    requires svc.b64decode(DecoderInput(svc, image)).Raised?
    ensures ReadImage(svc, image) == Err(BadRequest, DecodeFailed)
  {
  }

  /** An exception from the model and an empty recognition result both yield 400. */
  lemma RecognitionFailureIsBadRequest(svc: Services, image: string)
    requires svc.b64decode(DecoderInput(svc, image)).Returned?
    requires svc.classify(svc.b64decode(DecoderInput(svc, image)).value) in {Raised, Returned("")}
    ensures ReadImage(svc, image).Err? && ReadImage(svc, image).status == BadRequest
    ensures ReadImage(svc, image).failure ==
      if svc.classify(svc.b64decode(DecoderInput(svc, image)).value).Raised?
      then RecognitionRaised else NoResult
  {
  }

  /** Ordering, part 1: the URL decoder sees only the posted string. */
  lemma UnquoteSeesOnlyThePayload(svc: Services, unquote2: string -> string, image: string)
    requires unquote2(image) == svc.unquote(image)
    ensures ReadImage(svc.(unquote := unquote2), image) == ReadImage(svc, image)
  {
    assert DecoderInput(svc.(unquote := unquote2), image) == DecoderInput(svc, image);
  }

  /** Ordering, part 2: the base64 decoder sees only the padded, URL-decoded
      string; any decoder that agrees with it there gives the same response. */
  lemma DecoderSeesOnlyPaddedUnquoted(svc: Services, decode2: string -> Call<Bytes>, image: string)
    requires decode2(FixPadding(svc.unquote(image))) == svc.b64decode(FixPadding(svc.unquote(image)))
    ensures ReadImage(svc.(b64decode := decode2), image) == ReadImage(svc, image)
  {
    assert DecoderInput(svc.(b64decode := decode2), image) == DecoderInput(svc, image);
  }

  /** Ordering, part 3: the model sees only the decoded bytes, and is not
      consulted at all when decoding fails. */
  lemma ClassifierSeesOnlyDecodedBytes(svc: Services, classify2: Bytes -> Call<string>, image: string)
    requires svc.b64decode(DecoderInput(svc, image)).Returned? ==>
      classify2(svc.b64decode(DecoderInput(svc, image)).value)
        == svc.classify(svc.b64decode(DecoderInput(svc, image)).value)
    ensures ReadImage(svc.(classify := classify2), image) == ReadImage(svc, image)
  {
    assert DecoderInput(svc.(classify := classify2), image) == DecoderInput(svc, image);
  }

  /** A URL-decoded payload that is already aligned reaches the decoder unchanged. */
  lemma AlignedPayloadUnchanged(svc: Services, image: string)
    requires |svc.unquote(image)| % 4 == 0
    ensures DecoderInput(svc, image) == svc.unquote(image)
  {
    FixPaddingFixedPoint(svc.unquote(image));
  }

  /** A sender that dropped up to three trailing `=` from a correctly padded
      payload (with nothing percent-encoded, so URL decoding leaves it alone)
      has the full payload delivered to the decoder. */
  lemma DroppedPaddingReachesDecoderRestored(svc: Services, full: string, k: nat)
    requires |full| % 4 == 0 && k <= 3 && k <= |full|
    requires forall i :: |full| - k <= i < |full| ==> full[i] == PadChar
    requires svc.unquote(full[..|full| - k]) == full[..|full| - k]
    ensures DecoderInput(svc, full[..|full| - k]) == full
  {
    RestoresDroppedPadding(full, k);
  }
}
