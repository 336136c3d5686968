# OCR request normalisation, modelled in Dafny

The service exposes `POST /ocr`, which takes a JSON body `{"image": <string>}`
holding a base64-encoded image, possibly URL-encoded and possibly with its
trailing `=` padding missing. The handler `read_image` URL-decodes the string,
repairs its padding with `fix_base64_padding`, base64-decodes it, passes the
bytes to the `ddddocr` recognition model and returns `{"result": <text>}`.
Every failure becomes HTTP 400.

The project has two modules:

- `Padding` (`padding.dfy`) models `fix_base64_padding`. The padding rule is
  that of section 4 of RFC 4648: append `=` until the length is a multiple of 4.
  The module also gives an independent description of a correct repair
  (`IsPaddingOf`) and proves that the repair is exactly that string.
- `OcrHandler` (`ocr_handler.dfy`) models `read_image` as functions over a
  `Services` value. That value holds the three library calls the handler makes:
  `urllib.parse.unquote`, `base64.b64decode` and `ocr.classification`. The last
  two may raise (`Call.Raised`). Every lemma holds for every behaviour of these
  calls. The outer `try` body (lines 62-85) is `TryBody`. It ends in a return or
  in one of two exceptions: one the handler raises itself (`HttpException`) or
  one escaping from a library call (`ForeignError`). The outer `except`
  (lines 87-89) is `ReadImage`, which maps every exception to status 400.

Strings are `seq<char>` with Dafny's Unicode-scalar `char`. Python's `len` on
`str` counts code points, so the length arithmetic is the same for every
string made of Unicode scalar values.

The comment at `app/ocr_function.py:63` speaks of handling a base64 prefix, but
the code never strips one. The model follows the code: a `data:...;base64,`
prefix reaches the decoder as it was posted. A sibling file, `app/备份.py`,
strips the prefix and answers 500 for recognition errors. That file is an
earlier copy of the handler and is not modelled.

## Model

| member | source | states |
|---|---|---|
| `Padding.PadRun` | app/ocr_function.py:53 | `"=" * k` has length `k` and consists only of `=` |
| `Padding.FixPadding` | app/ocr_function.py:50-54 | the result is a correct padding of the input (`IsPaddingOf`): its length is a multiple of 4; at most 3 characters are added; the input is a prefix of the result; every added character is `=` |
| `Padding.FixPaddingIsThePadding` | app/ocr_function.py:50-54 | `t` is a correct repair of `s` (prefix kept, fewer than 4 `=` added, aligned to 4) if and only if `t` equals the function's result, so that result is the only correct repair |
| `Padding.ShortestAlignedLength` | app/ocr_function.py:51-53 | the result's length is the smallest multiple of 4 that is at least the input's length |
| `Padding.FixPaddingFixedPoint` | app/ocr_function.py:51-54 | the input comes back unchanged if and only if its length is already a multiple of 4 |
| `Padding.FixPaddingIdempotent` | app/ocr_function.py:50-54 | repairing twice gives the same string as repairing once |
| `Padding.RestoresDroppedPadding` | app/ocr_function.py:49-54 | if a correctly padded string loses up to three trailing `=`, the repair gives back the original string |
| `OcrHandler.DecoderInput` | app/ocr_function.py:68-71 | the string given to the decoder is a correct padding of the URL-decoded payload: that payload plus only `=`, fewer than 4 of them, with a length that is a multiple of 4 |
| `OcrHandler.TryBody` | app/ocr_function.py:62-85 | the body returns if and only if decoding succeeded and the model returned non-empty text, and it returns that text; a decoder exception raises a 400 `HTTPException` for a decode failure; a model exception propagates as a foreign error; an empty result raises a 400 `HTTPException` for no result; every exception the handler raises itself carries status 400 |
| `OcrHandler.ReadImage` | app/ocr_function.py:57-89 | every error response has status 400; the response succeeds if and only if decoding succeeds and the model returns non-empty text; a success carries the model's text unchanged, and that text is non-empty |
| `OcrHandler.DecodeFailureIsBadRequest` | app/ocr_function.py:74-89 | a decoder exception gives status 400 with the decode-failure kind, whatever the model would do |
| `OcrHandler.RecognitionFailureIsBadRequest` | app/ocr_function.py:80-89 | a model exception or an empty model result gives status 400, and the failure kind tells the two cases apart |
| `OcrHandler.UnquoteSeesOnlyThePayload` | app/ocr_function.py:64-68 | URL decoding is applied to the posted string and nothing else: two URL decoders that agree on it give the same response |
| `OcrHandler.DecoderSeesOnlyPaddedUnquoted` | app/ocr_function.py:68-75 | the decoder is called on exactly `fix_base64_padding(unquote(image))`: two decoders that agree on that string give the same response |
| `OcrHandler.ClassifierSeesOnlyDecodedBytes` | app/ocr_function.py:75-80 | the model is called only on the decoded bytes, and never when decoding failed: two models that agree on those bytes give the same response |
| `OcrHandler.AlignedPayloadUnchanged` | app/ocr_function.py:68-71 | a URL-decoded payload whose length is already a multiple of 4 reaches the decoder unchanged |
| `OcrHandler.DroppedPaddingReachesDecoderRestored` | app/ocr_function.py:68-75 | if a payload without percent escapes lost up to three trailing `=`, the decoder still receives the fully padded string |

## Left out

- `urllib.parse.unquote`, `base64.b64decode` and `ocr.classification` are library calls. They are parameters of the model, not specifications. Base64 decoding from RFC 4648 is not specified again. For a `str` argument, Python's default decoder raises on any non-ASCII character, and silently drops ASCII characters outside the alphabet.
- `ddddocr.DdddOcr` construction at startup (lines 14-25) loads an ONNX model from disk. A load failure aborts the process, which is outside the handler.
- The FastAPI app, the Pydantic `ImageRequest` model, uvicorn startup and the `PORT` environment variable (lines 11, 29-30, 92-103) are server plumbing.
- The GET endpoints `/` and `/ocr` (lines 33-46) return constant dictionaries.
- The `print` logging (lines 22, 24, 65, 79, 81, 88) is not modelled.
- OcrHandler.ReadImage: assumes the prints at lines 65, 79 and 81 do not raise. They sit inside the outer `try`, so in the source an error while writing (a `UnicodeEncodeError` on a stdout that is not UTF-8, an `OSError` on a closed stdout) becomes a 400 even when decoding and recognition succeeded; the "succeeds if and only if" of `ReadImage` does not cover that case.
- The text of the `detail` string is not modelled. It comes from library formatting, and line 89 re-wraps it with `str(e)`. The model records only which step failed (`Failure`).
- The handler is `async`, but it never awaits anything. Concurrency is irrelevant to its result, so the model is a pure function.
- A payload holding a lone surrogate (the JSON `"\ud800"` decodes to one) has no model input, because Dafny's `char` excludes surrogates; in the source such a payload ends in a 400.
- Exceptions that none of the three calls could raise are not modelled. Examples are a non-string `image`, which Pydantic rejects before the handler runs, and memory exhaustion.
