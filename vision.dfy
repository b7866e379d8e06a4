/**
 * The OCR collaborator and the ways a document pass can fail. The crop is JPEG-encoded and sent
 * to the text-detection service; `ocr` stands for encoding plus the remote call and yields the
 * service's ordered annotation texts, or Unavailable when the call raises.
 */
module Vision {
  import opened Wrappers
  import opened Pixels

  datatype Reply = Annotations(texts: seq<string>) | Unavailable

  /** Why a whole document is rejected: the image could not be decoded, a crop had no pixels
      (cv2.imencode and cv2.cvtColor raise on an empty array), or the OCR call raised. */
  datatype Failure = Undecodable | EmptyRegion | OcrFailed

  /** texts[0].description if texts else "". */
  function FirstText(texts: seq<string>): string {
    if texts == [] then "" else texts[0]
  }

  /** Encode the crop, call the service, take the first annotation's text. */
  function Recognise(crop: Image, ocr: Image -> Reply): Result<string, Failure> {
    if IsEmpty(crop) then Failure(EmptyRegion)
    else match ocr(crop)
      case Unavailable => Failure(OcrFailed)
      case Annotations(texts) => Success(FirstText(texts))
  }

  /** OCR can read the box: its crop has pixels and the service answers. */
  predicate Legible(img: Image, rect: Rect, ocr: Image -> Reply) {
    !IsEmpty(Crop(img, rect)) && ocr(Crop(img, rect)).Annotations?
  }

  /** The text OCR yields for a reply: the first annotation, "" when there is none (or no answer). */
  function TextOf(reply: Reply): string {
    if reply.Annotations? then FirstText(reply.texts) else ""
  }
}
