/**
 * `PDFProcessor` in src/pdf_processor.py: the guards before a PDF is rendered,
 * and the choice of image format and MIME type for each rendered page. The
 * renderer and the image encoder are foreign libraries; they appear here as a
 * function parameter and as the parameters of one `save` call.
 */
module PdfProcessor {
  import opened Wrappers

  /** A rendered page, as far as the pipeline looks at it: its PIL mode and an
      opaque identity. */
  datatype Image = Image(mode: string, id: nat)

  /** Modes that are saved losslessly. */
  const PngModes: set<string> := {"RGBA", "LA", "P"}

  /** `_get_image_format(image)` (src/pdf_processor.py:69-71). */
  function ImageFormat(image: Image): (f: string)
    ensures f == "PNG" <==> image.mode in PngModes
    ensures f != "PNG" ==> f == "JPEG"
  {
    if image.mode in PngModes then "PNG" else "JPEG"
  }

  /** `_get_mime_type(image_format)` (src/pdf_processor.py:73-75). */
  function MimeType(format: string): (m: string)
    ensures m == "image/png" <==> format == "PNG"
    ensures m != "image/png" ==> m == "image/jpeg"
  {
    if format == "PNG" then "image/png" else "image/jpeg"
  }

  /** What `image.save(buffer, ...)` is asked to write: the page, the format and, for
      JPEG, the quality setting. The bytes and their base64 text are not modelled. */
  datatype Encoding = Encoding(image: Image, format: string, quality: Option<nat>)

  /** `image_to_base64(image)` (src/pdf_processor.py:77-91): the page is saved as PNG,
      or as JPEG at quality 85, and reported with the MIME type of the very format
      it was saved in. */
  function ImageToBase64(image: Image): (r: (Encoding, string))
    ensures r.0.image == image
    ensures r.1 == MimeType(r.0.format)
    ensures r.0.format == "PNG" <==> image.mode in PngModes
    ensures r.0.format == "PNG" ==> r.0.quality == None && r.1 == "image/png"
    ensures r.0.format != "PNG" ==> r.0.format == "JPEG" && r.0.quality == Some(85) && r.1 == "image/jpeg"
  {
    var format := ImageFormat(image);
    var encoding := if format == "PNG" then Encoding(image, format, None) else Encoding(image, format, Some(85));
    (encoding, MimeType(format))
  }

  /** The state of the PDF path when it is opened. */
  datatype PdfFile = PdfFile(present: bool, readable: bool, size: nat)

  /** What `convert_from_path` does when called: pages, or an exception of any
      kind (its message only selects what is printed). */
  datatype Conversion = Pages(images: seq<Image>) | ConvertFailed(message: string)

  /** The pages `pdf_to_images` returns: the converter's pages when the guards
      pass and it succeeds, none otherwise. */
  function Rendered(file: PdfFile, maxPages: int, convert: int -> Conversion): seq<Image> {
    if file.present && file.readable && file.size > 0 && convert(maxPages).Pages? then convert(maxPages).images
    else []
  }

  /** `pdf_to_images(pdf_path, max_pages)` (src/pdf_processor.py:24-67). A missing,
      unreadable or empty file gives no pages without calling the converter; the
      converter is called with `last_page = max_pages` otherwise, and every exception
      it raises gives no pages rather than propagating. */
  method PdfToImages(file: PdfFile, maxPages: int, convert: int -> Conversion)
    returns (images: seq<Image>, converted: bool)
    ensures converted <==> file.present && file.readable && file.size > 0
    ensures !converted ==> images == []
    ensures converted && convert(maxPages).Pages? ==> images == convert(maxPages).images
    ensures converted && convert(maxPages).ConvertFailed? ==> images == []
    ensures images == Rendered(file, maxPages, convert)
  {
    converted := false;
    if !file.present {
      return [], false;
    }
    if !file.readable {
      return [], false;
    }
    if file.size == 0 {
      return [], false;
    }
    converted := true;
    var outcome := convert(maxPages);
    match outcome
    case Pages(pages) =>
      images := pages;
    case ConvertFailed(_) =>
      images := [];
  }
}
