/** The extension filters: which paths are Markdown documents, which are
    images, and the content type an image is served with. */
module Filters {
  import opened Wrappers
  import opened Paths

  /** `is_markdown_file`: the extension is "md" or "markdown", ignoring ASCII case. */
  predicate IsMarkdownFile(p: Path): (b: bool)
    ensures b ==> Extension(p).Some?
  {
    match Extension(p)
    case None => false
    case Some(ext) => EqIgnoreAsciiCase(ext, "md") || EqIgnoreAsciiCase(ext, "markdown")
  }

  /** The extension as `is_image_file` and `guess_image_content_type` see it:
      lower-cased, and "" when there is none. */
  function LoweredExtension(p: Path): string {
    match Extension(p)
    case None => ""
    case Some(ext) => AsciiLowercase(ext)
  }

  /** `is_image_file`. */
  predicate IsImageFile(p: Path): (b: bool)
    ensures b ==> Extension(p).Some?
  {
    LoweredExtension(p) in ["png", "jpg", "jpeg", "gif", "svg", "webp", "bmp", "ico"]
  }

  const OctetStream := "application/octet-stream"

  /** `guess_image_content_type`. */
  function GuessImageContentType(p: Path): (r: string)
    ensures r == OctetStream <==> !IsImageFile(p)
    ensures r != OctetStream ==> |r| > 6 && r[..6] == "image/"
  {
    var ext := LoweredExtension(p);
    if ext == "png" then "image/png"
    else if ext == "jpg" || ext == "jpeg" then "image/jpeg"
    else if ext == "gif" then "image/gif"
    else if ext == "svg" then "image/svg+xml"
    else if ext == "webp" then "image/webp"
    else if ext == "bmp" then "image/bmp"
    else if ext == "ico" then "image/x-icon"
    else OctetStream
  }

  /** A Markdown path has an extension, so a file name: the server never
      routes a path without one to the registry. */
  lemma MarkdownHasFileName(p: Path)
    requires IsMarkdownFile(p)
    ensures FileName(p).Some?
  {
  }

  /** `is_markdown_file` accepts a file name stem "." ext exactly when ext is
      one of the two Markdown extensions in some mix of cases. */
  lemma MarkdownByExtension(p: Path, stem: string, ext: string)
    requires FileName(p) == Some(stem + "." + ext)
    requires stem != [] && '.' !in ext
    ensures IsMarkdownFile(p) <==> AsciiLowercase(ext) == "md" || AsciiLowercase(ext) == "markdown"
  {
    ExtensionAfterLastDot(p, stem, ext);
  }

  /** `is_image_file` accepts a file name stem "." ext exactly when ext,
      lower-cased, is one of the eight image extensions, and then the
      content type is the one that extension names ("jpg" and "jpeg" share
      image/jpeg). */
  lemma ImageByExtension(p: Path, stem: string, ext: string)
    requires FileName(p) == Some(stem + "." + ext)
    requires stem != [] && '.' !in ext
    ensures IsImageFile(p) <==> AsciiLowercase(ext) in ["png", "jpg", "jpeg", "gif", "svg", "webp", "bmp", "ico"]
    ensures AsciiLowercase(ext) == "png" ==> GuessImageContentType(p) == "image/png"
    ensures AsciiLowercase(ext) == "jpg" || AsciiLowercase(ext) == "jpeg" ==> GuessImageContentType(p) == "image/jpeg"
    ensures AsciiLowercase(ext) == "gif" ==> GuessImageContentType(p) == "image/gif"
    ensures AsciiLowercase(ext) == "svg" ==> GuessImageContentType(p) == "image/svg+xml"
    ensures AsciiLowercase(ext) == "webp" ==> GuessImageContentType(p) == "image/webp"
    ensures AsciiLowercase(ext) == "bmp" ==> GuessImageContentType(p) == "image/bmp"
    ensures AsciiLowercase(ext) == "ico" ==> GuessImageContentType(p) == "image/x-icon"
  {
    ExtensionAfterLastDot(p, stem, ext);
  }

  /** A file name without an inner dot ("README", "test", ".md") is neither
      a Markdown document nor an image. */
  lemma NoExtensionNoMatch(p: Path, name: string)
    requires FileName(p) == Some(name)
    requires forall i :: 0 < i < |name| ==> name[i] != '.'
    ensures !IsMarkdownFile(p) && !IsImageFile(p)
    ensures GuessImageContentType(p) == OctetStream
  {
    NoExtensionWithoutInnerDot(p, name);
  }
}
