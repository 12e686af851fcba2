# Image-to-PDF upload handler, modelled in Dafny

The system is a small web handler (`app.py`). It takes one or more uploaded
PNG/JPEG files and returns a single PDF with one page per image. Before an
image becomes a page:

- its transparency is flattened onto white, or it is converted to RGB;
- it is scaled to fit a 595 x 842 point page (ISO 216 A4 at 72 points per
  inch), keeping its aspect ratio.

The first bad upload rejects the whole request.

The model has five modules:

- `Outcomes` (`outcomes.dfy`): `Option` and `Result` values.
- `Filename` (`filename.dfy`): `allowed_file`, the extension filter. It is a
  pure predicate over the name: find the last `.`, take the text after it,
  lower-case it in ASCII and look it up in the allow-list. `HasAllowedSuffix`
  is a second definition, stated as an existential without any search. The
  lemma `AllowedFileIff` proves the two agree.
- `PageFit` (`page_fit.dfy`): the size arithmetic of `resize_to_a4`, done
  exactly with integers. `FlooredScaleAgrees` ties it to the source's formula
  w * s, h * s with s = min(595 / w, 842 / h), computed over the reals and
  rounded down. Other lemmas prove the bounds, "one side touches the page
  edge", aspect preservation up to rounding, idempotence and enlargement of
  small images. They also prove that a side is truncated to 0 exactly when
  842 w < h or 595 h < w. Pillow refuses to resize to such a size, so these
  images are rejected.
- `Normalize` (`normalize.dfy`): an abstract image record with a PIL mode
  tag, a "has `transparency` info" flag and a size. It models the branch
  between flattening onto a white RGB canvas and `convert("RGB")`, and the
  resize. The resize fails when a fitted side is 0.
- `Upload` (`upload.dfy`): the loop of `upload_file`, in two forms:
  - `UploadFile`, an imperative `method`. It walks the uploads, appends one
    page per accepted upload and returns at the first rejection. It is
    proved equal to `Respond`.
  - `Respond`, a functional statement of the same behaviour, built from
    `Step` (the verdict on one upload) and `FirstFailure` (the first rejected
    index).

  Lemmas about `Respond` prove that the first bad upload decides the
  response, that later uploads are ignored, that a document exists exactly
  when something was uploaded, every upload is accepted and the PDF writer
  succeeds, and that page j then comes from upload j.

Things the model replaces with parameters or abstract values:

- Decoding by PIL (`Image.open`), pasting with a mask, and conversion are
  abstracted as `Content`. A `Content` is either a decoded image record or
  `Broken(reason)`, the text of the exception PIL raised.
- A failure of the PDF writer (line 64) is the parameter `saveError`.
- A `None` entry in the upload list is `Upload.Missing`.

Facts about the code that the model makes explicit:

- Images smaller than the page are enlarged: the scale is never capped at 1.
  So, in exact arithmetic, every accepted page has one side equal to the
  page edge (`PageFit.FitToPage`, `PageFit.SmallImagesEnlarged`). The
  source's floating-point product can land below that; see "## Left out".
- A 300 x 900 image becomes 280 x 842, and a 4000 x 3000 image becomes
  595 x 446 (`PageFit.FitExamples`).
- Every mode other than RGBA, LA, or P with transparency info goes through
  `convert("RGB")`. A conversion that PIL refuses is a `Broken` content.
- A zero width or height raises Python's `ZeroDivisionError` at line 22. The
  handler reports it as "Error processing <name>: division by zero".
- A positive size whose fitted size has a zero side, such as 1 x 1000, makes
  Pillow's `resize` raise `ValueError("height and width must be > 0")`. The
  handler reports it as "Error processing <name>: height and width must be > 0".

## Model

| member | source | states |
|---|---|---|
| `Filename.Lower` | app.py:17 | ASCII lower-casing keeps the length and maps each character by `LowerChar` (A-Z shifted by 32, everything else unchanged) |
| `Filename.LastDot` | app.py:17 | finds no position exactly when the name has no `.`; a position it finds holds a `.` and has no `.` after it |
| `Filename.Extension` | app.py:17 | the text after the last `.` (`rsplit(".", 1)[1]`): none exactly when the name has no `.`; otherwise the suffix after some `.` that has no `.` after it |
| `Filename.AllowedFile` | app.py:16-17 | `allowed_file`; its own contract says an accepted name has at least four characters; its partner `Filename.AllowedFileIff` characterizes it in both directions |
| `Filename.AllowedFileIff` | app.py:13-17 | `allowed_file(n)` holds exactly when some `.` of n has no `.` after it and the lower-cased text after it is `png`, `jpg` or `jpeg` (both directions) |
| `Filename.NoDotRejected` | app.py:17 | a name with no `.` is rejected |
| `Filename.OnlyLastSuffixMatters` | app.py:17 | for any stem and any dot-free extension, `stem.ext` passes exactly when the lower-cased extension is allowed; dots in the stem are irrelevant |
| `Filename.AllowedAtLastDot` | app.py:17 | at a `.` with no `.` after it, the filter is exactly the allow-list test on the lower-cased text after that `.` |
| `Filename.UpperCaseAfterLastDotAccepted` | app.py:13-17 | `a.tar.PNG` is accepted |
| `Filename.BareExtensionAccepted` | app.py:13-17 | `.png` is accepted |
| `Filename.EmptyExtensionRejected` | app.py:17 | `file.` is rejected |
| `Filename.ForeignExtensionRejected` | app.py:13-17 | `x.gif` is rejected |
| `PageFit.FitToPage` | app.py:14-23 | for positive w, h the fitted size is at most 595 x 842 and at least one side equals its page edge |
| `PageFit.ScaleChoice` | app.py:22 | 595 / w <= 842 / h over the reals exactly when 595 h <= 842 w, i.e. the integer branch picks the same minimum as `min` |
| `PageFit.WidthScaled` | app.py:22-23 | scaling by 595 / w gives width exactly 595 and height floor(595 h / w) |
| `PageFit.HeightScaled` | app.py:22-23 | scaling by 842 / h gives height exactly 842 and width floor(842 w / h) |
| `PageFit.FlooredScaleAgrees` | app.py:22-23 | the integer size equals (floor(w s), floor(h s)) with the common real factor s = min(595 / w, 842 / h) |
| `PageFit.AspectWithinRounding` | app.py:22-23 | the cross products of fitted and original size differ by less than one original side: -h < w'h - h'w < w |
| `PageFit.FitIdempotent` | app.py:22-23 | fitting a fitted size with both sides positive returns it unchanged |
| `PageFit.SmallImagesEnlarged` | app.py:22-23 | an image no larger than the page is not shrunk on either side (scale not capped at 1) |
| `PageFit.NarrowImageLosesWidth` | app.py:22-23 | when 842 w < h the fitted width is 0 and the height 842 |
| `PageFit.WideImageLosesHeight` | app.py:22-23 | when 595 h < w the fitted width is 595 and the height 0 |
| `PageFit.TruncatedIff` | app.py:22-23 | for positive w, h a fitted side is 0 exactly when 842 w < h or 595 h < w (both directions) |
| `PageFit.QuotientZeroIff` | app.py:23 | a natural quotient is 0 exactly when the dividend is below the divisor, the condition under which `int(...)` gives 0 |
| `PageFit.FitExamples` | app.py:22-23 | 300 x 900 becomes 280 x 842; 4000 x 3000 becomes 595 x 446 |
| `Normalize.ToRgb` | app.py:42-47 | either branch yields an RGB image of unchanged size; flattening leaves no transparency info, conversion keeps it |
| `Normalize.ResizeToA4` | app.py:19-24 | fails, with Pillow's "height and width must be > 0", exactly when a fitted side is 0; otherwise the resized image keeps mode and info and has exactly the fitted size of its source |
| `Normalize.ChooseBranch` | app.py:42 | the flatten branch is only taken for RGBA, LA or P, and an RGB image is always converted; partners `Normalize.FlattenExactly` (the exact condition) and `Normalize.ToRgb` (what each branch yields) |
| `Normalize.FlattenExactly` | app.py:42 | the flatten branch is taken exactly for RGBA, LA, and P with transparency info |
| `Normalize.OpaqueRgbUnchanged` | app.py:42-47 | an RGB image is converted, not flattened, and comes out unchanged |
| `Normalize.ToRgbIdempotent` | app.py:42-47 | a normalized image always takes the conversion branch and normalizing it again changes nothing |
| `Upload.Pageable` | app.py:21-24 | an image can become a page exactly when both its sides and both fitted sides are positive |
| `Upload.Process` | app.py:39-54 | processing succeeds exactly for a decoded image of positive size whose fitted size is positive; the result is RGB of the fitted size with positive sides; a PIL failure passes its exception text through, a zero side fails with "division by zero" and a zero fitted side with "height and width must be > 0" |
| `Upload.Step` | app.py:38-56 | the verdict on one upload: an accepted upload is a decoded image and yields an RGB page; a rejection is a 400 or 500 response; partner `Upload.StepCases` states every case |
| `Upload.HandleUpload` | app.py:38-56 | the loop body as a method, with the source's branches; its verdict equals `Step` |
| `Upload.FirstFailure` | app.py:37-56 | an index it returns is rejected and every earlier upload accepted; with no index every upload is accepted |
| `Upload.Verdicts` | app.py:37-56 | one verdict per upload, verdict j being `Step` of upload j |
| `Upload.FirstReject` | app.py:37-56 | an index it returns holds a rejection and every earlier verdict is an acceptance; with no index every verdict is an acceptance |
| `Upload.Pages` | app.py:37-52 | one page per upload, page j being upload j's page |
| `Upload.Respond` | app.py:31-67 | the response of `upload_file`: a rejection is a 400 or 500; a document has one page per upload and at least one page; partners `Upload.UploadFile` (the loop equals it) and `Upload.DocumentIff` (when a document results) |
| `Upload.UploadFile` | app.py:31-64 | the loop's response equals `Respond`; a document has one page per upload with page j from upload j; the guard at line 58 never fires, and the writer's `[images[0]] + images[1:]` equals `images` |
| `Upload.StepCases` | app.py:38-56 | a `None` entry gives 500; a bad name gives 400 "Invalid file: n"; a PIL failure, a zero size or a zero fitted side gives 400 "Error processing n: e" with the matching e; an upload is accepted exactly when its name passes and it decodes to an image whose size and fitted size are positive |
| `Upload.AcceptedPageNormalized` | app.py:42-52 | every accepted page is RGB, has positive sides, fits 595 x 842 and, in exact arithmetic, touches one page edge |
| `Upload.NothingUploadedRejected` | app.py:33-34 | an empty list, or `[None]`, gives 400 "No files uploaded" |
| `Upload.AllAcceptedRespond` | app.py:58-67 | when every upload is accepted, a writer failure e gives 500 "Failed to create PDF: e" and otherwise the document holds the accepted pages in order |
| `Upload.NarrowImageRejected` | app.py:38-54 | an accepted name with an image where 842 w < h gives 400 "Error processing n: height and width must be > 0" |
| `Upload.WideImageRejected` | app.py:38-54 | an accepted name with an image where 595 h < w gives 400 "Error processing n: height and width must be > 0" |
| `Upload.FirstRejectionWins` | app.py:37-56 | when upload i is the first rejected one, the response is upload i's rejection |
| `Upload.DocumentIff` | app.py:33-67 | a document is returned exactly when something was uploaded, every upload is accepted and the writer does not fail (both directions) |
| `Upload.DocumentPages` | app.py:37-64 | a document has exactly as many pages as uploads (at least one), page j comes from upload j, and every page is RGB with positive sides within the page bounds |
| `Upload.FirstFailureOfPrefix` | app.py:37-56 | appending uploads after a rejected one does not move the first rejection |
| `Upload.FirstRejectOfPrefix` | app.py:37-56 | appending verdicts after a rejection does not move the first rejection |
| `Upload.VerdictsAppend` | app.py:37 | the verdicts of two upload lists joined are the two lists' verdicts joined |
| `Upload.LaterUploadsIgnored` | app.py:37-56 | once an upload is rejected, uploads after it cannot change the response |
| `Upload.TwoPageExample` | app.py:31-64 | under any two accepted names, a 4000 x 3000 RGBA upload and a 300 x 900 RGB upload give a document of a 595 x 446 and a 280 x 842 page, in that order |

## Left out

- Flask routing, templates, `send_file`, `MAX_CONTENT_LENGTH` and `app.run` (lines 8-11, 26-28, 69-77) are framework I/O. The model ends at the page sequence handed to the PDF writer.
- Decoding by `Image.open`, pixel compositing with `paste(..., mask=...)`, Lanczos resampling and PDF encoding are PIL internals. The model keeps only their effect on mode, info and size. Their possible exceptions are `Content.Broken`, the resize refused for a zero fitted side (Pillow's message "height and width must be > 0", fixed in the model) and `saveError`.
- `PageFit.FitToPage`: uses exact rational arithmetic rounded down. The source's IEEE `float` product at line 23 can truncate one below the exact value, and the model does not capture this. Two consequences follow. First, a page of the source may touch neither edge: 1 x 69 becomes 12 x 841 in the source and 12 x 842 in the model. Second, a side whose exact value is 1 can become 0 in the source, so line 24 refuses uploads such as 49 x 41258 or 29155 x 49, which `Upload.Step` and `Upload.Respond` accept (1 x 842 and 595 x 1 pages).
- `Filename.Lower`: lower-cases ASCII only. The source's `str.lower()` also folds non-ASCII letters.
- `Normalize.ToRgb`: after `convert("RGB")` the transparency-info flag is kept as it was. Whatever PIL itself does to the `info` dictionary during conversion is not modelled. No later step reads it.
- The text of an exception raised by PIL or by the PDF writer is an opaque string parameter. Only two cases have a fixed message: a zero size gives Python's "division by zero" and a zero fitted size gives Pillow's "height and width must be > 0".
- The 500 response for a `None` entry other than `[None]` is Flask's default error page. The model records only its title, "Internal Server Error".
- The `warnings` filter at line 6 has no effect on the decisions modelled.
