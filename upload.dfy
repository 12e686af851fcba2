/**
 * The request handler `upload_file` without its HTTP plumbing: the uploads
 * are walked in order, the first one with a bad name or a processing failure
 * ends the request with an error and no pages, and otherwise every upload
 * contributes one normalized page, in upload order, to the PDF writer.
 */
module Upload {
  import opened Outcomes
  import opened Filename
  import opened PageFit
  import opened Normalize

  /**
   * What PIL makes of an upload's bytes: a decoded image, or the text of the
   * exception raised while opening, converting or pasting it.
   */
  datatype Content = Broken(reason: string) | Picture(img: Image)

  /** One entry of `request.files.getlist("file")`: `None`, or a file with its name and content. */
  datatype Upload = Missing | File(filename: string, content: Content)

  /** The handler's answer: an error status with its body, or the pages handed to the PDF writer. */
  datatype Response = Rejected(status: nat, message: string) | Document(pages: seq<Image>)

  /** Per upload: either its page, or the response that ends the request. */
  datatype Verdict = Accept(page: Image) | Reject(response: Response)

  const NoFiles: string := "No files uploaded"
  /** Body of the 500 page Flask sends for an uncaught exception. */
  const InternalError: string := "Internal Server Error"
  /** Python's message for a ZeroDivisionError raised by `/`. */
  const DivisionByZero: string := "division by zero"

  /**
   * An image lines 42-50 can turn into a page: both sides positive (line 22
   * divides by them) and both fitted sides positive (line 24's `resize`
   * refuses a side of 0).
   */
  predicate Pageable(img: Image)
    ensures Pageable(img) <==>
      img.width > 0 && img.height > 0 && FitToPage(img.width, img.height).width > 0 && FitToPage(img.width, img.height).height > 0
  {
    if img.width > 0 && img.height > 0 then
      TruncatedIff(img.width, img.height);
      !Truncated(img.width, img.height)
    else false
  }

  /** Lines 40-50 on one decoded content: make it RGB, then fit it to the page. */
  function Process(content: Content): (r: Result<Image>)
    ensures r.Success? <==> content.Picture? && Pageable(content.img)
    ensures r.Success? ==>
      r.value.mode == Rgb && Size(r.value.width, r.value.height) == FitToPage(content.img.width, content.img.height)
    ensures r.Success? ==> r.value.width > 0 && r.value.height > 0
    ensures content.Broken? ==> r == Failure(content.reason)
    ensures content.Picture? && (content.img.width == 0 || content.img.height == 0) ==> r == Failure(DivisionByZero)
    ensures content.Picture? && content.img.width > 0 && content.img.height > 0 && !Pageable(content.img) ==>
      r == Failure(NonPositiveSize)
  {
    match content
    case Broken(e) => Failure(e)
    case Picture(img) =>
      var flat := ToRgb(img);
      if flat.width == 0 || flat.height == 0 then Failure(DivisionByZero)
      else ResizeToA4(flat)
  }

  /**
   * Lines 38-56 on one upload. A `None` entry has no `filename`, so the
   * message of line 56 raises outside the `try` and Flask answers 500. A file
   * is truthy only when its name is non-empty.
   */
  function Step(u: Upload): (v: Verdict)
    ensures v.Accept? ==> u.File? && u.content.Picture? && v.page.mode == Rgb
    ensures v.Reject? ==> v.response.Rejected? && (v.response.status == 400 || v.response.status == 500)
  {
    match u
    case Missing => Reject(Rejected(500, InternalError))
    case File(name, content) =>
      if name == [] || !AllowedFile(name) then Reject(Rejected(400, "Invalid file: " + name))
      else
        match Process(content)
        case Failure(e) => Reject(Rejected(400, "Error processing " + name + ": " + e))
        case Success(page) => Accept(page)
  }

  /** The verdict on each upload, in upload order. */
  function Verdicts(files: seq<Upload>): (vs: seq<Verdict>)
    ensures |vs| == |files| && forall j :: 0 <= j < |files| ==> vs[j] == Step(files[j])
  {
    seq(|files|, j requires 0 <= j < |files| => Step(files[j]))
  }

  /** The index of the first rejecting verdict, if any. */
  function FirstReject(vs: seq<Verdict>): (r: Option<nat>)
    ensures r.Some? ==>
      r.value < |vs| && vs[r.value].Reject? && forall j :: 0 <= j < r.value ==> vs[j].Accept?
    ensures r.None? ==> forall j :: 0 <= j < |vs| ==> vs[j].Accept?
  {
    if vs == [] then None
    else if vs[0].Reject? then Some(0)
    else
      match FirstReject(vs[1..])
      case None => None
      case Some(k) => Some(k + 1)
  }

  /** The index of the first upload that ends the request, if any. */
  function FirstFailure(files: seq<Upload>): (r: Option<nat>)
    ensures r.Some? ==>
      r.value < |files| && Step(files[r.value]).Reject? && forall j :: 0 <= j < r.value ==> Step(files[j]).Accept?
    ensures r.None? ==> forall j :: 0 <= j < |files| ==> Step(files[j]).Accept?
  {
    FirstReject(Verdicts(files))
  }

  /** Line 33: an empty list, or a list holding only `None`, means nothing was uploaded. */
  predicate NothingUploaded(files: seq<Upload>)
  {
    files == [] || files == [Missing]
  }

  /** The pages of a request whose every upload is accepted, in upload order. */
  function Pages(files: seq<Upload>): (pages: seq<Image>)
    requires forall j :: 0 <= j < |files| ==> Step(files[j]).Accept?
    ensures |pages| == |files|
    ensures forall j :: 0 <= j < |files| ==> pages[j] == Step(files[j]).page
  {
    seq(|files|, j requires 0 <= j < |files| && Step(files[j]).Accept? => Step(files[j]).page)
  }

  /**
   * The response `upload_file` gives for `files`; `saveError` is the text of
   * the exception the PDF writer raises, if it does (lines 63-67).
   */
  function Respond(files: seq<Upload>, saveError: Option<string>): (r: Response)
    ensures r.Rejected? ==> r.status == 400 || r.status == 500
    ensures r.Document? ==> |r.pages| == |files| > 0
  {
    if NothingUploaded(files) then Rejected(400, NoFiles)
    else
      match FirstFailure(files)
      case Some(i) => Step(files[i]).response
      case None =>
        match saveError
        case Some(e) => Rejected(500, "Failed to create PDF: " + e)
        case None => Document(Pages(files))
  }

  /**
   * The body of the loop at lines 38-56 for one upload: the name check, then
   * inside the `try` the transparency branch and the resize. An accepted
   * upload yields its page; any other outcome the response that ends the
   * request.
   */
  method HandleUpload(f: Upload) returns (v: Verdict)
    ensures v == Step(f)
  {
    if f.File? && f.filename != [] && AllowedFile(f.filename) {
      match f.content {
        case Broken(e) =>
          return Reject(Rejected(400, "Error processing " + f.filename + ": " + e));
        case Picture(img) =>
          var flat := ToRgb(img);
          if flat.width == 0 || flat.height == 0 {
            return Reject(Rejected(400, "Error processing " + f.filename + ": " + DivisionByZero));
          }
          match ResizeToA4(flat) {
            case Failure(e) =>
              return Reject(Rejected(400, "Error processing " + f.filename + ": " + e));
            case Success(page) =>
              return Accept(page);
          }
      }
    } else if f.Missing? {
      return Reject(Rejected(500, InternalError));
    } else {
      return Reject(Rejected(400, "Invalid file: " + f.filename));
    }
  }

  /**
   * `upload_file`, lines 32-64: the loop appends one page per upload and returns
   * at the first rejected one. The pages handed to the writer are
   * `images[0]` followed by `images[1:]`.
   */
  method UploadFile(files: seq<Upload>, saveError: Option<string>) returns (resp: Response)
    ensures resp == Respond(files, saveError)
    ensures resp.Document? ==>
      |resp.pages| == |files| && forall j :: 0 <= j < |files| ==> Step(files[j]) == Accept(resp.pages[j])
  {
    if files == [] || files == [Missing] {
      return Rejected(400, NoFiles);
    }
    var images: seq<Image> := [];
    var i := 0;
    while i < |files|
      invariant 0 <= i <= |files|
      invariant |images| == i
      invariant forall j :: 0 <= j < i ==> Step(files[j]) == Accept(images[j])
    {
      var v := HandleUpload(files[i]);
      match v {
        case Reject(r) =>
          FirstRejectionWins(files, saveError, i);
          return r;
        case Accept(page) =>
          images := images + [page];
      }
      i := i + 1;
    }
    // The guard of line 58 (`if not images`) cannot hold here.
    assert |images| == |files| > 0;
    var document := [images[0]] + images[1..];
    assert document == images;
    AllAcceptedRespond(files, saveError, images);
    match saveError {
      case Some(e) => resp := Rejected(500, "Failed to create PDF: " + e);
      case None => resp := Document(document);
    }
  }

  /** An upload's verdict, spelled out: which check stops it and with which status and message. */
  lemma StepCases(u: Upload)
    ensures u.Missing? ==> Step(u) == Reject(Rejected(500, InternalError))
    ensures u.File? && !AllowedFile(u.filename) ==>
      Step(u) == Reject(Rejected(400, "Invalid file: " + u.filename))
    ensures u.File? && AllowedFile(u.filename) && u.content.Broken? ==>
      Step(u) == Reject(Rejected(400, "Error processing " + u.filename + ": " + u.content.reason))
    ensures (u.File? && AllowedFile(u.filename) && u.content.Picture?
             && (u.content.img.width == 0 || u.content.img.height == 0)) ==>
      Step(u) == Reject(Rejected(400, "Error processing " + u.filename + ": " + DivisionByZero))
    ensures (u.File? && AllowedFile(u.filename) && u.content.Picture?
             && u.content.img.width > 0 && u.content.img.height > 0 && !Pageable(u.content.img)) ==>
      Step(u) == Reject(Rejected(400, "Error processing " + u.filename + ": " + NonPositiveSize))
    ensures Step(u).Accept? <==> u.File? && AllowedFile(u.filename) && u.content.Picture? && Pageable(u.content.img)
  {
  }

  /**
   * An accepted name with a decoded image more than 842 times as tall as it
   * is wide is refused by the resize: its fitted width would be 0.
   */
  lemma NarrowImageRejected(name: string, img: Image)
    requires name != [] && AllowedFile(name)
    requires img.width > 0 && PageHeight * img.width < img.height
    ensures Step(File(name, Picture(img))) == Reject(Rejected(400, "Error processing " + name + ": " + NonPositiveSize))
  {
    NarrowImageLosesWidth(img.width, img.height);
  }

  /** Likewise for an image more than 595 times as wide as it is tall: its fitted height would be 0. */
  lemma WideImageRejected(name: string, img: Image)
    requires name != [] && AllowedFile(name)
    requires img.height > 0 && PageWidth * img.height < img.width
    ensures Step(File(name, Picture(img))) == Reject(Rejected(400, "Error processing " + name + ": " + NonPositiveSize))
  {
    WideImageLosesHeight(img.width, img.height);
  }

  /**
   * Every accepted upload yields an RGB page with positive sides that fits
   * the page geometry and touches one of its edges.
   */
  lemma AcceptedPageNormalized(u: Upload)
    requires Step(u).Accept?
    ensures Step(u).page.mode == Rgb
    ensures Step(u).page.width > 0 && Step(u).page.height > 0
    ensures Step(u).page.width <= PageWidth && Step(u).page.height <= PageHeight
    ensures Step(u).page.width == PageWidth || Step(u).page.height == PageHeight
  {
  }

  /** An empty request, or one whose only entry is `None`, is answered 400 "No files uploaded". */
  lemma NothingUploadedRejected(files: seq<Upload>, saveError: Option<string>)
    requires NothingUploaded(files)
    ensures Respond(files, saveError) == Rejected(400, NoFiles)
  {
  }

  /** When every upload is accepted, the response depends only on the PDF save (lines 58-67). */
  lemma AllAcceptedRespond(files: seq<Upload>, saveError: Option<string>, images: seq<Image>)
    requires !NothingUploaded(files)
    requires |images| == |files|
    requires forall j :: 0 <= j < |files| ==> Step(files[j]) == Accept(images[j])
    ensures saveError.Some? ==> Respond(files, saveError) == Rejected(500, "Failed to create PDF: " + saveError.value)
    ensures saveError.None? ==> Respond(files, saveError) == Document(images)
  {
    assert FirstFailure(files) == None;
    assert Pages(files) == images;
  }

  /**
   * When upload i is the first one to be rejected, the response is exactly
   * the rejection of upload i: the earliest bad upload wins.
   */
  lemma FirstRejectionWins(files: seq<Upload>, saveError: Option<string>, i: nat)
    requires !NothingUploaded(files)
    requires i < |files| && Step(files[i]).Reject?
    requires forall j :: 0 <= j < i ==> Step(files[j]).Accept?
    ensures Respond(files, saveError) == Step(files[i]).response
  {
  }

  /** A request is answered with a document exactly when every upload is accepted and the writer succeeds. */
  lemma DocumentIff(files: seq<Upload>, saveError: Option<string>)
    ensures Respond(files, saveError).Document? <==>
      !NothingUploaded(files) && saveError.None? && forall j :: 0 <= j < |files| ==> Step(files[j]).Accept?
  {
  }

  /**
   * All or nothing: a document has one page per upload, page j comes from
   * upload j, and every page is normalized. No response carries a partial
   * page list.
   */
  lemma DocumentPages(files: seq<Upload>, saveError: Option<string>)
    requires Respond(files, saveError).Document?
    ensures |Respond(files, saveError).pages| == |files| > 0
    ensures forall j :: 0 <= j < |files| ==> Step(files[j]) == Accept(Respond(files, saveError).pages[j])
    ensures forall p :: p in Respond(files, saveError).pages ==>
      p.mode == Rgb && 0 < p.width <= PageWidth && 0 < p.height <= PageHeight
  {
    var pages := Respond(files, saveError).pages;
    forall p | p in pages
      ensures p.mode == Rgb && 0 < p.width <= PageWidth && 0 < p.height <= PageHeight
    {
      var j :| 0 <= j < |pages| && pages[j] == p;
      AcceptedPageNormalized(files[j]);
    }
  }

  /** The first rejecting verdict is found in the prefix that contains it; later verdicts are not looked at. */
  lemma {:induction false} FirstRejectOfPrefix(vs: seq<Verdict>, rest: seq<Verdict>)
    requires FirstReject(vs).Some?
    ensures FirstReject(vs + rest) == FirstReject(vs)
  {
    var all := vs + rest;
    assert all != [] && all[0] == vs[0];
    if vs[0].Accept? {
      assert all[1..] == vs[1..] + rest;
      FirstRejectOfPrefix(vs[1..], rest);
    }
  }

  /** Appending uploads after a rejected one does not move the first rejection. */
  lemma FirstFailureOfPrefix(files: seq<Upload>, rest: seq<Upload>)
    requires FirstFailure(files).Some?
    ensures FirstFailure(files + rest) == FirstFailure(files)
  {
    VerdictsAppend(files, rest);
    FirstRejectOfPrefix(Verdicts(files), Verdicts(rest));
  }

  /** The verdicts of two upload lists in a row are the verdicts of each, in a row. */
  lemma VerdictsAppend(files: seq<Upload>, rest: seq<Upload>)
    ensures Verdicts(files + rest) == Verdicts(files) + Verdicts(rest)
  {
    var all := files + rest;
    forall j | 0 <= j < |all|
      ensures Verdicts(all)[j] == (Verdicts(files) + Verdicts(rest))[j]
    {
      if j < |files| {
        assert all[j] == files[j];
      } else {
        assert all[j] == rest[j - |files|];
      }
    }
  }

  /**
   * Once an upload is rejected, whatever is uploaded after it cannot change
   * the response.
   */
  lemma LaterUploadsIgnored(files: seq<Upload>, rest: seq<Upload>, saveError: Option<string>)
    requires !NothingUploaded(files) && FirstFailure(files).Some?
    ensures Respond(files + rest, saveError) == Respond(files, saveError)
  {
    FirstFailureOfPrefix(files, rest);
    var i := FirstFailure(files).value;
    assert (files + rest)[i] == files[i];
    assert !NothingUploaded(files + rest) by {
      assert |files + rest| >= |files|;
      if |files + rest| == 1 {
        assert files + rest == files;
      }
    }
  }

  /**
   * A worked request: under any two accepted names, a 4000 x 3000 RGBA scan
   * and a 300 x 900 RGB photo give a two-page document, in upload order, of
   * a 595 x 446 and a 280 x 842 page.
   */
  lemma TwoPageExample(scan: string, photo: string)
    requires scan != [] && AllowedFile(scan) && photo != [] && AllowedFile(photo)
    ensures Respond([File(scan, Picture(Image("RGBA", false, 4000, 3000))),
                     File(photo, Picture(Image("RGB", false, 300, 900)))], None)
         == Document([Image(Rgb, false, 595, 446), Image(Rgb, false, 280, 842)])
  {
    var a := File(scan, Picture(Image("RGBA", false, 4000, 3000)));
    var b := File(photo, Picture(Image("RGB", false, 300, 900)));
    FitExamples();
    assert Step(a) == Accept(Image(Rgb, false, 595, 446));
    assert Step(b) == Accept(Image(Rgb, false, 280, 842));
    var files := [a, b];
    assert files[1..] == [b];
    AllAcceptedRespond(files, None, [Image(Rgb, false, 595, 446), Image(Rgb, false, 280, 842)]);
  }
}
