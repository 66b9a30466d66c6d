/** The upload form of the front end: the checks on a chosen file, the title filled in
    from the file name, and the guards and reset of a submission. The upload request
    is a parameter that answers with the created document or an error message. */
module DocumentUpload {
  import opened Common
  import opened Text
  import opened Records
  import DocumentsApi

  /** 10 MiB; a file of exactly this size is accepted. */
  const MaxFileSize: nat := 10 * 1024 * 1024

  const AllowedMimeTypes: seq<string> := [
    "application/pdf",
    "application/vnd.openxmlformats-officedocument.wordprocessingml.document",
    "application/msword",
    "text/plain"
  ]

  const WrongTypeMessage := "Please upload a PDF, DOCX, or TXT file"
  const TooLargeMessage := "File size must be less than 10MB"
  const NoFileMessage := "Please select a file to upload"
  const NoTitleMessage := "Please enter a title"
  const UploadFailedMessage := "Failed to upload document"

  /** The browser's `File`: its name, its MIME type and its size in bytes. */
  datatype FileInfo = FileInfo(name: string, mimeType: string, size: nat)

  datatype FormData = FormData(title: string, authors: string, tags: string)

  const EmptyForm := FormData("", "", "")

  /** The component's state (drag highlighting left aside). */
  datatype UploadView = UploadView(form: FormData, file: Option<FileInfo>, error: Option<string>,
                                   success: bool, uploading: bool)

  const Initial := UploadView(EmptyForm, None, None, false, false)

  // ---------------------------------------------------------------------------
  // Extension stripping: `name.replace(/\.[^/.]+$/, '')`
  // ---------------------------------------------------------------------------

  /** The pattern matches at `d`: a dot followed, up to the end of the name, by at
      least one character that is neither a dot nor a slash. */
  predicate ExtSuffixAt(s: string, d: int) {
    && 0 <= d < |s| - 1 && s[d] == '.'
    && forall k :: d < k < |s| ==> s[k] != '.' && s[k] != '/'
  }

  /** The name without the part the pattern matches; unchanged when it does not
      match. Any match starts at the last dot, so at most one exists. */
  function StripExtension(s: string): (r: string)
    ensures r <= s
    ensures r != s ==> ExtSuffixAt(s, |r|)
    ensures r == s ==> forall d :: !ExtSuffixAt(s, d)
  {
    var dot := LastIndexBefore(s, '.', |s|);
    if 0 <= dot < |s| - 1 && LastIndexBefore(s, '/', |s|) < dot then
      s[..dot]
    else
      NoSuffix(s, dot);
      s
  }

  lemma NoSuffix(s: string, dot: int)
    requires dot == LastIndexBefore(s, '.', |s|)
    requires !(0 <= dot < |s| - 1 && LastIndexBefore(s, '/', |s|) < dot)
    ensures forall d :: !ExtSuffixAt(s, d)
  {
    forall d | 0 <= d < |s| - 1 && s[d] == '.' ensures !ExtSuffixAt(s, d) {
      if d < dot {
        assert s[dot] == '.';
      } else if dot < d {
      } else {
        var sep := LastIndexBefore(s, '/', |s|);
        assert s[sep] == '/';
      }
    }
  }

  /** A name made of a stem, a dot and an extension free of dots and slashes loses
      exactly the dot and the extension. */
  lemma StripAddedExtension(stem: string, ext: string)
    requires ext != "" && '.' !in ext && '/' !in ext
    ensures StripExtension(stem + "." + ext) == stem
  {
    var s := stem + "." + ext;
    assert ExtSuffixAt(s, |stem|) by {
      forall k | |stem| < k < |s| ensures s[k] != '.' && s[k] != '/' {
        assert s[k] == ext[k - |stem| - 1];
      }
    }
    ExtSuffixUnique(s, |stem|, |StripExtension(s)|);
  }

  /** The pattern can match at one place only. */
  lemma ExtSuffixUnique(s: string, d1: int, d2: int)
    ensures ExtSuffixAt(s, d1) && ExtSuffixAt(s, d2) ==> d1 == d2
  {
  }

  /** The pattern removes only the last extension, and nothing from a name without
      one or ending in a dot. */
  lemma StripExamples()
    ensures StripExtension("a.tar.gz") == "a.tar"
    ensures StripExtension("noext") == "noext"
    ensures StripExtension("a.") == "a."
  {
    StripAddedExtension("a.tar", "gz");
    assert "a.tar" + "." + "gz" == "a.tar.gz";
    assert !ExtSuffixAt("a.", 1);
  }

  // ---------------------------------------------------------------------------
  // Choosing a file
  // ---------------------------------------------------------------------------

  predicate FileAccepted(f: FileInfo) {
    f.mimeType in AllowedMimeTypes && f.size <= MaxFileSize
  }

  /** `validateAndSetFile(file)`. */
  function ValidateAndSetFile(v: UploadView, f: FileInfo): (r: UploadView)
    ensures r.success == v.success && r.uploading == v.uploading
    ensures f.mimeType !in AllowedMimeTypes ==> r == v.(error := Some(WrongTypeMessage), file := None)
    ensures f.mimeType in AllowedMimeTypes && f.size > MaxFileSize ==>
              r == v.(error := Some(TooLargeMessage), file := None)
    ensures FileAccepted(f) ==> r.file == Some(f) && r.error.None?
    ensures FileAccepted(f) ==> r.form.authors == v.form.authors && r.form.tags == v.form.tags
    ensures FileAccepted(f) && v.form.title != "" ==> r.form == v.form
    ensures FileAccepted(f) && v.form.title == "" ==> r.form.title == StripExtension(f.name)
  {
    if f.mimeType !in AllowedMimeTypes then
      v.(error := Some(WrongTypeMessage), file := None)
    else if f.size > MaxFileSize then
      v.(error := Some(TooLargeMessage), file := None)
    else
      var form := if v.form.title == "" then v.form.(title := StripExtension(f.name)) else v.form;
      v.(file := Some(f), error := None, form := form)
  }

  /** A file is kept exactly when it passes both checks; a rejected file leaves no
      file selected and an error shown, an accepted one clears the error. */
  lemma ValidateKeepsIff(v: UploadView, f: FileInfo)
    ensures var r := ValidateAndSetFile(v, f);
            (r.file.Some? <==> FileAccepted(f)) && (r.error.None? <==> FileAccepted(f))
  {
  }

  /** The size limit is inclusive. */
  lemma SizeBoundary(v: UploadView)
    ensures ValidateAndSetFile(v, FileInfo("a.txt", "text/plain", MaxFileSize)).file.Some?
    ensures ValidateAndSetFile(v, FileInfo("a.txt", "text/plain", MaxFileSize + 1)).file.None?
  {
  }

  /** The MIME check and the back end's extension check are independent: a text file
      named without an extension is accepted here and refused by the back end. */
  lemma MimeAcceptedExtensionRefused()
    ensures FileAccepted(FileInfo("notes", "text/plain", 10))
    ensures !DocumentsApi.ExtensionAllowed("notes")
  {
    var p := "notes";
    assert LastIndexBefore(p, '.', 5) == -1;
    assert DocumentsApi.SplitExt(p).1 == "";
  }

  // ---------------------------------------------------------------------------
  // Submitting
  // ---------------------------------------------------------------------------

  /** The multipart body of the upload request. */
  datatype UploadPayload = UploadPayload(file: FileInfo, title: string, authors: string, tags: string)

  /** What the upload request gives back: the created document, or the message of the
      error the API client raises (possibly empty). */
  datatype UploadReply = Uploaded(doc: Document) | UploadFailed(message: string)

  /** The end of a submission: the new state, the body sent (if any) and the document
      handed to the parent's success callback (if any). */
  datatype SubmitOutcome = SubmitOutcome(view: UploadView, sent: Option<UploadPayload>, created: Option<Document>)

  function PayloadOf(f: FileInfo, form: FormData): UploadPayload {
    UploadPayload(f, Trim(form.title), Trim(form.authors), Trim(form.tags))
  }

  /** `handleSubmit`, with the request's answer given by `server`. */
  function HandleSubmit(v: UploadView, server: UploadPayload -> UploadReply): (r: SubmitOutcome)
    ensures !(r.view.success && r.view.error.Some?)
    ensures r.sent.Some? ==> !r.view.uploading
    ensures r.sent.None? <==> v.file.None? || Trim(v.form.title) == ""
    ensures v.file.None? ==> r == SubmitOutcome(v.(error := Some(NoFileMessage), success := false), None, None)
    ensures v.file.Some? && Trim(v.form.title) == "" ==>
              r == SubmitOutcome(v.(error := Some(NoTitleMessage), success := false), None, None)
    ensures r.sent.Some? ==> r.sent.value == PayloadOf(v.file.value, v.form)
    ensures r.sent.Some? && server(r.sent.value).Uploaded? ==>
              r.view == UploadView(EmptyForm, None, None, true, false) &&
              r.created == Some(server(r.sent.value).doc)
    ensures r.sent.Some? && server(r.sent.value).UploadFailed? ==>
              && r.view.form == v.form && r.view.file == v.file && !r.view.success
              && r.view.error.Some? && r.view.error.value != ""
              && r.created.None?
  {
    var v0 := v.(error := None, success := false);
    if v.file.None? then
      SubmitOutcome(v0.(error := Some(NoFileMessage)), None, None)
    else if Trim(v.form.title) == "" then
      SubmitOutcome(v0.(error := Some(NoTitleMessage)), None, None)
    else
      var payload := PayloadOf(v.file.value, v.form);
      match server(payload)
      case Uploaded(d) =>
        SubmitOutcome(v0.(success := true, form := EmptyForm, file := None, uploading := false), Some(payload), Some(d))
      case UploadFailed(message) =>
        var shown := if message == "" then UploadFailedMessage else message;
        SubmitOutcome(v0.(error := Some(shown), uploading := false), Some(payload), None)
  }

  /** What is sent is what the back end would have parsed from the raw fields anyway:
      the title is non-empty and trimmed, and trimming the lists before sending does
      not change the back end's parse of them. */
  lemma SentAsParsed(v: UploadView, server: UploadPayload -> UploadReply)
    requires HandleSubmit(v, server).sent.Some?
    ensures var p := HandleSubmit(v, server).sent.value;
            && p.title != "" && IsTrimmed(p.title)
            && DocumentsApi.ParseNames(p.authors) == ParseList(v.form.authors)
            && DocumentsApi.ParseNames(p.tags) == ParseList(v.form.tags)
  {
    ParseListTrim(v.form.authors);
    ParseListTrim(v.form.tags);
  }

  /** Choosing an acceptable file and then a valid submission that the server
      accepts ends in the initial form, with the file's contents sent under the
      stripped file name when no title had been typed. */
  lemma ChooseThenSubmit(f: FileInfo, server: UploadPayload -> UploadReply)
    requires FileAccepted(f)
    requires Trim(StripExtension(f.name)) != ""
    requires server(PayloadOf(f, FormData(StripExtension(f.name), "", ""))).Uploaded?
    ensures var r := HandleSubmit(ValidateAndSetFile(Initial, f), server);
            && r.sent == Some(UploadPayload(f, Trim(StripExtension(f.name)), "", ""))
            && r.view == Initial.(success := true)
  {
    assert Trim("") == "" by { TrimEmptyIffAllSpace(""); }
  }
}
