/** The document endpoints of the back end: validation and parsing of a file upload,
    the tag filter of the listing, and the guards and field rules of get, update and
    delete by id. The store is a sequence of documents; the embedding model, the text
    extraction of the uploaded file and the parsing of object ids are parameters. */
module DocumentsApi {
  import opened Common
  import opened Text
  import opened Records

  const AllowedExtensions: seq<string> := [".pdf", ".docx", ".txt", ".doc"]
  /** Extracted text shorter than this once trimmed is refused. */
  const MinContentLength: nat := 10
  /** Only this many leading characters of an upload's content are embedded. */
  const EmbeddingPrefixLength: nat := 5000
  const UploadDir := "uploads"

  /** An `HTTPException`: status code and detail text. */
  datatype HttpError = HttpError(status: nat, detail: string)

  datatype Response<T> = Ok(value: T) | Failure(error: HttpError)

  const InvalidId := HttpError(400, "Invalid document ID format")
  const NotFound := HttpError(404, "Document not found")
  const NoFieldsToUpdate := HttpError(400, "No fields to update")
  const NoReadableContent := HttpError(400, "No readable content found in file")

  // ---------------------------------------------------------------------------
  // File extension (os.path.splitext on a POSIX path)
  // ---------------------------------------------------------------------------

  /** `p[d..]` is the extension `os.path.splitext` splits off: `p[d]` is the last dot
      of `p`, no slash follows it, and the last path component holds a character
      other than a dot before it (so a leading dot, as in ".bashrc", is no extension). */
  predicate ExtensionAt(p: string, d: int) {
    && 0 <= d < |p| && p[d] == '.'
    && (forall k :: d < k < |p| ==> p[k] != '.' && p[k] != '/')
    && (exists k :: 0 <= k < d && p[k] != '.' && forall m :: k <= m < d ==> p[m] != '/')
  }

  /** `os.path.splitext(p)`: the root and the extension, which starts with its dot or
      is empty. */
  function SplitExt(p: string): (r: (string, string))
    ensures r.0 + r.1 == p
    ensures r.1 != "" ==> ExtensionAt(p, |r.0|)
    ensures r.1 == "" ==> forall d :: !ExtensionAt(p, d)
  {
    var sep := LastIndexBefore(p, '/', |p|);
    var dot := LastIndexBefore(p, '.', |p|);
    if dot > sep && exists k :: sep + 1 <= k < dot && p[k] != '.' then
      assert p[..dot] + p[dot..] == p;
      (p[..dot], p[dot..])
    else
      NoExtension(p, sep, dot);
      (p, "")
  }

  lemma NoExtension(p: string, sep: int, dot: int)
    requires sep == LastIndexBefore(p, '/', |p|) && dot == LastIndexBefore(p, '.', |p|)
    requires !(dot > sep && exists k :: sep + 1 <= k < dot && p[k] != '.')
    ensures forall d :: !ExtensionAt(p, d)
  {
    forall d | 0 <= d < |p| ensures !ExtensionAt(p, d) {
      if p[d] == '.' && forall k :: d < k < |p| ==> p[k] != '.' && p[k] != '/' {
        assert d == dot;
      }
    }
  }

  /** The lower-cased extension of an uploaded file's name. */
  function UploadExtension(filename: string): string {
    Lower(SplitExt(filename).1)
  }

  predicate ExtensionAllowed(filename: string) {
    UploadExtension(filename) in AllowedExtensions
  }

  /** A file name is accepted exactly when it has an extension in the sense of
      `splitext` and that extension, lower-cased, is one of the four allowed. */
  lemma ExtensionAllowedIff(filename: string)
    ensures ExtensionAllowed(filename) <==>
              exists d :: ExtensionAt(filename, d) && Lower(filename[d..]) in AllowedExtensions
  {
    var r := SplitExt(filename);
    if r.1 != "" {
      assert filename[|r.0|..] == r.1;
      forall d | ExtensionAt(filename, d) ensures d == |r.0| {
      }
    }
  }

  /** The check ignores letter case. */
  lemma UpperCaseAccepted()
    ensures ExtensionAllowed("a.PDF")
  {
    var p := "a.PDF";
    assert LastIndexBefore(p, '/', 5) == -1;
    assert LastIndexBefore(p, '.', 5) == 1;
    assert p[0] != '.';
    assert SplitExt(p).1 == ".PDF";
    assert Lower(".PDF") == ".pdf";
  }

  /** Only the last extension counts. */
  lemma LastExtensionOnly()
    ensures !ExtensionAllowed("a.pdf.gz")
  {
    var p := "a.pdf.gz";
    assert LastIndexBefore(p, '/', 8) == -1;
    assert LastIndexBefore(p, '.', 8) == 5;
    assert p[0] != '.';
    assert SplitExt(p).1 == ".gz";
    assert Lower(".gz") == ".gz";
  }

  /** A name that is only a dot and an extension, like ".pdf", has no extension. */
  lemma DotFileRejected()
    ensures !ExtensionAllowed(".pdf")
  {
    var p := ".pdf";
    assert LastIndexBefore(p, '/', 4) == -1;
    assert LastIndexBefore(p, '.', 4) == 0;
    assert SplitExt(p).1 == "";
  }

  // ---------------------------------------------------------------------------
  // Upload
  // ---------------------------------------------------------------------------

  /** The multipart form of an upload. */
  datatype UploadForm = UploadForm(filename: string, title: string, authors: string, tags: string)

  /** What reading the saved file's text gives: its text, or the message of the
      exception the extractor raised. */
  datatype Extraction = Extracted(text: string) | ExtractionFailed(message: string)

  /** `[a.strip() for a in s.split(",") if a.strip()] if s else []`. */
  function ParseNames(s: string): (r: seq<string>)
    ensures r == ParseList(s)
  {
    if s == "" then [] else ParseList(s)
  }

  function StoredPath(token: string, filename: string): string {
    UploadDir + "/" + token + "_" + filename
  }

  function UnsupportedType(ext: string): HttpError {
    HttpError(400, "File type " + ext + " not supported. Allowed: " + Join(AllowedExtensions, ", "))
  }

  /** `POST /documents/upload`. `extraction` is the outcome of reading the saved
      file's text, `token` the fresh object id that prefixes the saved file's name,
      `size` the saved file's size, `newId` the id the store assigns and `now` the
      upload time. */
  function UploadDocument(form: UploadForm, extraction: Extraction, embed: string -> Vector,
                          token: string, size: nat, newId: Id, now: Timestamp): (r: Response<Document>)
    ensures r.Ok? <==>
              ExtensionAllowed(form.filename) && extraction.Extracted? &&
              |Trim(extraction.text)| >= MinContentLength
    ensures !ExtensionAllowed(form.filename) ==> r.Failure? && r.error.status == 400
    ensures ExtensionAllowed(form.filename) && extraction.ExtractionFailed? ==>
              r.Failure? && r.error.status == 500
    ensures (ExtensionAllowed(form.filename) && extraction.Extracted? &&
             |Trim(extraction.text)| < MinContentLength) ==> r == Failure(NoReadableContent)
    ensures r.Ok? ==>
              && r.value.id == newId
              && r.value.title == form.title
              && r.value.content == extraction.text
              && r.value.authors == ParseList(form.authors)
              && r.value.tags == ParseList(form.tags)
              && r.value.embedding == Some(embed(Take(extraction.text, EmbeddingPrefixLength)))
              && r.value.uploadDate == Some(now)
  {
    var ext := UploadExtension(form.filename);
    if ext !in AllowedExtensions then
      Failure(UnsupportedType(ext))
    else
      match extraction
      case ExtractionFailed(message) =>
        Failure(HttpError(500, "Failed to extract text: " + message))
      case Extracted(content) =>
        if content == "" || |Trim(content)| < MinContentLength then
          Failure(NoReadableContent)
        else
          Ok(Document(
            newId, form.title, content,
            ParseNames(form.authors), ParseNames(form.tags),
            Some(now),
            Some(embed(Take(content, EmbeddingPrefixLength))),
            Some(StoredPath(token, form.filename)),
            Some(FileMeta(form.filename, size, ext))))
  }

  // ---------------------------------------------------------------------------
  // Listing: the tag filter
  // ---------------------------------------------------------------------------

  /** The `tags` query parameter of `GET /documents/`: absent or empty means no
      filter; otherwise the comma-separated pieces, each trimmed, empty ones kept. */
  function TagFilter(tags: Option<string>): (r: Option<seq<string>>)
    ensures r.None? <==> tags.None? || tags.value == ""
    ensures r.Some? ==> |r.value| == Occurrences(tags.value, ',') + 1
    ensures r.Some? ==> forall i :: 0 <= i < |r.value| ==> IsTrimmed(r.value[i]) && ',' !in r.value[i]
  {
    if tags.None? || tags.value == "" then None
    else
      var pieces := Split(tags.value, ',');
      assert forall i :: 0 <= i < |pieces| ==> ',' !in TrimEach(pieces)[i] by {
        forall i | 0 <= i < |pieces| ensures ',' !in TrimEach(pieces)[i] {
          TrimKeepsOut(pieces[i], ',');
        }
      }
      Some(TrimEach(pieces))
  }

  /** `{"tags": {"$in": filter}}`: some filter entry is one of the document's tags. */
  predicate PassesTagFilter(d: Document, filter: Option<seq<string>>) {
    filter.None? || exists t :: t in filter.value && t in d.tags
  }

  /** Without a filter every document is listed; with one, a document is listed
      exactly when one of its tags equals some trimmed comma-separated piece of the
      parameter, and a document without tags never is. */
  lemma PassesTagFilterIff(d: Document, tags: Option<string>)
    ensures (tags.None? || tags.value == "") ==> PassesTagFilter(d, TagFilter(tags))
    ensures tags.Some? && tags.value != "" ==>
              (PassesTagFilter(d, TagFilter(tags)) <==>
                 exists i :: 0 <= i < |Split(tags.value, ',')| && Trim(Split(tags.value, ',')[i]) in d.tags)
    ensures tags.Some? && tags.value != "" && d.tags == [] ==> !PassesTagFilter(d, TagFilter(tags))
  {
    if tags.Some? && tags.value != "" {
      var pieces := Split(tags.value, ',');
      var f := TagFilter(tags).value;
      assert f == TrimEach(pieces);
      assert PassesTagFilter(d, TagFilter(tags)) <==> exists t :: t in f && t in d.tags;
      assert (exists t :: t in f && t in d.tags) <==> exists i :: 0 <= i < |pieces| && Trim(pieces[i]) in d.tags by {
        if exists t :: t in f && t in d.tags {
          var t :| t in f && t in d.tags;
          var i :| 0 <= i < |f| && f[i] == t;
          assert Trim(pieces[i]) in d.tags;
        }
        if exists i :: 0 <= i < |pieces| && Trim(pieces[i]) in d.tags {
          var i :| 0 <= i < |pieces| && Trim(pieces[i]) in d.tags;
          assert f[i] == Trim(pieces[i]) && f[i] in f;
        }
      }
    }
  }

  /** Filtering by one of a document's well-formed tags lists it. */
  lemma FilterByOwnTag(d: Document, t: string)
    requires IsListItem(t) && t in d.tags
    ensures PassesTagFilter(d, TagFilter(Some(t)))
  {
    SplitNoSeparator(t, ',');
    TrimTrimmed(t);
    assert TagFilter(Some(t)).value == [t];
  }

  lemma {:induction false} CleanTrimEach(pieces: seq<string>)
    ensures Clean(TrimEach(pieces)) == Clean(pieces)
  {
    if |pieces| > 0 {
      TrimIdempotent(pieces[0]);
      assert TrimEach(pieces)[1..] == TrimEach(pieces[1..]);
      CleanTrimEach(pieces[1..]);
    }
  }

  /** The tag filter differs from the upload parse only in keeping empty entries:
      dropping them gives the upload parse of the same text. */
  lemma TagFilterCleaned(tags: string)
    requires tags != ""
    ensures Clean(TagFilter(Some(tags)).value) == ParseList(tags)
  {
    CleanTrimEach(Split(tags, ','));
  }

  // ---------------------------------------------------------------------------
  // Get, update, delete by id
  // ---------------------------------------------------------------------------

  /** `GET /documents/{id}`; `parseId` stands for `ObjectId(...)`, `None` when it raises. */
  function GetDocument(store: seq<Document>, rawId: string, parseId: string -> Option<Id>): (r: Response<Document>)
    ensures parseId(rawId).None? ==> r == Failure(InvalidId)
    ensures parseId(rawId).Some? && !HasId(store, parseId(rawId).value) ==> r == Failure(NotFound)
    ensures parseId(rawId).Some? && HasId(store, parseId(rawId).value) ==>
              r.Ok? && r.value in store && r.value.id == parseId(rawId).value
  {
    match parseId(rawId)
    case None => Failure(InvalidId)
    case Some(id) =>
      match FindById(store, id)
      case None => Failure(NotFound)
      case Some(d) => Ok(d)
  }

  /** A field of the update body: left out of the request, sent as `null`, or sent
      with a value. */
  datatype Field<T> = Unset | Null | Given(value: T)

  /** The update body, its shape inferred from what the front end sends. */
  datatype DocumentUpdate = DocumentUpdate(
    title: Field<string>, content: Field<string>, authors: Field<seq<string>>, tags: Field<seq<string>>)

  /** The `$set` document of an update. */
  datatype Changes = Changes(
    title: Option<string>, content: Option<string>, authors: Option<seq<string>>,
    tags: Option<seq<string>>, embedding: Option<Vector>)

  /** `model_dump(exclude_unset=True)` filtered to the values that are not `None`. */
  function Provided<T>(f: Field<T>): (r: Option<T>)
    ensures r.Some? <==> f.Given?
    ensures f.Given? ==> r.value == f.value
  {
    match f
    case Given(v) => Some(v)
    case _ => None
  }

  function UpdateData(u: DocumentUpdate): Changes {
    Changes(Provided(u.title), Provided(u.content), Provided(u.authors), Provided(u.tags), None)
  }

  predicate NoFields(c: Changes) {
    c.title.None? && c.content.None? && c.authors.None? && c.tags.None?
  }

  /** `{"$set": changes}`: overwrites the fields present, keeps all others. */
  function ApplyChanges(d: Document, c: Changes): Document {
    d.(title := c.title.GetOr(d.title),
       content := c.content.GetOr(d.content),
       authors := c.authors.GetOr(d.authors),
       tags := c.tags.GetOr(d.tags),
       embedding := if c.embedding.Some? then c.embedding else d.embedding)
  }

  /** `PUT /documents/{id}`: the new store and the updated document. */
  function UpdateDocument(store: seq<Document>, rawId: string, parseId: string -> Option<Id>,
                          u: DocumentUpdate, embed: string -> Vector): (r: Response<(seq<Document>, Document)>)
    ensures parseId(rawId).None? ==> r == Failure(InvalidId)
    ensures parseId(rawId).Some? && !HasId(store, parseId(rawId).value) ==> r == Failure(NotFound)
    ensures parseId(rawId).Some? && HasId(store, parseId(rawId).value) && NoFields(UpdateData(u)) ==>
              r == Failure(NoFieldsToUpdate)
    ensures parseId(rawId).Some? && HasId(store, parseId(rawId).value) && !NoFields(UpdateData(u)) ==> r.Ok?
    ensures r.Ok? ==>
              var i := IndexOfId(store, parseId(rawId).value);
              var (s', d') := r.value;
              && 0 <= i < |store|
              && |s'| == |store|
              && s'[i] == d'
              && (forall k :: 0 <= k < |store| && k != i ==> s'[k] == store[k])
              && d'.id == store[i].id
              && d'.title == (if u.title.Given? then u.title.value else store[i].title)
              && d'.content == (if u.content.Given? then u.content.value else store[i].content)
              && d'.authors == (if u.authors.Given? then u.authors.value else store[i].authors)
              && d'.tags == (if u.tags.Given? then u.tags.value else store[i].tags)
              && d'.embedding == (if u.content.Given? then Some(embed(u.content.value)) else store[i].embedding)
              && d'.uploadDate == store[i].uploadDate
              && d'.filePath == store[i].filePath
              && d'.metadata == store[i].metadata
  {
    match parseId(rawId)
    case None => Failure(InvalidId)
    case Some(id) =>
      var i := IndexOfId(store, id);
      if i < 0 then Failure(NotFound)
      else
        var data := UpdateData(u);
        if NoFields(data) then Failure(NoFieldsToUpdate)
        else
          var changes := if data.content.Some? then data.(embedding := Some(embed(data.content.value))) else data;
          var d' := ApplyChanges(store[i], changes);
          Ok((store[i := d'], d'))
  }

  /** The embedding is regenerated exactly when the update carries content: an update
      that leaves the content alone leaves the embedding alone. */
  lemma ReembedIffContent(store: seq<Document>, rawId: string, parseId: string -> Option<Id>,
                          u: DocumentUpdate, embed: string -> Vector)
    requires UpdateDocument(store, rawId, parseId, u, embed).Ok?
    ensures var d' := UpdateDocument(store, rawId, parseId, u, embed).value.1;
            var prev := store[IndexOfId(store, parseId(rawId).value)];
            (d'.content != prev.content ==> d'.embedding == Some(embed(d'.content)))
            && (!u.content.Given? ==> d'.embedding == prev.embedding && d'.content == prev.content)
  {
  }

  /** `DELETE /documents/{id}`: the store without the addressed document. The
      `deleted_count == 0` branch cannot be reached once the document was found. */
  function DeleteDocument(store: seq<Document>, rawId: string, parseId: string -> Option<Id>): (r: Response<seq<Document>>)
    ensures parseId(rawId).None? ==> r == Failure(InvalidId)
    ensures parseId(rawId).Some? && !HasId(store, parseId(rawId).value) ==> r == Failure(NotFound)
    ensures parseId(rawId).Some? && HasId(store, parseId(rawId).value) ==>
              r.Ok? && |r.value| == |store| - 1
  {
    match parseId(rawId)
    case None => Failure(InvalidId)
    case Some(id) =>
      var i := IndexOfId(store, id);
      if i < 0 then Failure(NotFound)
      else Ok(store[..i] + store[i + 1..])
  }

  /** With unique ids, deletion removes exactly the document with that id and keeps
      the others in their order. */
  lemma DeleteRemovesExactly(store: seq<Document>, rawId: string, parseId: string -> Option<Id>)
    requires UniqueIds(store)
    requires DeleteDocument(store, rawId, parseId).Ok?
    ensures var id := parseId(rawId).value;
            var s' := DeleteDocument(store, rawId, parseId).value;
            && UniqueIds(s')
            && (forall d :: d in s' <==> d in store && d.id != id)
  {
    var i := IndexOfId(store, parseId(rawId).value);
    RemoveAtMembers(store, i);
  }

  lemma RemoveAtMembers(store: seq<Document>, i: nat)
    requires UniqueIds(store) && i < |store|
    ensures UniqueIds(store[..i] + store[i + 1..])
    ensures forall d :: d in store[..i] + store[i + 1..] <==> d in store && d.id != store[i].id
  {
    var s' := store[..i] + store[i + 1..];
    assert forall k :: 0 <= k < |s'| ==> s'[k] == (if k < i then store[k] else store[k + 1]);
    forall d | d in store && d.id != store[i].id ensures d in s' {
      var k :| 0 <= k < |store| && store[k] == d;
      if k < i { assert s'[k] == d; } else { assert s'[k - 1] == d; }
    }
  }
}
