/** The document management panel of the front end: the text shortening of a card,
    the edit form and the list updates after an edit or a deletion. The server calls
    are parameters that answer with the returned document or an error message. */
module DocumentManagement {
  import opened Common
  import opened Text
  import opened Records
  import DocumentsApi

  /** The default `maxLength` of the card text. */
  const CardTextLength: nat := 200
  const Ellipsis := "..."

  /** `truncateText(text, maxLength)`; `None` is `null` or `undefined`. */
  function TruncateText(text: Option<string>, maxLength: nat): (r: string)
    ensures text.None? ==> r == ""
    ensures text.Some? && |text.value| <= maxLength ==> r == text.value
    ensures text.Some? && |text.value| > maxLength ==>
              |r| == maxLength + |Ellipsis| && r[..maxLength] == text.value[..maxLength] &&
              r[maxLength..] == Ellipsis
  {
    match text
    case None => ""
    case Some(t) =>
      if t == "" then ""
      else if |t| > maxLength then t[..maxLength] + Ellipsis
      else t
  }

  /** The text a document card shows: its content shortened with the default limit. */
  function CardText(d: Document): (r: string)
    ensures |r| <= CardTextLength + |Ellipsis|
    ensures |d.content| <= CardTextLength ==> r == d.content
    ensures |d.content| > CardTextLength ==>
              r == d.content[..CardTextLength] + Ellipsis
  {
    TruncateText(Some(d.content), CardTextLength)
  }

  /** Shortening is a prefix of the text, possibly followed by the ellipsis, and
      never longer than the limit plus the ellipsis. */
  lemma TruncatePrefix(t: string, maxLength: nat)
    ensures var r := TruncateText(Some(t), maxLength);
            && |r| <= maxLength + |Ellipsis|
            && (r <= t || (r[..maxLength] <= t && r[maxLength..] == Ellipsis))
  {
  }

  /** Shortening a shortened text changes nothing more. */
  lemma TruncateIdempotent(text: Option<string>, maxLength: nat)
    ensures var r := TruncateText(text, maxLength);
            TruncateText(Some(r), maxLength) == r
  {
    if text.Some? && |text.value| > maxLength {
      var r := TruncateText(text, maxLength);
      assert r[..maxLength] + Ellipsis == r;
    }
  }

  // ---------------------------------------------------------------------------
  // Editing
  // ---------------------------------------------------------------------------

  /** The fields of the edit form; authors and tags as the comma-separated text the
      user edits. */
  datatype EditForm = EditForm(title: string, authors: string, tags: string, content: string)

  /** The state the panel keeps: the listed documents, the id being edited (`null`
      when none) and the edit form (`{}` when none). */
  datatype View = View(documents: seq<Document>, editingId: Option<Id>, editForm: Option<EditForm>)

  /** The body `saveEdit` sends to `PUT /documents/{id}`. */
  datatype UpdatePayload = UpdatePayload(title: string, authors: seq<string>, tags: seq<string>, content: string)

  /** What a server call gives back: the parsed response, or the error message the
      API client raises. */
  datatype Reply<T> = Replied(value: T) | Rejected(message: string)

  const SeparatorText := ", "

  /** `startEdit(doc)`: the document's lists joined by ", " into the form. */
  function StartEdit(v: View, d: Document): (r: View)
    ensures r.documents == v.documents
    ensures r.editingId == Some(d.id)
    ensures r.editForm == Some(EditForm(d.title, Join(d.authors, SeparatorText), Join(d.tags, SeparatorText), d.content))
  {
    View(v.documents, Some(d.id),
         Some(EditForm(d.title, Join(d.authors, SeparatorText), Join(d.tags, SeparatorText), d.content)))
  }

  /** `cancelEdit()`. */
  function CancelEdit(v: View): (r: View)
    ensures r.documents == v.documents && r.editingId.None? && r.editForm.None?
  {
    View(v.documents, None, None)
  }

  /** The update body built from the form: split on ',', trim, drop empty pieces. */
  function EditPayload(f: EditForm): (r: UpdatePayload)
    ensures r.title == f.title && r.content == f.content
    ensures r.authors == ParseList(f.authors) && r.tags == ParseList(f.tags)
    ensures forall i :: 0 <= i < |r.authors| ==> IsListItem(r.authors[i])
    ensures forall i :: 0 <= i < |r.tags| ==> IsListItem(r.tags[i])
  {
    UpdatePayload(f.title, ParseList(f.authors), ParseList(f.tags), f.content)
  }

  /** Opening the form and saving it unchanged sends back the document's own lists,
      provided no author or tag is empty, carries surrounding blanks or holds a comma. */
  lemma EditRoundTrip(v: View, d: Document)
    requires forall i :: 0 <= i < |d.authors| ==> IsListItem(d.authors[i])
    requires forall i :: 0 <= i < |d.tags| ==> IsListItem(d.tags[i])
    ensures EditPayload(StartEdit(v, d).editForm.value) ==
              UpdatePayload(d.title, d.authors, d.tags, d.content)
  {
    ParseListJoin(d.authors);
    ParseListJoin(d.tags);
  }

  /** `documents.map(doc => doc._id === id ? updated : doc)`. */
  function ReplaceById(docs: seq<Document>, id: Id, updated: Document): (r: seq<Document>)
    ensures |r| == |docs|
    ensures forall k :: 0 <= k < |docs| ==> r[k] == if docs[k].id == id then updated else docs[k]
  {
    if |docs| == 0 then []
    else [if docs[0].id == id then updated else docs[0]] + ReplaceById(docs[1..], id, updated)
  }

  /** `saveEdit(id)`: the new state and the alert shown, if any. Without a form,
      reading its fields throws before any request is made; that error is caught and
      shown like a failed request. */
  function SaveEdit(v: View, id: Id, server: UpdatePayload -> Reply<Document>): (r: (View, Option<string>))
    ensures v.editForm.None? ==> r.0 == v && r.1.Some?
    ensures v.editForm.Some? && server(EditPayload(v.editForm.value)).Rejected? ==>
              r.0 == v && r.1 == Some("Failed to update: " + server(EditPayload(v.editForm.value)).message)
    ensures v.editForm.Some? && server(EditPayload(v.editForm.value)).Replied? ==>
              && r.0 == View(ReplaceById(v.documents, id, server(EditPayload(v.editForm.value)).value), None, None)
              && r.1.None?
  {
    match v.editForm
    case None => (v, Some("Failed to update: Cannot read properties of undefined"))
    case Some(f) =>
      match server(EditPayload(f))
      case Rejected(message) => (v, Some("Failed to update: " + message))
      case Replied(updated) => (View(ReplaceById(v.documents, id, updated), None, None), None)
  }

  // ---------------------------------------------------------------------------
  // Deleting
  // ---------------------------------------------------------------------------

  /** `documents.filter(doc => doc._id !== id)`. */
  function DeleteById(docs: seq<Document>, id: Id): (r: seq<Document>)
    ensures |r| <= |docs|
    ensures forall k :: 0 <= k < |r| ==> r[k].id != id
  {
    if |docs| == 0 then []
    else (if docs[0].id != id then [docs[0]] else []) + DeleteById(docs[1..], id)
  }

  /** Exactly the entries with another id survive. */
  lemma {:induction false} DeleteByIdMembers(docs: seq<Document>, id: Id)
    ensures forall d :: d in DeleteById(docs, id) <==> d in docs && d.id != id
  {
    if |docs| > 0 {
      DeleteByIdMembers(docs[1..], id);
      assert forall d :: d in docs <==> d == docs[0] || d in docs[1..];
    }
  }

  /** The filter keeps order: the survivors of a concatenation are the survivors of
      its parts, concatenated. */
  lemma {:induction false} DeleteByIdConcat(a: seq<Document>, b: seq<Document>, id: Id)
    ensures DeleteById(a + b, id) == DeleteById(a, id) + DeleteById(b, id)
    decreases |a|
  {
    if |a| == 0 {
      assert a + b == b;
    } else {
      var ab := a + b;
      assert ab[0] == a[0];
      assert ab[1..] == a[1..] + b;
      DeleteByIdConcat(a[1..], b, id);
    }
  }

  /** Deleting an id that is not listed changes nothing. */
  lemma {:induction false} DeleteByIdAbsent(docs: seq<Document>, id: Id)
    requires !HasId(docs, id)
    ensures DeleteById(docs, id) == docs
  {
    if |docs| > 0 {
      assert !HasId(docs[1..], id) by {
        forall k | 0 <= k < |docs[1..]| ensures docs[1..][k].id != id {
          assert docs[1..][k] == docs[k + 1];
        }
      }
      DeleteByIdAbsent(docs[1..], id);
      assert docs[0].id != id;
      assert docs == [docs[0]] + docs[1..];
    }
  }

  /** `handleDelete(id, title)`: nothing when the user does not confirm; otherwise
      the new state and the alert shown, if any. */
  function HandleDelete(v: View, id: Id, confirmed: bool, server: Id -> Reply<bool>): (r: (View, Option<string>))
    ensures !confirmed ==> r == (v, None)
    ensures confirmed && server(id).Rejected? ==> r == (v, Some("Failed to delete: " + server(id).message))
    ensures confirmed && server(id).Replied? ==>
              r == (v.(documents := DeleteById(v.documents, id)), None)
  {
    if !confirmed then (v, None)
    else
      match server(id)
      case Rejected(message) => (v, Some("Failed to delete: " + message))
      case Replied(_) => (v.(documents := DeleteById(v.documents, id)), None)
  }

  // ---------------------------------------------------------------------------
  // Agreement with the back end
  // ---------------------------------------------------------------------------

  /** The edit form's body as the back end receives it: every field set. */
  function AsUpdate(p: UpdatePayload): DocumentsApi.DocumentUpdate {
    DocumentsApi.DocumentUpdate(DocumentsApi.Given(p.title), DocumentsApi.Given(p.content),
                                DocumentsApi.Given(p.authors), DocumentsApi.Given(p.tags))
  }

  /** An edit sent from the form always carries fields, so the back end never
      answers "No fields to update" to it and always regenerates the embedding. */
  lemma SaveAlwaysReembeds(store: seq<Document>, rawId: string, parseId: string -> Option<Id>,
                           f: EditForm, embed: string -> Vector)
    requires parseId(rawId).Some? && HasId(store, parseId(rawId).value)
    ensures var r := DocumentsApi.UpdateDocument(store, rawId, parseId, AsUpdate(EditPayload(f)), embed);
            r.Ok? && r.value.1.embedding == Some(embed(f.content)) && r.value.1.content == f.content
  {
  }

  /** When the listed documents are the store and ids are unique, replacing the
      edited entry by the returned document gives the store after the update. The
      id the list holds is the `str(_id)` string the back end sent, which parses
      back to itself. */
  lemma ReplaceMatchesServer(store: seq<Document>, rawId: string, parseId: string -> Option<Id>,
                             u: DocumentsApi.DocumentUpdate, embed: string -> Vector)
    requires UniqueIds(store)
    requires parseId(rawId) == Some(rawId)
    requires DocumentsApi.UpdateDocument(store, rawId, parseId, u, embed).Ok?
    ensures var (s', d') := DocumentsApi.UpdateDocument(store, rawId, parseId, u, embed).value;
            ReplaceById(store, rawId, d') == s'
  {
    var id := rawId;
    var (s', d') := DocumentsApi.UpdateDocument(store, rawId, parseId, u, embed).value;
    var i := IndexOfId(store, id);
    forall k | 0 <= k < |store| ensures ReplaceById(store, id, d')[k] == s'[k] {
      if store[k].id == id { UniqueIdsIndex(store, id, k); }
    }
  }

  lemma UniqueIdsTail(docs: seq<Document>)
    requires UniqueIds(docs) && |docs| > 0
    ensures UniqueIds(docs[1..])
    ensures !HasId(docs[1..], docs[0].id)
  {
    var tail := docs[1..];
    forall k | 0 <= k < |tail| ensures tail[k].id != docs[0].id {
      assert tail[k] == docs[k + 1];
    }
  }

  /** Under unique ids, filtering out the id of entry `i` removes exactly entry `i`. */
  lemma {:induction false} DeleteByIdUnique(docs: seq<Document>, i: nat)
    requires UniqueIds(docs) && i < |docs|
    ensures DeleteById(docs, docs[i].id) == docs[..i] + docs[i + 1..]
  {
    var id := docs[i].id;
    var tail := docs[1..];
    UniqueIdsTail(docs);
    if i == 0 {
      DeleteByIdAbsent(tail, id);
      assert docs[..0] + docs[1..] == tail;
    } else {
      assert tail[i - 1] == docs[i];
      DeleteByIdUnique(tail, i - 1);
      assert docs[0].id != id;
      assert DeleteById(docs, id) == [docs[0]] + DeleteById(tail, id);
      assert docs[..i] == [docs[0]] + tail[..i - 1];
      assert docs[i + 1..] == tail[i..];
    }
  }

  /** Likewise, filtering the deleted id (the list's `str(_id)` string) out of the
      list gives the store after the deletion. */
  lemma DeleteMatchesServer(store: seq<Document>, rawId: string, parseId: string -> Option<Id>)
    requires UniqueIds(store)
    requires parseId(rawId) == Some(rawId)
    requires DocumentsApi.DeleteDocument(store, rawId, parseId).Ok?
    ensures DeleteById(store, rawId) == DocumentsApi.DeleteDocument(store, rawId, parseId).value
  {
    DeleteByIdUnique(store, IndexOfId(store, rawId));
  }

  /** A document created by an upload survives an unchanged edit: its lists come
      from the back end's comma parse, so joining and re-parsing restores them. */
  lemma UploadedEditRoundTrip(v: View, form: DocumentsApi.UploadForm, extraction: DocumentsApi.Extraction,
                              embed: string -> Vector, token: string, size: nat, newId: Id, now: Timestamp)
    requires DocumentsApi.UploadDocument(form, extraction, embed, token, size, newId, now).Ok?
    ensures var d := DocumentsApi.UploadDocument(form, extraction, embed, token, size, newId, now).value;
            EditPayload(StartEdit(v, d).editForm.value) == UpdatePayload(d.title, d.authors, d.tags, d.content)
  {
    var d := DocumentsApi.UploadDocument(form, extraction, embed, token, size, newId, now).value;
    EditRoundTrip(v, d);
  }
}
