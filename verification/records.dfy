/** The document entity as the back end stores it and the front end receives it. */
module Records {
  import opened Common

  /** The string form of a store-assigned object id; opaque to the model. */
  type Id = string

  /** A point in time, as an opaque count (the back end stamps `datetime.utcnow()`). */
  type Timestamp = int

  /** An embedding vector; the back end's floats become reals. */
  type Vector = seq<real>

  /** The `metadata` sub-record written by the file upload. */
  datatype FileMeta = FileMeta(originalFilename: string, fileSize: nat, fileType: string)

  /** A stored document. `embedding` is `content_embedding`, absent when the field
      is missing or null; `uploadDate` is absent when it is null. */
  datatype Document = Document(
    id: Id,
    title: string,
    content: string,
    authors: seq<string>,
    tags: seq<string>,
    uploadDate: Option<Timestamp>,
    embedding: Option<Vector>,
    filePath: Option<string>,
    metadata: Option<FileMeta>)

  /** No two documents of the collection share an id, as the store guarantees. */
  predicate UniqueIds(docs: seq<Document>) {
    forall i, j :: 0 <= i < j < |docs| ==> docs[i].id != docs[j].id
  }

  predicate HasId(docs: seq<Document>, id: Id) {
    exists i :: 0 <= i < |docs| && docs[i].id == id
  }

  /** The position of the first document with the given id, or -1: the document
      `find_one({"_id": id})` and `update_one`/`delete_one` on that id address. */
  function IndexOfId(docs: seq<Document>, id: Id): (r: int)
    ensures -1 <= r < |docs|
    ensures r >= 0 ==> docs[r].id == id
    ensures forall k :: 0 <= k < |docs| && (r < 0 || k < r) ==> docs[k].id != id
    ensures r < 0 <==> !HasId(docs, id)
  {
    IndexFrom(docs, id, 0)
  }

  function IndexFrom(docs: seq<Document>, id: Id, i: nat): (r: int)
    requires i <= |docs|
    ensures r == -1 || i <= r < |docs|
    ensures r >= 0 ==> docs[r].id == id
    ensures forall k :: i <= k < |docs| && (r < 0 || k < r) ==> docs[k].id != id
    decreases |docs| - i
  {
    if i == |docs| then -1
    else if docs[i].id == id then i
    else IndexFrom(docs, id, i + 1)
  }

  /** `find_one({"_id": id})`. */
  function FindById(docs: seq<Document>, id: Id): (r: Option<Document>)
    ensures r.None? <==> !HasId(docs, id)
    ensures r.Some? ==> r.value in docs && r.value.id == id
  {
    var i := IndexOfId(docs, id);
    if i < 0 then None else Some(docs[i])
  }

  /** Under unique ids the first document with an id is the only one. */
  lemma UniqueIdsIndex(docs: seq<Document>, id: Id, k: nat)
    requires UniqueIds(docs)
    requires k < |docs| && docs[k].id == id
    ensures IndexOfId(docs, id) == k
  {
  }
}
