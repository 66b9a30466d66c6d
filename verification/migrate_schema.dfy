/** The schema migration script: when some record still has the old `text` field,
    rename `text` to `content` and `abstract_embedding` to `content_embedding`, then
    give every record lacking them a title, author and tag lists and an upload date. */
module MigrateSchema {
  import opened RawRecords

  const DefaultTitle := "Untitled Document"

  /** The fields the migration reads or writes. */
  const Touched: set<string> :=
    {"text", "content", "abstract_embedding", "content_embedding", "title", "authors", "tags", "upload_date"}

  /** `update_many({from: {"$exists": True}}, {"$rename": {from: to}})`. */
  function RenamePass(c: Collection, from: string, to: string): (r: Collection)
    requires from != to
    ensures |r| == |c|
    ensures forall i :: 0 <= i < |c| ==> r[i] == Moved(c[i], from, to)
  {
    UpdateMany(c, FieldExists(from), RenameField(from, to))
  }

  /** `update_many({key: {"$exists": False}}, {"$set": {key: v}})`. */
  function DefaultPass(c: Collection, key: string, v: Value): (r: Collection)
    ensures |r| == |c|
    ensures forall i :: 0 <= i < |c| ==> r[i] == Defaulted(c[i], key, v)
  {
    UpdateMany(c, FieldMissing(key), SetField(key, v))
  }

  /** The two rename calls. */
  function RenameAll(c: Collection): (r: Collection)
    ensures |r| == |c|
    ensures forall i :: 0 <= i < |c| ==> r[i] == Renamed(c[i])
  {
    RenamePass(RenamePass(c, "text", "content"), "abstract_embedding", "content_embedding")
  }

  /** The four default calls. */
  function DefaultAll(c: Collection): (r: Collection)
    ensures |r| == |c|
    ensures forall i :: 0 <= i < |c| ==> r[i] == WithDefaults(c[i])
  {
    var c3 := DefaultPass(c, "title", Str(DefaultTitle));
    var c4 := DefaultPass(c3, "authors", Arr([]));
    var c5 := DefaultPass(c4, "tags", Arr([]));
    DefaultPass(c5, "upload_date", Null)
  }

  /** The six `update_many` calls, in the order the script makes them. */
  function RunMigration(c: Collection): (r: Collection)
    ensures |r| == |c|
  {
    DefaultAll(RenameAll(c))
  }

  /** `migrate_documents`: nothing at all happens when no record has `text`. */
  function MigrateDocuments(c: Collection): (r: Collection)
    ensures |r| == |c|
    ensures CountMatching(c, FieldExists("text")) == 0 ==> r == c
  {
    if CountMatching(c, FieldExists("text")) == 0 then c else RunMigration(c)
  }

  /** One rename pass on one record. */
  function Moved(r: Record, from: string, to: string): Record {
    if Matches(r, FieldExists(from)) then Apply(r, RenameField(from, to)) else r
  }

  lemma MovedFacts(r: Record, from: string, to: string)
    requires from != to
    ensures var r' := Moved(r, from, to);
            && from !in r'
            && (from in r ==> to in r' && r'[to] == r[from])
            && (from !in r ==> r' == r)
            && forall k :: k != from && k != to ==> (k in r' <==> k in r) && (k in r ==> r'[k] == r[k])
  {
  }

  /** One default pass on one record. */
  function Defaulted(r: Record, key: string, v: Value): Record {
    if Matches(r, FieldMissing(key)) then Apply(r, SetField(key, v)) else r
  }

  lemma DefaultedFacts(r: Record, key: string, v: Value)
    ensures var r' := Defaulted(r, key, v);
            && key in r' && r'[key] == (if key in r then r[key] else v)
            && forall k :: k != key ==> (k in r' <==> k in r) && (k in r ==> r'[k] == r[k])
  {
  }

  /** The two renames on one record. */
  function Renamed(r: Record): Record {
    Moved(Moved(r, "text", "content"), "abstract_embedding", "content_embedding")
  }

  /** The four defaults on one record. */
  function WithDefaults(r: Record): Record {
    Defaulted(Defaulted(Defaulted(Defaulted(r, "title", Str(DefaultTitle)), "authors", Arr([])), "tags", Arr([])),
              "upload_date", Null)
  }

  lemma RenamedFacts(r: Record)
    ensures var r' := Renamed(r);
            && "text" !in r' && "abstract_embedding" !in r'
            && ("text" in r ==> "content" in r' && r'["content"] == r["text"])
            && ("text" !in r ==> ("content" in r' <==> "content" in r) && ("content" in r ==> r'["content"] == r["content"]))
            && ("abstract_embedding" in r ==> "content_embedding" in r' && r'["content_embedding"] == r["abstract_embedding"])
            && ("abstract_embedding" !in r ==>
                  ("content_embedding" in r' <==> "content_embedding" in r) &&
                  ("content_embedding" in r ==> r'["content_embedding"] == r["content_embedding"]))
  {
    MovedFacts(r, "text", "content");
    MovedFacts(Moved(r, "text", "content"), "abstract_embedding", "content_embedding");
  }

  lemma RenamedKeeps(r: Record, k: string)
    requires k != "text" && k != "content" && k != "abstract_embedding" && k != "content_embedding"
    ensures var r' := Renamed(r);
            (k in r' <==> k in r) && (k in r ==> r'[k] == r[k])
  {
    MovedFacts(r, "text", "content");
    MovedFacts(Moved(r, "text", "content"), "abstract_embedding", "content_embedding");
  }

  lemma WithDefaultsFacts(r: Record)
    ensures var r' := WithDefaults(r);
            && "title" in r' && r'["title"] == (if "title" in r then r["title"] else Str(DefaultTitle))
            && "authors" in r' && r'["authors"] == (if "authors" in r then r["authors"] else Arr([]))
            && "tags" in r' && r'["tags"] == (if "tags" in r then r["tags"] else Arr([]))
            && "upload_date" in r' && r'["upload_date"] == (if "upload_date" in r then r["upload_date"] else Null)
  {
    var r3 := Defaulted(r, "title", Str(DefaultTitle));
    var r4 := Defaulted(r3, "authors", Arr([]));
    var r5 := Defaulted(r4, "tags", Arr([]));
    DefaultedFacts(r, "title", Str(DefaultTitle));
    DefaultedFacts(r3, "authors", Arr([]));
    DefaultedFacts(r4, "tags", Arr([]));
    DefaultedFacts(r5, "upload_date", Null);
  }

  lemma WithDefaultsKeeps(r: Record, k: string)
    requires k != "title" && k != "authors" && k != "tags" && k != "upload_date"
    ensures var r' := WithDefaults(r);
            (k in r' <==> k in r) && (k in r ==> r'[k] == r[k])
  {
    var r3 := Defaulted(r, "title", Str(DefaultTitle));
    var r4 := Defaulted(r3, "authors", Arr([]));
    var r5 := Defaulted(r4, "tags", Arr([]));
    DefaultedFacts(r, "title", Str(DefaultTitle));
    DefaultedFacts(r3, "authors", Arr([]));
    DefaultedFacts(r4, "tags", Arr([]));
    DefaultedFacts(r5, "upload_date", Null);
  }

  /** The per-record transformation the migration amounts to. */
  function MigrateRecord(r: Record): Record {
    WithDefaults(Renamed(r))
  }

  /** The old fields are gone, their values under the new names; where an old field
      was absent, the new one is as it was. */
  lemma MigrateRecordRenames(r: Record)
    ensures var r' := MigrateRecord(r);
            && "text" !in r' && "abstract_embedding" !in r'
            && ("text" in r ==> "content" in r' && r'["content"] == r["text"])
            && ("text" !in r ==> ("content" in r' <==> "content" in r) && ("content" in r ==> r'["content"] == r["content"]))
            && ("abstract_embedding" in r ==> "content_embedding" in r' && r'["content_embedding"] == r["abstract_embedding"])
            && ("abstract_embedding" !in r ==>
                  ("content_embedding" in r' <==> "content_embedding" in r) &&
                  ("content_embedding" in r ==> r'["content_embedding"] == r["content_embedding"]))
  {
    var r2 := Renamed(r);
    RenamedFacts(r);
    WithDefaultsKeeps(r2, "text");
    WithDefaultsKeeps(r2, "abstract_embedding");
    WithDefaultsKeeps(r2, "content");
    WithDefaultsKeeps(r2, "content_embedding");
  }

  /** A missing title, author list, tag list or upload date gets its default; a
      present one keeps its value. */
  lemma MigrateRecordDefaults(r: Record)
    ensures var r' := MigrateRecord(r);
            && "title" in r' && r'["title"] == (if "title" in r then r["title"] else Str(DefaultTitle))
            && "authors" in r' && r'["authors"] == (if "authors" in r then r["authors"] else Arr([]))
            && "tags" in r' && r'["tags"] == (if "tags" in r then r["tags"] else Arr([]))
            && "upload_date" in r' && r'["upload_date"] == (if "upload_date" in r then r["upload_date"] else Null)
  {
    WithDefaultsFacts(Renamed(r));
    RenamedKeeps(r, "title");
    RenamedKeeps(r, "authors");
    RenamedKeeps(r, "tags");
    RenamedKeeps(r, "upload_date");
  }

  /** Fields the migration does not name are left alone. */
  lemma MigrateRecordKeepsOthers(r: Record, k: string)
    requires k !in Touched
    ensures var r' := MigrateRecord(r);
            (k in r' <==> k in r) && (k in r ==> r'[k] == r[k])
  {
    RenamedKeeps(r, k);
    WithDefaultsKeeps(Renamed(r), k);
  }

  /** When the migration runs, it transforms every record on its own, in place. */
  lemma MigrationIsPerRecord(c: Collection)
    requires CountMatching(c, FieldExists("text")) > 0
    ensures forall i :: 0 <= i < |c| ==> MigrateDocuments(c)[i] == MigrateRecord(c[i])
  {
    assert MigrateDocuments(c) == DefaultAll(RenameAll(c));
  }

  /** After a run, no record has the old `text` field. */
  lemma NoTextAfterMigration(c: Collection)
    ensures forall i :: 0 <= i < |c| ==> "text" !in MigrateDocuments(c)[i]
  {
    if CountMatching(c, FieldExists("text")) == 0 {
      CountZeroIff(c, FieldExists("text"));
    } else {
      MigrationIsPerRecord(c);
      forall i | 0 <= i < |c| ensures "text" !in MigrateDocuments(c)[i] {
        MigrateRecordRenames(c[i]);
      }
    }
  }

  /** A second run finds nothing to migrate and hits the early exit. */
  lemma MigrationIdempotent(c: Collection)
    ensures CountMatching(MigrateDocuments(c), FieldExists("text")) == 0
    ensures MigrateDocuments(MigrateDocuments(c)) == MigrateDocuments(c)
  {
    var m := MigrateDocuments(c);
    NoTextAfterMigration(c);
    CountZeroIff(m, FieldExists("text"));
  }

  /** Without any `text` field the defaults are not applied either: a record with no
      title stays without one. */
  lemma EarlyExitSkipsDefaults(c: Collection)
    requires forall i :: 0 <= i < |c| ==> "text" !in c[i]
    ensures MigrateDocuments(c) == c
  {
    CountZeroIff(c, FieldExists("text"));
  }
}
