/** The upload-date repair script: every record whose `upload_date` is null or absent
    gets one and the same current time. */
module FixUploadDates {
  import opened RawRecords
  import MigrateSchema

  const DateField := "upload_date"

  /** `{"upload_date": None}`, which also selects records without the field. */
  predicate NullDate(r: Record) {
    Matches(r, FieldNull(DateField))
  }

  /** `fix_upload_dates`, with `now` the single `datetime.utcnow()` it reads. */
  function FixUploadDates(c: Collection, now: int): (r: Collection)
    ensures |r| == |c|
    ensures forall i :: 0 <= i < |c| && NullDate(c[i]) ==>
              r[i] == c[i][DateField := Date(now)]
    ensures forall i :: 0 <= i < |c| && !NullDate(c[i]) ==> r[i] == c[i]
  {
    if CountMatching(c, FieldNull(DateField)) == 0 then
      CountZeroIff(c, FieldNull(DateField));
      c
    else
      UpdateMany(c, FieldNull(DateField), SetField(DateField, Date(now)))
  }

  /** Afterwards every record has a non-null upload date, and all the repaired ones
      carry the same timestamp. */
  lemma NoNullDatesAfter(c: Collection, now: int)
    ensures forall i :: 0 <= i < |c| ==> !NullDate(FixUploadDates(c, now)[i])
    ensures forall i :: 0 <= i < |c| && NullDate(c[i]) ==> FixUploadDates(c, now)[i][DateField] == Date(now)
  {
  }

  /** A second run, at whatever time, finds nothing to repair and changes nothing. */
  lemma FixIdempotent(c: Collection, now: int, later: int)
    ensures CountMatching(FixUploadDates(c, now), FieldNull(DateField)) == 0
    ensures FixUploadDates(FixUploadDates(c, now), later) == FixUploadDates(c, now)
  {
    var f := FixUploadDates(c, now);
    NoNullDatesAfter(c, now);
    CountZeroIff(f, FieldNull(DateField));
  }

  /** Fields other than the upload date are never touched. */
  lemma FixKeepsOtherFields(c: Collection, now: int, i: nat, k: string)
    requires i < |c| && k != DateField
    ensures var r := FixUploadDates(c, now)[i];
            (k in r <==> k in c[i]) && (k in c[i] ==> r[k] == c[i][k])
  {
  }

  /** Running the migration and then the repair leaves every record with a non-null
      upload date: where the migration filled in null, the repair fills in the time. */
  lemma MigrateThenFix(c: Collection, now: int, i: nat)
    requires exists j :: 0 <= j < |c| && "text" in c[j]
    requires i < |c|
    ensures var r := FixUploadDates(MigrateSchema.MigrateDocuments(c), now)[i];
            && DateField in r && r[DateField] != Null
            && (DateField in c[i] && c[i][DateField] != Null ==> r[DateField] == c[i][DateField])
            && ((DateField !in c[i] || c[i][DateField] == Null) ==> r[DateField] == Date(now))
  {
    assert CountMatching(c, FieldExists("text")) > 0 by {
      CountZeroIff(c, FieldExists("text"));
    }
    MigrateSchema.MigrationIsPerRecord(c);
    MigrateSchema.MigrateRecordDefaults(c[i]);
  }
}
