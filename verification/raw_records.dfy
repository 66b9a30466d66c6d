/** Stored documents as the maintenance scripts see them: schema-less records of named
    fields, and the part of the store's query and update language they use. */
module RawRecords {

  /** A field value. Only the distinctions the scripts rely on are kept: null, an
      array, a date, and everything else. */
  datatype Value =
    | Null
    | Str(s: string)
    | Date(t: int)
    | Arr(items: seq<Value>)
    | Other

  /** A stored record: field name to value; a field is absent when it is not a key. */
  type Record = map<string, Value>

  type Collection = seq<Record>

  /** The filters the scripts use. */
  datatype Filter =
    | FieldExists(key: string)   // {key: {"$exists": True}}
    | FieldMissing(key: string)  // {key: {"$exists": False}}
    | FieldNull(key: string)     // {key: None}: null or absent

  /** The update operators the scripts use. */
  datatype Update =
    | RenameField(from: string, to: string)  // {"$rename": {from: to}}
    | SetField(key: string, value: Value)    // {"$set": {key: value}}

  predicate Matches(r: Record, f: Filter) {
    match f
    case FieldExists(k) => k in r
    case FieldMissing(k) => k !in r
    case FieldNull(k) => k !in r || r[k] == Null
  }

  /** `$rename` moves the value to the new name, replacing any value already there,
      and does nothing when the field is absent; `$set` writes the field. */
  function Apply(r: Record, u: Update): (r': Record)
    ensures u.SetField? ==> u.key in r' && r'[u.key] == u.value
    ensures u.SetField? ==> forall k :: k != u.key ==> (k in r' <==> k in r) && (k in r ==> r'[k] == r[k])
    ensures u.RenameField? && u.from != u.to && u.from in r ==>
              u.from !in r' && u.to in r' && r'[u.to] == r[u.from]
    ensures u.RenameField? && u.from !in r ==> r' == r
    ensures u.RenameField? ==>
              forall k :: k != u.from && k != u.to ==> (k in r' <==> k in r) && (k in r ==> r'[k] == r[k])
  {
    match u
    case SetField(k, v) => r[k := v]
    case RenameField(a, b) =>
      if a in r && a != b then (r - {a})[b := r[a]] else r
  }

  /** `update_many(filter, update)`: every matching record updated in place, the
      others untouched, the order of the collection kept. */
  function UpdateMany(c: Collection, f: Filter, u: Update): (r: Collection)
    ensures |r| == |c|
    ensures forall i :: 0 <= i < |c| ==> r[i] == if Matches(c[i], f) then Apply(c[i], u) else c[i]
  {
    if |c| == 0 then []
    else [if Matches(c[0], f) then Apply(c[0], u) else c[0]] + UpdateMany(c[1..], f, u)
  }

  /** `count_documents(filter)`. */
  function CountMatching(c: Collection, f: Filter): (n: nat)
    ensures n <= |c|
  {
    if |c| == 0 then 0
    else (if Matches(c[0], f) then 1 else 0) + CountMatching(c[1..], f)
  }

  /** The count is zero exactly when no record matches. */
  lemma {:induction false} CountZeroIff(c: Collection, f: Filter)
    ensures CountMatching(c, f) == 0 <==> forall i :: 0 <= i < |c| ==> !Matches(c[i], f)
  {
    if |c| > 0 {
      CountZeroIff(c[1..], f);
      assert forall i :: 1 <= i < |c| ==> c[i] == c[1..][i - 1];
    }
  }
}
