/**
 * The job store of job_store.py: job records kept under their id in a key-value store as
 * JSON, the archive bytes kept as a base64 string. The store is a map from id to record;
 * a record is a map from field name to a JSON value, or, before it is written or after it
 * is read, to a byte buffer in `zip_bytes`.
 */
module JobStore {
  import opened Wrappers

  newtype byte = x: int | 0 <= x < 256

  /** A field value: the JSON scalars the records use, or an in-memory byte buffer. */
  datatype Field = Null | Int(i: int) | Bool(b: bool) | Str(s: string) | Buffer(bytes: seq<byte>)

  type Record = map<string, Field>

  const ZipKey: string := "zip_bytes"

  /** `json.dumps` succeeds: no field holds a buffer. */
  predicate Serialisable(rec: Record) {
    forall k :: k in rec ==> !rec[k].Buffer?
  }

  /** The text form of a byte string, one character per byte. */
  function Encode(b: seq<byte>): (s: string)
    ensures |s| == |b|
  {
    seq(|b|, i requires 0 <= i < |b| => b[i] as int as char)
  }

  /** The bytes a text form stands for, if it is one. */
  function Decode(s: string): (b: Option<seq<byte>>) {
    if forall i :: 0 <= i < |s| ==> s[i] as int < 256 then Some(seq(|s|, i requires 0 <= i < |s| => s[i] as int as byte))
    else None
  }

  /** The text form is exact both ways: decoding gives back the bytes encoded, and a text
      that decodes is the encoding of what it decodes to. */
  lemma CodecRoundTrip(b: seq<byte>, s: string)
    ensures Decode(Encode(b)) == Some(b)
    ensures Decode(s).Some? ==> Encode(Decode(s).value) == s
  {
    var e := Encode(b);
    assert forall i :: 0 <= i < |e| ==> e[i] as int < 256;
    assert Decode(e).value == b;
    if Decode(s).Some? {
      assert Encode(Decode(s).value) == s;
    }
  }

  /** The record `create_job` writes. */
  function Initial(total: int): Record {
    map["total" := Int(total), "index" := Int(0), "stage" := Str("queued"), "file" := Null,
        "done" := Bool(false), "error" := Null, ZipKey := Null]
  }

  /** The `TypeError` `b64decode` raises for a value that is not text. */
  function NotText(f: Field): string {
    "argument should be a bytes-like object or ASCII string, not '" +
    (match f case Int(_) => "int" case Bool(_) => "bool" case Buffer(_) => "BytesIO" case _ => "NoneType") + "'"
  }

  const BadBase64: string := "Incorrect padding"
  const NotSerialisable: string := "Object of type BytesIO is not JSON serializable"

  /**
   * What `get_job` makes of a stored record: a `zip_bytes` that is absent or null is left
   * as it is, a text is decoded into a buffer, and anything else fails.
   */
  function Load(raw: Record): (r: Result<Record>)
    ensures r.Ok? ==> r.value.Keys == raw.Keys && forall k :: k in raw && k != ZipKey ==> r.value[k] == raw[k]
  {
    if ZipKey !in raw || raw[ZipKey].Null? then Ok(raw)
    else match raw[ZipKey]
      case Str(s) => (match Decode(s) case None => Err(BadBase64) case Some(b) => Ok(raw[ZipKey := Buffer(b)]))
      case _ => Err(NotText(raw[ZipKey]))
  }

  /**
   * The read-modify-write of `update_job` on the record read (or none): a buffer passed
   * as `zip_bytes` is replaced by its text form, the fields passed overwrite or extend the
   * record, and writing fails when a buffer is left in it.
   */
  function Merge(current: Option<Record>, fields: Record): (r: Result<Record>) {
    var data := current.GetOr(map[]);
    var given := if ZipKey in fields && fields[ZipKey].Buffer? then fields[ZipKey := Str(Encode(fields[ZipKey].bytes))] else fields;
    var merged := data + given;
    if Serialisable(merged) then Ok(merged) else Err(NotSerialisable)
  }

  class Store {
    /** The key-value store: job id to the record as written. */
    var records: map<string, Record>

    /** Every record kept is plain JSON. */
    ghost predicate Valid()
      reads this
    {
      forall id :: id in records ==> Serialisable(records[id])
    }

    constructor()
      ensures Valid() && records == map[]
    {
      records := map[];
    }

    /** `create_job`: write the initial record, replacing any record under the id. */
    method CreateJob(id: string, total: int)
      requires Valid()
      modifies this
      ensures Valid() && records == old(records)[id := Initial(total)]
    {
      records := records[id := Initial(total)];
    }

    /** `get_job`: nothing for an unknown id, otherwise the record with its archive decoded. */
    function GetJob(id: string): (r: Result<Option<Record>>)
      reads this
      ensures id !in records ==> r == Ok(None)
      ensures id in records ==> (r.Ok? <==> Load(records[id]).Ok?) && (r.Ok? ==> r.value == Some(Load(records[id]).value))
    {
      if id !in records then Ok(None)
      else match Load(records[id])
        case Err(e) => Err(e)
        case Ok(rec) => Ok(Some(rec))
    }

    /** `update_job`: read the record, overlay the fields, write it back; on a failure the
        store is left as it was. */
    method UpdateJob(id: string, fields: Record) returns (r: Result<Record>)
      requires Valid()
      modifies this
      ensures Valid()
      ensures old(GetJob(id)).Err? ==> r == Err(old(GetJob(id)).message)
      ensures old(GetJob(id)).Ok? ==> r == Merge(old(GetJob(id)).value, fields)
      ensures r.Ok? ==> records == old(records)[id := r.value]
      ensures r.Err? ==> records == old(records)
    {
      var current := GetJob(id);
      if current.Err? {
        return Err(current.message);
      }
      r := Merge(current.value, fields);
      if r.Ok? {
        records := records[id := r.value];
      }
    }
  }

  // ----- properties -----

  /** A fresh record reads back as written: no archive to decode. */
  lemma CreateThenLoad(total: int)
    ensures Serialisable(Initial(total)) && Load(Initial(total)) == Ok(Initial(total))
    ensures Initial(total)["index"] == Int(0) && Initial(total)["stage"] == Str("queued") &&
      Initial(total)["done"] == Bool(false) && Initial(total)[ZipKey] == Null
  {
  }

  /**
   * A successful update keeps every field it was not given and sets every field it was
   * given, a buffer archive in its text form; the record holds exactly the fields read
   * and the fields given.
   */
  lemma MergeSpec(current: Option<Record>, fields: Record)
    ensures var data := current.GetOr(map[]);
      var r := Merge(current, fields);
      r.Ok? ==>
        r.value.Keys == data.Keys + fields.Keys &&
        (forall k :: k in data && k !in fields ==> r.value[k] == data[k]) &&
        (forall k :: k in fields && !fields[k].Buffer? ==> r.value[k] == fields[k]) &&
        (ZipKey in fields && fields[ZipKey].Buffer? ==> r.value[ZipKey] == Str(Encode(fields[ZipKey].bytes)))
    ensures var r := Merge(current, fields);
      r.Ok? <==> ((forall k :: k in fields && k != ZipKey ==> !fields[k].Buffer?) &&
        (forall k :: k in current.GetOr(map[]) && k !in fields ==> !current.GetOr(map[])[k].Buffer?))
  {
  }

  /** Updating an unknown id makes a record of the fields given and nothing else. */
  lemma UpdateAbsent(fields: Record)
    requires Serialisable(fields)
    ensures Merge(None, fields) == Ok(fields)
  {
    assert map[] + fields == fields;
  }

  /** A buffer written as the archive is read back as the same bytes. */
  lemma ZipRoundTrip(current: Option<Record>, fields: Record, b: seq<byte>)
    requires ZipKey in fields && fields[ZipKey] == Buffer(b)
    requires Merge(current, fields).Ok?
    ensures var rec := Merge(current, fields).value;
      Load(rec) == Ok(rec[ZipKey := Buffer(b)])
  {
    var rec := Merge(current, fields).value;
    assert rec[ZipKey] == Str(Encode(b));
    CodecRoundTrip(b, Encode(b));
  }

  /**
   * Once an archive is stored, an update that does not itself pass `zip_bytes` fails:
   * the buffer `get_job` decoded is written back as it is; passing `zip_bytes` (a buffer
   * or a JSON value) lets it through.
   */
  lemma ZipBlocksUpdate(raw: Record, fields: Record)
    requires Serialisable(raw) && ZipKey in raw && raw[ZipKey].Str? && Decode(raw[ZipKey].s).Some?
    ensures Load(raw).Ok?
    ensures ZipKey !in fields ==> Merge(Some(Load(raw).value), fields) == Err(NotSerialisable)
    ensures ZipKey in fields && (forall k :: k in fields && k != ZipKey ==> !fields[k].Buffer?) ==>
      Merge(Some(Load(raw).value), fields).Ok?
  {
    var rec := Load(raw).value;
    if ZipKey !in fields {
      assert (rec + fields)[ZipKey].Buffer?;
    }
  }
}
