/**
 * The JavaScript values the plugin reads and writes: metalsmith file objects
 * are dictionaries from property names to values, commits and blobs come from
 * the repository, and option values are tested for JavaScript truthiness.
 */
module Values {

  /** Conventional Option and Result wrappers. */
  datatype Option<+T> = None | Some(value: T)

  datatype Result<+T, +E> = Success(value: T) | Failure(error: E)

  /** One octet of a Node.js Buffer. */
  newtype byte = x: int | 0 <= x < 256

  /**
   * A JavaScript value as far as the plugin touches it.  `Bytes` is a Buffer
   * (an object), `Date` a Date object given by its time stamp.
   */
  datatype Value =
    | Undefined
    | Null
    | Bool(b: bool)
    | Num(n: int)
    | Str(s: string)
    | Bytes(bytes: seq<byte>)
    | Date(millis: int)
    | List(items: seq<Value>)
    | Obj(fields: map<string, Value>)

  /** A plain JavaScript object: a dictionary of own properties. */
  type Record = map<string, Value>

  /**
   * JavaScript truthiness: `undefined`, `null`, `false`, `0` and `""` are
   * falsy; every object (a Buffer, a Date, an array, a plain object) is truthy.
   */
  predicate Truthy(v: Value)
    ensures v.Undefined? || v.Null? ==> !Truthy(v)
    ensures v.Bytes? || v.Date? || v.List? || v.Obj? ==> Truthy(v)
  {
    match v
    case Undefined => false
    case Null => false
    case Bool(b) => b
    case Num(n) => n != 0
    case Str(s) => s != ""
    case _ => true
  }

  /** A commit as the plugin reads it: its id, message, author name and date. */
  datatype Commit = Commit(id: string, message: string, author: string, date: int)

  /** A blob: its object id (a SHA in hexadecimal) and its content. */
  datatype Blob = Blob(id: string, content: seq<byte>)

  /** One entry of a file's history: the commit and the file's blob at it. */
  datatype RawVersion = RawVersion(commit: Commit, blob: Blob)

  /**
   * The commit summary the plugin attaches to every version: an object with
   * the keys `id`, `message`, `author` and `date`.
   */
  function CommitSummary(c: Commit): (r: Value)
    ensures r.Obj? && r.fields.Keys == {"id", "message", "author", "date"}
    ensures r.fields["id"] == Str(c.id) && r.fields["message"] == Str(c.message)
    ensures r.fields["author"] == Str(c.author) && r.fields["date"] == Date(c.date)
  {
    Obj(map["id" := Str(c.id), "message" := Str(c.message),
            "author" := Str(c.author), "date" := Date(c.date)])
  }

  /** Distinct commits have distinct summaries, so a summary identifies its commit. */
  lemma CommitSummaryInjective(c: Commit, d: Commit)
    requires CommitSummary(c) == CommitSummary(d)
    ensures c == d
  {
    assert CommitSummary(c).fields["id"] == CommitSummary(d).fields["id"];
    assert CommitSummary(c).fields["message"] == CommitSummary(d).fields["message"];
    assert CommitSummary(c).fields["author"] == CommitSummary(d).fields["author"];
    assert CommitSummary(c).fields["date"] == CommitSummary(d).fields["date"];
  }

  /**
   * The option default `opts.layout || null`: a falsy layout becomes `null`,
   * a truthy one is kept.
   */
  function NormalizeLayout(v: Value): (r: Value)
    ensures Truthy(r) == Truthy(v)
    ensures Truthy(v) ==> r == v
    ensures !Truthy(v) ==> r == Null
  {
    if Truthy(v) then v else Null
  }
}
