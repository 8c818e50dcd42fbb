/**
 * The documents the handlers read and write, and the HTTP responses they send.
 * Store-assigned timestamps are abstract integers (milliseconds, compared as `Date` values
 * are); a Mongo ObjectId is represented by its string form, which is how the stream handler
 * compares ids (`toString()`).
 */
module Models {
  import opened Wrappers

  type Id = string

  type Timestamp = int

  newtype byte = x: int | 0 <= x < 256

  /** A video record: the storage reference is `videoUrl` when set, else the uploaded `filename`. */
  datatype Video = Video(
    id: Id,
    title: string,
    filename: string,
    videoUrl: Option<string>,
    domain: Id,
    topic: Id,
    year: int,
    month: int,
    day: int,
    createdAt: Timestamp)

  /**
   * A grant to one user. Every scope field is optional; `year`, `month` and `day` are plain
   * numbers, so `Some(0)` is a stored value that JavaScript nevertheless reads as false.
   */
  datatype AccessRule = AccessRule(
    id: Id,
    user: Id,
    domain: Option<Id>,
    topic: Option<Id>,
    year: Option<int>,
    month: Option<int>,
    day: Option<int>,
    expiresAt: Timestamp,
    isPermanent: bool)

  datatype Domain = Domain(id: Id, name: string)

  datatype Topic = Topic(id: Id, name: string, domain: Id)

  datatype User = User(id: Id, email: string, role: string, status: string)

  /** An audit record with the WATCH_VIDEO detail payload `{ videoId, title }`. */
  datatype AuditEntry = AuditEntry(action: string, user: Id, ip: string, videoId: Id, title: string)

  /** What a handler sends back. */
  datatype Response =
    | Message(status: nat, message: string)      // res.status(status).json({ message })
    | UserBody(user: User)                       // res.json(user), status 200
    | RuleBody(status: nat, rule: AccessRule)    // res.status(status).json(rule)
    | Redirect(location: string)                 // res.redirect(location), status 302
    | Stream(
        status: nat,
        contentRange: Option<string>,
        acceptRanges: Option<string>,
        contentLength: int,
        contentType: string,
        body: seq<byte>)                         // res.writeHead(status, headers) + piped bytes
    | Thrown                                     // the handler's promise rejects before it answers

  const MillisPerDay: int := 24 * 60 * 60 * 1000
}
