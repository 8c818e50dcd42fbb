/**
 * The user's stream handler: look the video up, check the user's active rules, record the
 * viewing, then hand over to the shared serving logic. The audit store is an object the
 * handler appends to; when it is unavailable the failure is caught and the response is the same.
 */
module UserController {
  import opened Wrappers
  import opened Text
  import opened Models
  import opened Access
  import opened Streaming
  import opened IpUtils

  const WatchVideo: string := "WATCH_VIDEO"

  /** The audit collection, as far as the handler writes to it. */
  class AuditTrail {
    var entries: seq<AuditEntry>

    constructor ()
      ensures entries == []
    {
      entries := [];
    }
  }

  /** `req.ip || req.headers['x-forwarded-for'] || req.socket.remoteAddress` */
  function CallerIp(reqIp: Option<string>, forwardedFor: Option<string>, remoteAddress: Option<string>): (r: Option<string>)
    ensures !Falsy(reqIp) ==> r == reqIp
    ensures Falsy(reqIp) && !Falsy(forwardedFor) ==> r == forwardedFor
    ensures Falsy(reqIp) && Falsy(forwardedFor) ==> r == remoteAddress
  {
    if !Falsy(reqIp) then reqIp else if !Falsy(forwardedFor) then forwardedFor else remoteAddress
  }

  /** The entry written when `user` is allowed to watch `video`. */
  function WatchEntry(user: Id, video: Video, ip: Option<string>): (e: AuditEntry)
    ensures e.action == WatchVideo && e.user == user && e.videoId == video.id && e.title == video.title
    ensures e.ip == NormalizeIp(ip)
  {
    AuditEntry(WatchVideo, user, NormalizeIp(ip), video.id, video.title)
  }

  /**
   * `streamVideo`: `videos` is the video collection by id, `table` the access-rule collection,
   * `files` the uploads directory, `now` the handler's clock reading, `range` the Range header,
   * and `auditAvailable` whether the audit write succeeds.
   */
  method StreamVideo(
    videos: map<Id, Video>, table: seq<AccessRule>, files: map<string, seq<byte>>,
    user: Id, videoId: Id, now: Timestamp,
    reqIp: Option<string>, forwardedFor: Option<string>, remoteAddress: Option<string>,
    range: Option<string>, audit: AuditTrail, auditAvailable: bool)
    returns (resp: Response)
    requires videoId in videos && HasAccess(ActiveRules(table, user, now), videos[videoId]) ==>
      RangeFitsVideo(videos[videoId], files, range)
    modifies audit
    ensures videoId !in videos ==>
      resp == Message(404, "Video not found") && audit.entries == old(audit.entries)
    ensures videoId in videos && !HasAccess(ActiveRules(table, user, now), videos[videoId]) ==>
      resp == Message(403, "Access denied or expired") && audit.entries == old(audit.entries)
    ensures videoId in videos && HasAccess(ActiveRules(table, user, now), videos[videoId]) ==>
      audit.entries == old(audit.entries) +
        (if auditAvailable then [WatchEntry(user, videos[videoId], CallerIp(reqIp, forwardedFor, remoteAddress))] else []) &&
      resp == ServeVideo(videos[videoId], files, range, "Video file not found on server")
  {
    if videoId !in videos {
      return Message(404, "Video not found");
    }
    var video := videos[videoId];

    var rules := ActiveRules(table, user, now);
    if !HasAccess(rules, video) {
      return Message(403, "Access denied or expired");
    }

    if auditAvailable {
      audit.entries := audit.entries + [WatchEntry(user, video, CallerIp(reqIp, forwardedFor, remoteAddress))];
    }

    if IsRemote(video) {
      return Redirect(video.videoUrl.value);
    }
    if StorageKey(video) !in files {
      return Message(404, "Video file not found on server");
    }
    resp := ServeFile(files[StorageKey(video)], range);
  }

  /** Access is decided by the matching rules alone: with no active rule the answer is 403. */
  lemma DeniedWithoutActiveRules(table: seq<AccessRule>, user: Id, now: Timestamp, video: Video)
    requires forall r :: r in table && r.user == user ==> r.expiresAt <= now
    ensures !HasAccess(ActiveRules(table, user, now), video)
  {
    var active := ActiveRules(table, user, now);
    HasAccessIff(active, video);
  }

  /** A rule whose expiry equals the current time no longer grants anything; one a moment later does. */
  lemma ExpiryIsStrict(rule: AccessRule, video: Video)
    requires Matches(rule, video)
    ensures !HasAccess(ActiveRules([rule], rule.user, rule.expiresAt), video)
    ensures HasAccess(ActiveRules([rule], rule.user, rule.expiresAt - 1), video)
  {
    assert ActiveRules([rule], rule.user, rule.expiresAt) == [];
    assert ActiveRules([rule], rule.user, rule.expiresAt - 1) == [rule];
  }
}
