# Video access control backend: a Dafny model of its decision code

The backend serves a video catalog to users. Each user holds time-limited **access rules**, and a
rule scopes a grant by domain, topic, year, month and day. The backend has three kinds of
decision code, and this project models and proves each of them:

- **Access-rule evaluation.** A rule is *active* while its `expiresAt` lies strictly after the
  current time; `isPermanent` is never consulted. A scope field that is unset, null or 0 is a
  wildcard. A user may watch a video when one of their active rules matches it. The listing
  path expresses the same thing as a store query: an OR of one condition object per rule. The
  model proves that the two paths agree on every video.
- **Video delivery,** shared by the user stream and the admin preview. A missing record gives
  404, and a remote storage reference (`http…`) gives a redirect. A missing local file gives
  404. A file is otherwise served in full (200) or, for a `Range: bytes=S-E` header, as that
  window (206). The 206 answer carries `Content-Range: bytes S-E/size` and
  `Content-Length = E-S+1`, following sections 2.1, 4.1 and 4.2 of RFC 7233. The file is a
  `seq<byte>` and the body is a slice of it.
- **Administration.**
  - Creating, deleting and cascade-deleting access rules, and updating a user's status, are
    methods of a class over the user map and the rule sequence.
  - The preview stream serves any video without looking at rules.
  - The upload filter and the stored-file naming rule are pure functions over strings.

Caller addresses are normalised before they are written to the audit log. The IPv6 loopback
becomes `127.0.0.1`, and an IPv4-mapped address (section 2.5.5.2 of RFC 4291) loses its
`::ffff:` prefix.

The JavaScript built-ins the handlers use are written out in `Text`: `startsWith`, substring
search, ASCII `toLowerCase`, `parseInt`, `split`, first-occurrence `replace` and decimal
rendering. Node's POSIX `path.extname` is written out in `Uploads`. The store, the filesystem,
the clock and the request are parameters: the collections are sequences and maps, the uploads
directory is a map from names to byte sequences, and `now` is an integer in milliseconds.

Files, one module each: `wrappers.dfy`, `text.dfy`, `models.dfy`, `access.dfy`, `catalog.dfy`,
`streaming.dfy`, `iputils.dfy`, `usercontroller.dfy`, `admincontroller.dfy`, `uploads.dfy`.

## Model

| member | source | states |
|---|---|---|
| Access.ActiveRules | controllers/userController.js:68-71 | a rule is selected iff it belongs to the user and its `expiresAt` is strictly after `now`; nothing else is consulted |
| Access.PermanentRuleStillExpires | models/AccessRule.js:20-27 | a rule marked permanent whose expiry has passed is not active |
| Access.HasAccessIff | controllers/userController.js:73-81 | `rules.some(match)` holds iff some rule of the list matches the video |
| Access.NoRulesNoAccess | controllers/userController.js:83-85 | with no rule, access is refused |
| Access.WildcardRuleMatchesEverything | controllers/userController.js:74-80 | a rule with no truthy scope field matches every video |
| Access.ConditionAgreesWithMatch | controllers/userController.js:32-40 | a video satisfies the condition object built from a rule iff the rule matches it on the stream path |
| Access.EmptyConditionMatchesEverything | controllers/userController.js:33-39 | the empty condition object matches every video |
| Access.BuildCondition | controllers/userController.js:33-39 | the object holds exactly the rule's truthy scope fields with the rule's values, and selects exactly the videos the rule matches |
| Access.BuildOrConditions | controllers/userController.js:32-40 | one condition per rule in rule order, and their OR selects a video iff some rule grants it |
| Catalog.AccessibleVideos | controllers/userController.js:73-81 | the stored videos the per-video access decision grants, by membership, drawn from the store |
| Catalog.FindVideos | controllers/userController.js:42 | a video is in the query result exactly when it is stored and satisfies one of the conditions |
| Catalog.FindAgreesWithAccess | controllers/userController.js:32-44 | the OR query over the built conditions returns exactly the videos the stream path would grant, in store order |
| Catalog.NothingAccessibleWithoutRules | controllers/userController.js:20-22 | with no rules no video is accessible |
| Catalog.InsertNewestFirst | controllers/userController.js:44 | inserting into a newest-first list keeps it newest first and adds exactly the one video |
| Catalog.SortNewestFirst | controllers/userController.js:44 | `.sort('-createdAt')` yields a permutation ordered by descending `createdAt` |
| Catalog.DomainsOf | controllers/userController.js:47 | a domain is listed iff it is stored and some returned video refers to it |
| Catalog.TopicsOf | controllers/userController.js:48 | a topic is listed iff it is stored and some returned video refers to it |
| Catalog.GetAccessibleContent | controllers/userController.js:10-55 | no active rules gives the empty catalog; otherwise the videos are a newest-first permutation of the accessible videos, and the domains and topics are exactly those the videos refer to; the handler fails iff a returned video refers to a missing domain or topic |
| Streaming.ServeFile | controllers/userController.js:114-141 | no range: 200 with the whole file; a range: 206 with `Accept-Ranges: bytes`, `Content-Range` for the parsed window, `Content-Length = end-start+1` and exactly the bytes of the window; always `video/mp4` with the length of the body |
| Streaming.ServeVideo | controllers/userController.js:102-112 | a remote reference redirects before any file is looked up; a missing local file gives 404 with the handler's message; otherwise the answer is exactly `ServeFile` of the stored bytes and the Range header |
| Streaming.RedirectIgnoresFilesAndRange | controllers/userController.js:103-105 | for a remote reference the answer depends neither on the files present nor on the Range header |
| Streaming.ParseClosedRange | controllers/userController.js:119-121 | `bytes=S-E` is read as the window S to E |
| Streaming.ParseOpenRange | controllers/userController.js:121 | an empty end part means the last byte of the file |
| Streaming.ParseIgnoresTrailingParts | controllers/userController.js:119-121 | whatever follows a second `-` is ignored |
| Streaming.SuffixRangeIsNotParsed | controllers/userController.js:119-120 | a suffix range `bytes=-N` yields no start (NaN in the handler) |
| Streaming.ServeClosedRange | controllers/userController.js:118-133 | a window inside the file is answered 206 with its Content-Range, its length and its bytes |
| Streaming.ServeOpenRange | controllers/userController.js:121-133 | `bytes=S-` is answered with every byte from S to the end of the file |
| Streaming.ServeFirstHundredBytes | controllers/userController.js:118-133 | `bytes=0-99` on 1000 bytes gives `bytes 0-99/1000`, length 100 and the first 100 bytes |
| Streaming.ContentRangeRoundTrip | controllers/userController.js:126 | a client reading `Content-Range` recovers exactly the start, the end and the file size |
| Text.ParseIntDecimal | controllers/userController.js:120-121 | `parseInt` of a rendered number followed by a non-digit gives the number back |
| Text.DecimalRoundTrip | controllers/userController.js:126 | the decimal rendering denotes the number rendered |
| Text.SplitAtFirstSeparator | controllers/userController.js:119 | `split` cuts at the first separator and continues on the rest |
| Text.RemoveLeading | controllers/userController.js:119 | replacing the first `bytes=` of a header that starts with it leaves the rest |
| IpUtils.NormalizeIp | utils/ipUtils.js:1-10 | a falsy address gives "Unknown"; `::1` gives `127.0.0.1`; a `::ffff:` address gives the rest, which the prefix restores to the input; any other address is returned as is |
| IpUtils.MappedAddressUnwrapped | utils/ipUtils.js:6-8 | the address embedded after `::ffff:` is recovered exactly |
| IpUtils.NormalizeIpShape | utils/ipUtils.js:1-10 | the result is "Unknown", the IPv4 loopback, the input, or the input without its mapped prefix |
| IpUtils.UnknownIff | utils/ipUtils.js:2 | "Unknown" is recorded iff the address is falsy or spells "Unknown" with or without the mapped prefix |
| IpUtils.LoopbackIff | utils/ipUtils.js:4 | `127.0.0.1` is recorded iff the address is `::1`, `127.0.0.1` or `::ffff:127.0.0.1` |
| UserController.CallerIp | controllers/userController.js:92 | the first truthy of the request address, the forwarded header and the socket address |
| UserController.WatchEntry | controllers/userController.js:89-97 | a WATCH_VIDEO record for the user, the normalised address, the video's id and title |
| UserController.StreamVideo | controllers/userController.js:57-141 | unknown video: 404 and no audit entry; no matching active rule: 403 "Access denied or expired" and no audit entry; otherwise one WATCH_VIDEO entry (none when the audit write fails) and the shared serving answer. Only a granted request needs a Range header the serving code handles; refusals are answered whatever the header says |
| UserController.DeniedWithoutActiveRules | controllers/userController.js:68-85 | a user without unexpired rules is refused every video |
| UserController.ExpiryIsStrict | controllers/userController.js:68-71 | a rule expiring exactly now grants nothing; one expiring a millisecond later grants |
| AdminController.AdminStream | controllers/adminController.js:202-236 | unknown id: 404 "Video not found"; a remote reference redirects; a missing file gives 404 "File not found"; otherwise the same 200/206 answer as the user stream; no rule is read |
| AdminController.AdminStreamAgreesWithGrantedStream | controllers/adminController.js:202-213 | wherever a file or a redirect is served, the preview answers what the user stream answers a granted user |
| AdminController.WithoutRule | controllers/adminController.js:191 | deleting an id that no rule carries changes nothing; the result is drawn from the table and keeps ids unique |
| AdminController.WithoutRuleRemovesFirst | controllers/adminController.js:191 | `deleteOne` removes the first rule with the id and keeps the others in order |
| AdminController.DeleteRuleRemovesOnlyThatRule | controllers/adminController.js:190-193 | with unique ids, a rule remains iff it was there and does not carry the id |
| AdminController.DeleteRuleKeepsOtherUsersRules | controllers/adminController.js:190-193 | deleting one user's rule leaves every other user's active rules unchanged |
| AdminController.RulesNotOf | controllers/adminController.js:77 | `deleteMany({ user })` keeps a rule iff it belongs to another user, and keeps ids unique |
| AdminController.DeleteUserRevokesAccess | controllers/adminController.js:69-77 | after the cascade the deleted user has no active rule and no access, at any time |
| AdminController.DeleteUserKeepsOthersRules | controllers/adminController.js:77 | the cascade leaves every other user's active rules unchanged |
| AdminController.CreatedRuleActiveIff | controllers/adminController.js:169-180 | a created rule is active at creation iff its duration in days is positive |
| AdminController.CreatedRuleGrantsAccess | controllers/adminController.js:172-180 | until it expires, a created rule grants its user every video it matches |
| AdminController.CreatingRuleKeepsGrants | controllers/adminController.js:172-180 | adding a rule takes access away from no one |
| AdminController.DeleteUndoesCreate | controllers/adminController.js:166-193 | deleting a just-created rule by its fresh id restores the table |
| AdminController.UpdatedStatus | controllers/adminController.js:54 | a truthy status replaces the old one; a falsy one keeps it |
| AdminController.UpdateStatusIdempotent | controllers/adminController.js:54 | sending the same update twice has the effect of sending it once |
| AdminController.AdminStore.CreateAccessRule | controllers/adminController.js:166-183 | appends one rule with the supplied user and scope fields, expiry `durationDays` days after now and `isPermanent` false; answers 201 with it; users unchanged |
| AdminController.AdminStore.DeleteAccessRule | controllers/adminController.js:190-193 | removes exactly the rule with the id and answers "Access rule removed" whether or not one existed |
| AdminController.AdminStore.DeleteUser | controllers/adminController.js:69-89 | an existing user is removed together with all of their rules, then "User removed" is answered, or, when the notification mail fails, the handler throws after the removal; an unknown id gives 404 and changes nothing |
| AdminController.AdminStore.UpdateUser | controllers/adminController.js:49-66 | only the user's status changes, by the fallback rule, and the updated user is returned, or, when the notification mail fails, the handler throws with the new status saved; an unknown id gives 404 |
| Uploads.ExtName | routes/adminRoutes.js:21 | `path.extname` is the last segment's suffix from its last dot; it is empty exactly when that segment has no dot, has its only candidate dot at its start, or is `..` |
| Uploads.FileFilter | routes/adminRoutes.js:27-36 | accepted iff the mimetype and the lower-cased extension both contain one of `mp4`, `mkv`, `avi`, `mov`; otherwise rejected with "Only video files are allowed!" |
| Uploads.ExtNameCommutesWithLower | routes/adminRoutes.js:30 | lower-casing a name and taking its extension can be done in either order |
| Uploads.ExtensionCaseInsensitive | routes/adminRoutes.js:30 | the verdict does not change when the file name is lower-cased |
| Uploads.MimetypeCaseSensitive | routes/adminRoutes.js:29 | `VIDEO/MP4` is rejected where `video/mp4` is accepted for the same file |
| Uploads.QuickTimeUploadRejected | routes/adminRoutes.js:28-35 | a `.mov` file sent as `video/quicktime` passes the extension test but is rejected |
| Uploads.IntendedFileFilter | routes/adminRoutes.js:28-35 | accepted iff the extension passes and the mimetype passes or is a registered QuickTime, AVI or Matroska type |
| Uploads.IntendedFilterExtendsWritten | routes/adminRoutes.js:28-35 | the corrected filter accepts everything the written one does, still rejects every failing extension, and differs only on the registered types |
| Uploads.StoredFilenameKeepsExtension | routes/adminRoutes.js:20-22 | the stored name has the same extension as the original name |
| Uploads.StoredFilenameReadsAsTime | routes/adminRoutes.js:21 | the stored name starts with the upload time, and `parseInt` reads that time back |

## Left out

- Email (`sendEmail` in `updateUser` and `deleteUser`), Vercel Blob calls, `fs` reads and stream
  piping are I/O. Whether the mail goes out is a parameter (`emailSent`). When it fails,
  `sendEmail` rethrows and the handlers await it without a `try`, so the store changes stand and
  the handler throws (`Thrown`). What the client then sees is up to the framework.
- The uploads directory is a map from names to byte sequences, and `path.join` is not modelled.
  The key is the storage reference itself, so path normalisation and traversal are outside the
  model.
- Streaming.ServeFile: it requires `RangeInContract`, i.e. no range, or a parsed window with
  `0 <= start <= end < size`. The handlers do not handle the rest: suffix ranges, an end past
  the last byte (the announced length then exceeds what is sent), a start after the end, and a
  NaN start or end. None of these is answered 416 (section 4.4 of RFC 7233).
  `Streaming.RangeFitsVideo` and `AdminController.AdminStream` carry the same precondition.
  `UserController.StreamVideo` carries it only for requests that pass the access check.
- `parseInt` is modelled on a decimal digit prefix after ECMAScript white space and an optional
  sign. NaN is `None`, and NaN arithmetic is not modelled.
- AdminController.AdminStore.CreateAccessRule: `durationDays` is taken as an already parsed
  integer. A non-numeric value (an invalid date in the handler) is not modelled.
- The expiry is `now + durationDays` times 24 hours. `Date.setDate` counts local calendar days,
  so across a daylight-saving change the handler's expiry differs by an hour.
- Mongo ObjectIds are their string forms. Casting errors for malformed ids are not modelled;
  they are answered by the framework, not the handlers.
- `isPermanent`: the flag's name suggests that permanent rules should be exempt from expiry.
  The code never reads it, and the model follows the code (`Access.PermanentRuleStillExpires`).
  Whether permanent rules were meant to be exempt is left open.
- `toLowerCase` is modelled on ASCII letters only.
- `populate` is modelled only as far as it can fail: a returned video whose domain or topic
  document is missing makes `v.domain._id` throw (`Catalog.CatalogError`). The embedded
  documents themselves are not modelled.
- `domainIds` and `topicIds` (controllers/userController.js:25-26) are computed and never used,
  so the model leaves them out.
- Catalog.SortNewestFirst: the order among videos with equal `createdAt` is unspecified in the
  store; the model proves only the descending order and the permutation.
- Audit entries carry no timestamp. The audit write's failure is a boolean parameter, and the
  audit collection is only appended to.
- The handlers read a video's `videoUrl`, which models/Video.js does not declare. The model
  keeps it as an optional field, as the handlers read it.
- models/User.js is not part of this model, so the set of allowed `status` values is unknown.
  A status is any string.
- Account-status gating happens at login and in middleware, not in these handlers, and is not
  modelled. Concurrency between requests is not modelled either.
- The other admin handlers do not decide anything beyond a store call, and are not part of this
  model: listing users, domains, topics, videos, rules and logs; creating users, domains,
  topics and videos; deleting videos; and blob uploads.

## Findings

| source | as written | input that shows it | evidently intended | confidence | as-written member | corrected member |
|---|---|---|---|---|---|---|
| routes/adminRoutes.js:28-29 | the mimetype must contain `mp4`, `mkv`, `avi` or `mov` | mimetype `video/quicktime` with name `clip.mov` (likewise `video/x-msvideo` for `.avi` and `video/x-matroska` for `.mkv`) | `.mov`, `.avi` and `.mkv` uploads are accepted under their registered media types, as the pattern and the blob upload's allowed types (controllers/adminController.js:247) indicate | not executed; medium | Uploads.QuickTimeUploadRejected | Uploads.IntendedFilterExtendsWritten |
