/**
 * Serving a video's bytes, shared by the user stream and the admin preview: a remote storage
 * reference is answered with a redirect, a missing local file with 404, and a present file in
 * full (200) or as the single window of a `Range: bytes=S-E` header (206), after the partial
 * implementation of byte ranges in sections 2.1, 4.1 and 4.2 of RFC 7233.
 *
 * The header is read as the handlers read it: the first `bytes=` is removed, the rest is split on
 * `-`, the first part is the start and a non-empty second part the end, both through `parseInt`;
 * a missing or empty end part means the last byte. Only windows that lie inside the file are
 * within this model (see `RangeInContract`).
 */
module Streaming {
  import opened Wrappers
  import opened Text
  import opened Models

  datatype ByteRange = ByteRange(start: int, end: int)

  /** A Range header that the handlers act on: present and not the empty string. */
  predicate Requested(range: Option<string>)
  {
    range.Some? && range.value != ""
  }

  /** The start and end the handlers compute for a file of `size` bytes; `None` when one is NaN. */
  function ParseRange(header: string, size: int): Option<ByteRange>
  {
    var parts := Split(RemoveFirst(header, "bytes="), '-');
    match ParseInt(parts[0])
    case None => None
    case Some(start) =>
      if |parts| < 2 || parts[1] == "" then Some(ByteRange(start, size - 1))
      else
        match ParseInt(parts[1])
        case None => None
        case Some(end) => Some(ByteRange(start, end))
  }

  /**
   * The requests this model covers: no range, or a window `0 <= start <= end < size`. Outside it
   * the handlers announce lengths the stream does not deliver (an end past the last byte), throw
   * (a start after the end), or print NaN (a suffix range `bytes=-N`); none answers 416.
   */
  predicate RangeInContract(range: Option<string>, size: int)
  {
    !Requested(range) ||
    (var w := ParseRange(range.value, size);
     w.Some? && 0 <= w.value.start <= w.value.end < size)
  }

  /** `Content-Range: bytes ${start}-${end}/${fileSize}` */
  function ContentRange(start: nat, end: nat, size: nat): string
  {
    "bytes " + Decimal(start) + "-" + Decimal(end) + "/" + Decimal(size)
  }

  /** The window of a header within the contract. */
  function Window(header: string, size: int): (w: ByteRange)
    requires header != "" && RangeInContract(Some(header), size)
    ensures ParseRange(header, size) == Some(w)
    ensures 0 <= w.start <= w.end < size
  {
    ParseRange(header, size).value
  }

  /** The 206 answer for a window inside the file. */
  function PartialContent(file: seq<byte>, w: ByteRange): (r: Response)
    requires 0 <= w.start <= w.end < |file|
    ensures r.Stream? && r.status == 206 && r.acceptRanges == Some("bytes") && r.contentType == "video/mp4"
    ensures r.contentRange == Some(ContentRange(w.start, w.end, |file|))
    ensures r.contentLength == w.end - w.start + 1 == |r.body|
    ensures r.body == file[w.start..w.end + 1]
  {
    Stream(206, Some(ContentRange(w.start, w.end, |file|)), Some("bytes"),
           (w.end - w.start) + 1, "video/mp4", file[w.start..w.end + 1])
  }

  /** The response for a local file that exists. */
  function ServeFile(file: seq<byte>, range: Option<string>): (r: Response)
    requires RangeInContract(range, |file|)
    ensures r.Stream? && r.contentType == "video/mp4" && r.contentLength == |r.body|
    ensures !Requested(range) ==>
      r.status == 200 && r.body == file && r.contentRange.None? && r.acceptRanges.None?
    ensures Requested(range) ==> r == PartialContent(file, Window(range.value, |file|))
  {
    if !Requested(range) then
      Stream(200, None, None, |file|, "video/mp4", file)
    else
      PartialContent(file, Window(range.value, |file|))
  }

  /** A header naming a window inside the file is answered 206 with exactly that window. */
  lemma ServeWindow(file: seq<byte>, header: string, w: ByteRange)
    requires header != "" && ParseRange(header, |file|) == Some(w) && 0 <= w.start <= w.end < |file|
    ensures RangeInContract(Some(header), |file|)
    ensures ServeFile(file, Some(header)) == PartialContent(file, w)
  {
    WindowOf(header, |file|, w);
  }

  /** The open window `bytes=S-` served from any header that parses to it. */
  lemma ServeToEnd(file: seq<byte>, header: string, s: nat)
    requires header != "" && s < |file| && ParseRange(header, |file|) == Some(ByteRange(s, |file| - 1))
    ensures RangeInContract(Some(header), |file|)
    ensures ServeFile(file, Some(header)) ==
      Stream(206, Some(ContentRange(s, |file| - 1, |file|)), Some("bytes"), |file| - s, "video/mp4", file[s..])
  {
    ServeWindow(file, header, ByteRange(s, |file| - 1));
    PartialContentOf(file, s, |file| - 1);
    assert file[s..|file| - 1 + 1] == file[s..];
  }

  lemma WindowOf(header: string, size: int, w: ByteRange)
    requires header != "" && ParseRange(header, size) == Some(w) && 0 <= w.start <= w.end < size
    ensures RangeInContract(Some(header), size) && Window(header, size) == w
  {
  }

  /** `video.videoUrl && video.videoUrl.startsWith('http')` */
  predicate IsRemote(video: Video)
  {
    video.videoUrl.Some? && StartsWith(video.videoUrl.value, "http")
  }

  /** `video.videoUrl || video.filename`: the name of the local file under the uploads directory. */
  function StorageKey(video: Video): string
  {
    if video.videoUrl.Some? && video.videoUrl.value != "" then video.videoUrl.value else video.filename
  }

  /** The range requested fits the local file that would be served, if one would. */
  predicate RangeFitsVideo(video: Video, files: map<string, seq<byte>>, range: Option<string>)
  {
    !IsRemote(video) && StorageKey(video) in files ==> RangeInContract(range, |files[StorageKey(video)]|)
  }

  /**
   * Everything after the record lookup (and, on the user path, after the access check):
   * redirect, missing file with the handler's own message, or the file served.
   */
  function ServeVideo(video: Video, files: map<string, seq<byte>>, range: Option<string>, missingFile: string): (r: Response)
    requires RangeFitsVideo(video, files, range)
    ensures IsRemote(video) ==> r == Redirect(video.videoUrl.value)
    ensures !IsRemote(video) && StorageKey(video) !in files ==> r == Message(404, missingFile)
    ensures !IsRemote(video) && StorageKey(video) in files ==> r == ServeFile(files[StorageKey(video)], range)
  {
    if IsRemote(video) then Redirect(video.videoUrl.value)
    else if StorageKey(video) !in files then Message(404, missingFile)
    else ServeFile(files[StorageKey(video)], range)
  }

  // ---------------------------------------------------------------------------
  // Properties of the range handling

  /** A remote reference is never looked up among the local files, whatever the range. */
  lemma RedirectIgnoresFilesAndRange(
    video: Video, files1: map<string, seq<byte>>, files2: map<string, seq<byte>>,
    range1: Option<string>, range2: Option<string>, m1: string, m2: string)
    requires IsRemote(video)
    ensures ServeVideo(video, files1, range1, m1) == ServeVideo(video, files2, range2, m2)
  {
  }

  /** The parts after the start, for a header `bytes=S-<tail>`. */
  lemma {:induction false} SplitAfterStart(s: nat, tail: string)
    ensures Split(RemoveFirst("bytes=" + Decimal(s) + "-" + tail, "bytes="), '-') == [Decimal(s)] + Split(tail, '-')
    ensures ParseInt(Decimal(s)) == Some(s)
  {
    assert "bytes=" + Decimal(s) + "-" + tail == "bytes=" + (Decimal(s) + ['-'] + tail);
    RemoveLeading("bytes=", Decimal(s) + ['-'] + tail);
    NoDashInDecimal(s);
    SplitAtFirstSeparator(Decimal(s), '-', tail);
    ParseIntDecimal(s, []);
    assert Decimal(s) + [] == Decimal(s);
  }

  lemma NoDashInDecimal(n: nat)
    ensures '-' !in Decimal(n) && '/' !in Decimal(n)
  {
    var d := Decimal(n);
    assert forall i :: 0 <= i < |d| ==> d[i] != '-' && d[i] != '/';
  }

  /** `bytes=S-E` is read back as exactly the window from S to E. */
  lemma ParseClosedRange(s: nat, e: nat, size: int)
    ensures ParseRange("bytes=" + Decimal(s) + "-" + Decimal(e), size) == Some(ByteRange(s, e))
  {
    SplitAfterStart(s, Decimal(e));
    NoDashInDecimal(e);
    SplitWithoutSeparator(Decimal(e), '-');
    ParseIntDecimal(e, []);
    assert Decimal(e) + [] == Decimal(e);
  }

  /** `bytes=S-` runs to the last byte of the file. */
  lemma ParseOpenRange(s: nat, size: int)
    ensures ParseRange("bytes=" + Decimal(s) + "-", size) == Some(ByteRange(s, size - 1))
  {
    SplitAfterStart(s, "");
    assert "bytes=" + Decimal(s) + "-" + "" == "bytes=" + Decimal(s) + "-";
  }

  /** Whatever follows a second `-` is ignored. */
  lemma ParseIgnoresTrailingParts(s: nat, e: nat, rest: string, size: int)
    ensures ParseRange("bytes=" + Decimal(s) + "-" + Decimal(e) + "-" + rest, size) == Some(ByteRange(s, e))
  {
    var de := Decimal(e);
    var tail := de + ['-'] + rest;
    assert "bytes=" + Decimal(s) + "-" + de + "-" + rest == "bytes=" + Decimal(s) + "-" + tail;
    SplitAfterStart(s, tail);
    NoDashInDecimal(e);
    SplitAtFirstSeparator(de, '-', rest);
    var parts := Split(RemoveFirst("bytes=" + Decimal(s) + "-" + tail, "bytes="), '-');
    assert parts[0] == Decimal(s) && parts[1] == de;
    ParseIntDecimal(e, []);
    assert de + [] == de;
  }

  /** A suffix range `bytes=-N` has no start: the handlers compute NaN, outside this model. */
  lemma SuffixRangeIsNotParsed(n: nat, size: int)
    ensures ParseRange("bytes=-" + Decimal(n), size) == None
  {
    assert "bytes=-" + Decimal(n) == "bytes=" + ("-" + Decimal(n));
    RemoveLeading("bytes=", "-" + Decimal(n));
    assert Split("-" + Decimal(n), '-')[0] == [];
  }

  /** A closed window inside the file is answered 206 with exactly its bytes. */
  lemma ServeClosedRange(file: seq<byte>, s: nat, e: nat)
    requires s <= e < |file|
    ensures RangeInContract(Some("bytes=" + Decimal(s) + "-" + Decimal(e)), |file|)
    ensures ServeFile(file, Some("bytes=" + Decimal(s) + "-" + Decimal(e))) ==
      Stream(206, Some(ContentRange(s, e, |file|)), Some("bytes"), e - s + 1, "video/mp4", file[s..e + 1])
  {
    var h := "bytes=" + Decimal(s) + "-" + Decimal(e);
    ParseClosedRange(s, e, |file|);
    assert h[0] == 'b';
    ServeBetween(file, h, s, e);
  }

  /** The closed window `bytes=S-E` served from any header that parses to it. */
  lemma ServeBetween(file: seq<byte>, header: string, s: nat, e: nat)
    requires header != "" && s <= e < |file| && ParseRange(header, |file|) == Some(ByteRange(s, e))
    ensures RangeInContract(Some(header), |file|)
    ensures ServeFile(file, Some(header)) ==
      Stream(206, Some(ContentRange(s, e, |file|)), Some("bytes"), e - s + 1, "video/mp4", file[s..e + 1])
  {
    ServeWindow(file, header, ByteRange(s, e));
    PartialContentOf(file, s, e);
  }

  /** The 206 answer for the window S..E, field by field. */
  lemma PartialContentOf(file: seq<byte>, s: nat, e: nat)
    requires s <= e < |file|
    ensures PartialContent(file, ByteRange(s, e)) ==
      Stream(206, Some(ContentRange(s, e, |file|)), Some("bytes"), e - s + 1, "video/mp4", file[s..e + 1])
  {
  }

  /** An open window `bytes=S-` is answered with every byte from S on. */
  lemma ServeOpenRange(file: seq<byte>, s: nat)
    requires s < |file|
    ensures RangeInContract(Some("bytes=" + Decimal(s) + "-"), |file|)
    ensures ServeFile(file, Some("bytes=" + Decimal(s) + "-")) ==
      Stream(206, Some(ContentRange(s, |file| - 1, |file|)), Some("bytes"), |file| - s, "video/mp4", file[s..])
  {
    var h := "bytes=" + Decimal(s) + "-";
    ParseOpenRange(s, |file|);
    assert h[0] == 'b';
    ServeToEnd(file, h, s);
  }

  /** `Range: bytes=0-99` on a file of 1000 bytes. */
  lemma ServeFirstHundredBytes(file: seq<byte>, header: string)
    requires |file| == 1000 && header == "bytes=0-99"
    ensures RangeInContract(Some(header), |file|)
    ensures ServeFile(file, Some(header)) ==
      Stream(206, Some("bytes 0-99/1000"), Some("bytes"), 100, "video/mp4", file[..100])
  {
    assert header == "bytes=" + Decimal(0) + "-" + Decimal(99) by {
      assert DigitChar(0) == '0' && DigitChar(9) == '9';
      assert Decimal(99) == Decimal(9) + [DigitChar(9)] == "99";
    }
    assert ContentRange(0, 99, 1000) == "bytes 0-99/1000" by {
      assert DigitChar(0) == '0' && DigitChar(1) == '1' && DigitChar(9) == '9';
      assert Decimal(99) == Decimal(9) + [DigitChar(9)] == "99";
      assert Decimal(10) == Decimal(1) + [DigitChar(0)] == "10";
      assert Decimal(100) == Decimal(10) + [DigitChar(0)] == "100";
      assert Decimal(1000) == Decimal(100) + [DigitChar(0)] == "1000";
    }
    ServeClosedRange(file, 0, 99);
    assert file[0..100] == file[..100];
  }

  // ---------------------------------------------------------------------------
  // The Content-Range header read back

  /** How a client reads `bytes S-E/N` (section 4.2 of RFC 7233). */
  function ReadContentRange(h: string): Option<(int, int, int)>
  {
    var parts := Split(RemoveFirst(h, "bytes "), '-');
    if |parts| != 2 then None
    else
      var tail := Split(parts[1], '/');
      if |tail| != 2 then None
      else
        var s, e, n := ParseInt(parts[0]), ParseInt(tail[0]), ParseInt(tail[1]);
        if s.Some? && e.Some? && n.Some? then Some((s.value, e.value, n.value)) else None
  }

  lemma ContentRangeParts(s: nat, e: nat, n: nat)
    ensures Split(RemoveFirst(ContentRange(s, e, n), "bytes "), '-') ==
      [Decimal(s), Decimal(e) + ['/'] + Decimal(n)]
  {
    var tail := Decimal(e) + ['/'] + Decimal(n);
    var afterUnit := Decimal(s) + ['-'] + tail;
    ContentRangeShape(s, e, n);
    RemoveLeading("bytes ", afterUnit);
    NoDashInDecimal(s);
    NoDashInDecimal(e);
    NoDashInDecimal(n);
    SplitTwoParts(Decimal(s), tail);
  }

  lemma ContentRangeShape(s: nat, e: nat, n: nat)
    ensures ContentRange(s, e, n) == "bytes " + (Decimal(s) + ['-'] + (Decimal(e) + ['/'] + Decimal(n)))
  {
    var ds, de, dn := Decimal(s), Decimal(e), Decimal(n);
    calc {
      ContentRange(s, e, n);
      "bytes " + ds + "-" + de + "/" + dn;
      { assert "-" == ['-'] && "/" == ['/']; }
      "bytes " + ds + ['-'] + de + ['/'] + dn;
      "bytes " + (ds + ['-'] + (de + ['/'] + dn));
    }
  }

  lemma SplitTwoParts(a: string, b: string)
    requires '-' !in a && '-' !in b
    ensures Split(a + ['-'] + b, '-') == [a, b]
  {
    SplitAtFirstSeparator(a, '-', b);
    SplitWithoutSeparator(b, '-');
  }

  lemma SizeParts(e: nat, n: nat)
    ensures Split(Decimal(e) + ['/'] + Decimal(n), '/') == [Decimal(e), Decimal(n)]
  {
    NoDashInDecimal(e);
    NoDashInDecimal(n);
    SplitAtFirstSeparator(Decimal(e), '/', Decimal(n));
    SplitWithoutSeparator(Decimal(n), '/');
  }

  lemma ParseDecimal(n: nat)
    ensures ParseInt(Decimal(n)) == Some(n)
  {
    ParseIntDecimal(n, []);
    assert Decimal(n) + [] == Decimal(n);
  }

  /** The Content-Range value carries exactly the window and the file size. */
  lemma ContentRangeRoundTrip(s: nat, e: nat, n: nat)
    ensures ReadContentRange(ContentRange(s, e, n)) == Some((s, e, n))
  {
    ContentRangeParts(s, e, n);
    SizeParts(e, n);
    ParseDecimal(s);
    ParseDecimal(e);
    ParseDecimal(n);
  }
}
