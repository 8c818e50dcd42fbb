/**
 * The two callbacks of the local upload configuration: the file filter, which tests the
 * declared mimetype and the lower-cased extension of the client's file name against the
 * pattern `/mp4|mkv|avi|mov/`, and the naming rule, which stores a file as the upload time in
 * milliseconds followed by the original extension. The extension is Node's POSIX
 * `path.extname`.
 */
module Uploads {
  import opened Wrappers
  import opened Text

  // ---------------------------------------------------------------------------
  // `path.extname`

  /** The path without the slashes at its end. */
  function StripTrailingSlashes(p: string): (r: string)
    ensures |r| <= |p| && r == p[..|r|]
    ensures r == [] || r[|r| - 1] != '/'
  {
    if p != [] && p[|p| - 1] == '/' then StripTrailingSlashes(p[..|p| - 1]) else p
  }

  /** What follows the last slash. */
  function AfterLastSlash(q: string): (b: string)
    ensures |b| <= |q| && b == q[|q| - |b|..]
    ensures '/' !in b
  {
    if q == [] || q[|q| - 1] == '/' then []
    else AfterLastSlash(q[..|q| - 1]) + [q[|q| - 1]]
  }

  /** The last path segment, as the scan from the end of `path.extname` delimits it. */
  function BaseName(p: string): (b: string)
    ensures '/' !in b
  {
    AfterLastSlash(StripTrailingSlashes(p))
  }

  /** The position of the last dot, if any. */
  function LastDot(b: string): (r: Option<nat>)
    ensures r.Some? ==> r.value < |b| && b[r.value] == '.' && '.' !in b[r.value + 1..]
    ensures r.None? ==> '.' !in b
  {
    if b == [] then None
    else if b[|b| - 1] == '.' then Some(|b| - 1)
    else
      var r := LastDot(b[..|b| - 1]);
      assert b == b[..|b| - 1] + [b[|b| - 1]];
      if r.Some? then
        assert b[r.value + 1..] == b[..|b| - 1][r.value + 1..] + [b[|b| - 1]];
        r
      else r
  }

  /**
   * The extension of one segment: from its last dot to its end; empty when the segment has no
   * dot, when its only candidate dot opens it (`.profile`), and for the segment `..`.
   */
  function SegmentExt(b: string): (ext: string)
    requires '/' !in b
    ensures ext == [] || (ext[0] == '.' && '.' !in ext[1..])
    ensures '/' !in ext
    ensures ext == [] <==> LastDot(b).None? || LastDot(b).value == 0 || b == ".."
    ensures ext != [] ==> ext == b[LastDot(b).value..]
    ensures ext == [] || (|ext| < |b| && ext == b[|b| - |ext|..])
  {
    match LastDot(b)
    case None => ""
    case Some(i) =>
      if i == 0 || b == ".." then ""
      else
        assert b[i..][1..] == b[i + 1..];
        assert forall c :: c in b[i..] ==> c in b;
        b[i..]
  }

  /** `path.extname(p)`: the extension of the last segment. */
  function ExtName(p: string): (ext: string)
    ensures ext == [] || (ext[0] == '.' && '.' !in ext[1..])
    ensures '/' !in ext
    ensures var b := BaseName(p); ext == [] <==> LastDot(b).None? || LastDot(b).value == 0 || b == ".."
    ensures var b := BaseName(p); ext != [] ==> ext == b[LastDot(b).value..]
    ensures var b := BaseName(p); ext == [] || (|ext| < |b| && ext == b[|b| - |ext|..])
  {
    SegmentExt(BaseName(p))
  }

  // ---------------------------------------------------------------------------
  // The file filter

  /** `/mp4|mkv|avi|mov/.test(s)`: one of the four literals occurs in `s`. */
  predicate VideoTypeTest(s: string)
  {
    Contains(s, "mp4") || Contains(s, "mkv") || Contains(s, "avi") || Contains(s, "mov")
  }

  datatype Verdict = Accepted | Rejected(error: string)

  const NotAVideo: string := "Only video files are allowed!"

  /** `fileFilter` as written: both tests must pass; the mimetype is matched as sent. */
  function FileFilter(mimetype: string, originalName: string): (v: Verdict)
    ensures v == Accepted <==> VideoTypeTest(mimetype) && VideoTypeTest(ToLower(ExtName(originalName)))
    ensures v != Accepted ==> v == Rejected(NotAVideo)
  {
    if VideoTypeTest(mimetype) && VideoTypeTest(ToLower(ExtName(originalName))) then Accepted
    else Rejected(NotAVideo)
  }

  /** The registered media types of the QuickTime, AVI and Matroska containers. */
  predicate RegisteredVideoType(mimetype: string)
  {
    mimetype == "video/quicktime" || mimetype == "video/x-msvideo" || mimetype == "video/x-matroska"
  }

  /**
   * The filter with the mimetype test the pattern evidently means: a `.mov`, `.avi` or `.mkv`
   * file is also accepted under the media type browsers declare for it.
   */
  function IntendedFileFilter(mimetype: string, originalName: string): (v: Verdict)
    ensures v == Accepted <==>
      (VideoTypeTest(mimetype) || RegisteredVideoType(mimetype)) && VideoTypeTest(ToLower(ExtName(originalName)))
    ensures v != Accepted ==> v == Rejected(NotAVideo)
  {
    if (VideoTypeTest(mimetype) || RegisteredVideoType(mimetype)) && VideoTypeTest(ToLower(ExtName(originalName))) then
      Accepted
    else
      Rejected(NotAVideo)
  }

  // ---------------------------------------------------------------------------
  // The naming rule

  /** `Date.now() + path.extname(file.originalname)` */
  function StoredFilename(now: nat, originalName: string): string
  {
    Decimal(now) + ExtName(originalName)
  }

  // ---------------------------------------------------------------------------
  // Properties

  lemma ToLowerIdempotent(s: string)
    ensures ToLower(ToLower(s)) == ToLower(s)
  {
  }

  lemma ToLowerSlice(s: string, i: nat, j: nat)
    requires i <= j <= |s|
    ensures ToLower(s[i..j]) == ToLower(s)[i..j]
  {
  }

  lemma {:induction false} StripCommutesWithLower(p: string)
    ensures StripTrailingSlashes(ToLower(p)) == ToLower(StripTrailingSlashes(p))
    decreases |p|
  {
    var lp := ToLower(p);
    if p != [] {
      assert lp[|lp| - 1] == '/' <==> p[|p| - 1] == '/';
      if p[|p| - 1] == '/' {
        ToLowerSlice(p, 0, |p| - 1);
        StripCommutesWithLower(p[..|p| - 1]);
      }
    }
  }

  lemma {:induction false} AfterLastSlashCommutesWithLower(q: string)
    ensures AfterLastSlash(ToLower(q)) == ToLower(AfterLastSlash(q))
    decreases |q|
  {
    if q != [] {
      var init, c := q[..|q| - 1], q[|q| - 1];
      var lq := ToLower(q);
      assert q == init + [c];
      ToLowerAppend(init, c);
      assert lq[..|lq| - 1] == ToLower(init) && lq[|lq| - 1] == LowerChar(c);
      if c != '/' {
        var a := AfterLastSlash(init);
        AfterLastSlashCommutesWithLower(init);
        assert AfterLastSlash(q) == a + [c];
        assert AfterLastSlash(lq) == ToLower(a) + [LowerChar(c)];
        ToLowerAppend(a, c);
      }
    }
  }

  lemma ToLowerAppend(a: string, c: char)
    ensures ToLower(a + [c]) == ToLower(a) + [LowerChar(c)]
    ensures LowerChar(c) == '/' <==> c == '/'
  {
  }

  lemma {:induction false} LastDotIgnoresCase(b: string)
    ensures LastDot(ToLower(b)) == LastDot(b)
    decreases |b|
  {
    var lb := ToLower(b);
    if b != [] {
      assert lb[|lb| - 1] == '.' <==> b[|b| - 1] == '.';
      if b[|b| - 1] != '.' {
        ToLowerSlice(b, 0, |b| - 1);
        LastDotIgnoresCase(b[..|b| - 1]);
      }
    }
  }

  lemma SegmentExtCommutesWithLower(b: string)
    requires '/' !in b
    ensures '/' !in ToLower(b)
    ensures SegmentExt(ToLower(b)) == ToLower(SegmentExt(b))
  {
    var lb := ToLower(b);
    assert '/' !in lb by {
      forall k | 0 <= k < |lb| ensures lb[k] != '/' {
        assert b[k] in b;
      }
    }
    LastDotIgnoresCase(b);
    assert lb == ".." <==> b == ".." by {
      if lb == ".." {
        assert |b| == 2 && lb[0] == LowerChar(b[0]) && lb[1] == LowerChar(b[1]);
        assert b[0] == '.' && b[1] == '.';
      }
    }
    if LastDot(b).Some? {
      var i := LastDot(b).value;
      if i != 0 && b != ".." {
        ToLowerSlice(b, i, |b|);
        assert b[i..|b|] == b[i..];
        assert lb[i..|lb|] == lb[i..];
      }
    }
  }

  /** Lower-casing a name and taking its extension can be done in either order. */
  lemma ExtNameCommutesWithLower(p: string)
    ensures ExtName(ToLower(p)) == ToLower(ExtName(p))
  {
    StripCommutesWithLower(p);
    AfterLastSlashCommutesWithLower(StripTrailingSlashes(p));
    assert BaseName(ToLower(p)) == ToLower(BaseName(p));
    SegmentExtCommutesWithLower(BaseName(p));
  }

  /** The extension test ignores the case of the file name; the mimetype test does not. */
  lemma ExtensionCaseInsensitive(mimetype: string, originalName: string)
    ensures FileFilter(mimetype, ToLower(originalName)) == FileFilter(mimetype, originalName)
  {
    ExtNameCommutesWithLower(originalName);
    ToLowerIdempotent(ExtName(originalName));
  }

  /** An upper-case mimetype fails where its lower-case spelling passes. */
  lemma MimetypeCaseSensitive(upper: string, lower: string, name: string)
    requires upper == "VIDEO/MP4" && lower == "video/mp4" && name == "clip.mp4"
    ensures FileFilter(upper, name) == Rejected(NotAVideo)
    ensures FileFilter(lower, name) == Accepted
  {
    UpperCaseFailsTest(upper);
    ContainsInside("video/", "mp4", "");
    assert lower == "video/" + "mp4" + "";
    var e := "mp4";
    assert ToLower(e) == e;
    assert Contains(e, "mp4") by { assert StartsWith(e, "mp4"); }
    ClipExtensionPasses(name, e);
  }

  lemma UpperCaseFailsTest(upper: string)
    requires upper == "VIDEO/MP4"
    ensures !VideoTypeTest(upper)
  {
    NotContainsChar(upper, "mp4", 0);
    NotContainsChar(upper, "mkv", 0);
    NotContainsChar(upper, "avi", 0);
    NotContainsChar(upper, "mov", 0);
  }

  /** `clip.<e>` passes the extension test when `e` is a lower-case extension that passes it. */
  lemma ClipExtensionPasses(name: string, e: string)
    requires name == "clip." + e && '.' !in e && '/' !in e && e != []
    requires ToLower(e) == e && VideoTypeTest(e)
    ensures VideoTypeTest(ToLower(ExtName(name)))
  {
    ExtOfClip(name, e);
    DotExtensionPasses(e);
  }

  /** A lower-case extension that passes the test still passes once its dot is put back. */
  lemma DotExtensionPasses(e: string)
    requires ToLower(e) == e && VideoTypeTest(e)
    ensures VideoTypeTest(ToLower("." + e))
  {
    var ext := "." + e;
    assert ToLower(ext) == ext by {
      forall k | 0 <= k < |ext| ensures ToLower(ext)[k] == ext[k] {
        if k > 0 {
          assert ext[k] == e[k - 1] && ToLower(e)[k - 1] == LowerChar(e[k - 1]);
        }
      }
    }
    assert ext[1..] == e;
  }

  /** The extension of `clip.<e>` for an `e` without dots or slashes. */
  lemma ExtOfClip(name: string, e: string)
    requires name == "clip." + e && '.' !in e && '/' !in e
    ensures ExtName(name) == "." + e
  {
    assert name == "clip" + "." + e;
    ExtNameOfStemDot("clip", e);
  }

  /** A dot-free, slash-free stem, a dot and a dot-free, slash-free suffix: the extension is the dot and the suffix. */
  lemma ExtNameOfStemDot(stem: string, e: string)
    requires stem != [] && '.' !in stem && '/' !in stem
    requires '.' !in e && '/' !in e
    ensures ExtName(stem + "." + e) == "." + e
  {
    var name := stem + "." + e;
    assert '/' !in name;
    NoSlashBaseName(name);
    assert name[|stem|] == '.' && name[|stem| + 1..] == e;
    LastDotAt(name, |stem|);
    assert name[0] != '.' by {
      assert name[0] == stem[0] && stem[0] in stem;
    }
    SegmentExtAt(name, |stem|);
    assert name[|stem|..] == "." + e;
  }

  /** The extension of a segment that does not open with a dot runs from its last dot. */
  lemma SegmentExtAt(b: string, i: nat)
    requires '/' !in b && LastDot(b) == Some(i) && i != 0 && b[0] != '.'
    ensures SegmentExt(b) == b[i..]
  {
    assert b != "..";
  }

  /** The last dot is the one with no dot after it. */
  lemma LastDotAt(b: string, i: nat)
    requires i < |b| && b[i] == '.' && '.' !in b[i + 1..]
    ensures LastDot(b) == Some(i)
  {
    assert b[i] in b;
  }

  lemma NoSlashBaseName(p: string)
    requires '/' !in p
    ensures BaseName(p) == p
  {
    if p != [] {
      assert p[|p| - 1] in p;
    }
    NoSlashAfterLastSlash(p);
  }

  lemma {:induction false} NoSlashAfterLastSlash(q: string)
    requires '/' !in q
    ensures AfterLastSlash(q) == q
    decreases |q|
  {
    if q != [] {
      var init := q[..|q| - 1];
      assert q == init + [q[|q| - 1]];
      assert q[|q| - 1] != '/' by {
        assert q[|q| - 1] in q;
      }
      assert '/' !in init by {
        forall k | 0 <= k < |init| ensures init[k] != '/' {
          assert init[k] == q[k];
          assert q[k] in q;
        }
      }
      NoSlashAfterLastSlash(init);
    }
  }

  // ---------------------------------------------------------------------------
  // The rejected QuickTime upload

  lemma QuickTimeFailsTest(mimetype: string)
    requires mimetype == "video/quicktime"
    ensures !VideoTypeTest(mimetype)
  {
    NotContainsChar(mimetype, "mp4", 2);
    QuickTimeLacksPair(mimetype, "mkv");
    NotContainsChar(mimetype, "avi", 0);
    QuickTimeLacksPair(mimetype, "mov");
  }

  /** `video/quicktime` never has `m` or `k` followed by `k` or `v`, or `o` by `v`. */
  lemma QuickTimeLacksPair(mimetype: string, sub: string)
    requires mimetype == "video/quicktime" && (sub == "mkv" || sub == "mov")
    ensures !Contains(mimetype, sub)
  {
    forall i | 0 <= i < |mimetype| - 1 ensures mimetype[i] != sub[0] || mimetype[i + 1] != sub[1] {
      if mimetype[i] == 'm' {
        assert i == 13;
      }
    }
    NotContainsPair(mimetype, sub, 0);
  }

  /**
   * A `.mov` file sent with the QuickTime media type is refused by the filter as written,
   * although its extension passes; the intended filter takes it.
   */
  lemma QuickTimeUploadRejected(mimetype: string, name: string)
    requires mimetype == "video/quicktime" && name == "clip.mov"
    ensures VideoTypeTest(ToLower(ExtName(name)))
    ensures FileFilter(mimetype, name) == Rejected(NotAVideo)
    ensures IntendedFileFilter(mimetype, name) == Accepted
  {
    QuickTimeFailsTest(mimetype);
    var e := "mov";
    assert ToLower(e) == e;
    assert Contains(e, "mov") by { assert StartsWith(e, "mov"); }
    ClipExtensionPasses(name, e);
  }

  /** The intended filter accepts everything the written one does and changes nothing about the extension test. */
  lemma IntendedFilterExtendsWritten(mimetype: string, originalName: string)
    ensures FileFilter(mimetype, originalName) == Accepted ==> IntendedFileFilter(mimetype, originalName) == Accepted
    ensures !VideoTypeTest(ToLower(ExtName(originalName))) ==>
      IntendedFileFilter(mimetype, originalName) == Rejected(NotAVideo)
    ensures IntendedFileFilter(mimetype, originalName) == Accepted && !RegisteredVideoType(mimetype) ==>
      FileFilter(mimetype, originalName) == Accepted
  {
  }

  // ---------------------------------------------------------------------------
  // Stored names

  /** Appending to a segment that starts with a digit keeps a valid extension as the extension. */
  lemma ExtNameAfterDigits(d: string, ext: string)
    requires d != [] && AllDigits(d)
    requires ext == [] || (ext[0] == '.' && '.' !in ext[1..])
    requires '/' !in ext
    ensures ExtName(d + ext) == ext
  {
    assert '.' !in d && '/' !in d by {
      forall k | 0 <= k < |d| ensures d[k] != '.' && d[k] != '/' {
        assert IsDigit(d[k]);
      }
    }
    if ext == [] {
      assert d + ext == d;
      NoSlashBaseName(d);
    } else {
      var e := ext[1..];
      assert ext == "." + e;
      assert '/' !in e by {
        forall c | c in e ensures c in ext { }
      }
      assert d + ext == d + "." + e;
      ExtNameOfStemDot(d, e);
    }
  }

  /** The stored name carries the original extension unchanged. */
  lemma StoredFilenameKeepsExtension(now: nat, originalName: string)
    ensures ExtName(StoredFilename(now, originalName)) == ExtName(originalName)
  {
    ExtNameAfterDigits(Decimal(now), ExtName(originalName));
  }

  /** The stored name reads back, through `parseInt`, as the upload time. */
  lemma StoredFilenameReadsAsTime(now: nat, originalName: string)
    ensures StartsWith(StoredFilename(now, originalName), Decimal(now))
    ensures ParseInt(StoredFilename(now, originalName)) == Some(now)
  {
    var d := Decimal(now);
    var ext := ExtName(originalName);
    assert (d + ext)[..|d|] == d;
    ParseIntDecimal(now, ext);
  }
}
