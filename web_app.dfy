/**
 * The deterministic helpers of the Flask application: the upload whitelist, the method alias
 * table, file naming, the MIME tables, the HLS master playlist and its source lookup, and the
 * periodic cleanup of old files. File existence, directory listings and the clock are inputs.
 */
module WebApp {
  import opened Wrappers
  import opened Text
  import opened PathNames
  import opened Imaging
  import opened Restoration
  import opened MaskBuilder
  import opened VideoPipeline

  // ---------------------------------------------------------------- uploads

  const AllowedExtensions: set<string> := {"mp4", "avi", "mov", "wmv", "mkv"}

  /**
   * `allowed_file`: a `.` is present and the lower-cased text after the last one is whitelisted.
   * Stated by position: some `.` has no `.` after it, and what follows it is a whitelisted
   * extension in any letter case.
   */
  function AllowedFile(filename: string): (ok: bool)
    ensures ok <==> exists k :: 0 <= k < |filename| && filename[k] == '.' && '.' !in filename[k + 1..] &&
                                 Lower(filename[k + 1..]) in AllowedExtensions
  {
    LastDotIsUnique(filename);
    '.' in filename && Lower(AfterLast(filename, '.')) in AllowedExtensions
  }

  /** The text after the last `.` is what follows the only `.` that has no `.` after it. */
  lemma LastDotIsUnique(filename: string)
    ensures forall k :: 0 <= k < |filename| && filename[k] == '.' && '.' !in filename[k + 1..] ==>
              filename[k + 1..] == AfterLast(filename, '.')
    ensures '.' in filename ==> exists k :: 0 <= k < |filename| && filename[k] == '.' && '.' !in filename[k + 1..]
  {
    var ext := AfterLast(filename, '.');
    var j := |filename| - |ext| - 1;
    if '.' in filename {
      assert |ext| < |filename| by {
        if |ext| == |filename| {
          assert false;
        }
      }
      assert filename[j + 1..] == ext;
    }
  }

  /**
   * Only the last extension decides: `name.ext` is allowed exactly when `ext` (lower-cased) is
   * whitelisted, whatever dots `name` holds; a name without a dot is refused.
   */
  lemma AllowedFileExtension(name: string, ext: string)
    requires '.' !in ext
    ensures AllowedFile(name + "." + ext) <==> Lower(ext) in AllowedExtensions
    ensures '.' !in name ==> !AllowedFile(name)
  {
    AfterLastOfJoin(name, '.', ext);
    assert (name + "." + ext)[|name|] == '.';
  }

  /** The extension is compared lower-cased: `A.MKV` is accepted. */
  lemma AllowedFileIgnoresCase()
    ensures AllowedFile("A.MKV")
  {
    LowersToMkv("MKV");
    UpperName();
    AllowedFileExtension("A", "MKV");
  }

  /** The name of `AllowedFileIgnoresCase` is `A`, a dot, and `MKV`. */
  lemma UpperName()
    ensures "A" + "." + "MKV" == "A.MKV"
  {
    var name := "A" + "." + "MKV";
    assert name[0] == 'A' && name[1] == '.' && name[2] == 'M' && name[3] == 'K' && name[4] == 'V';
  }

  /**
   * Unicode lower-casing reaches the whitelist too: with the Kelvin sign in place of the `K`,
   * `a.m\u212Av` is accepted.
   */
  lemma AllowedFileKelvin()
    ensures AllowedFile("a.m\U{212A}v")
  {
    LowersToMkv("m\U{212A}v");
    KelvinName();
    AllowedFileExtension("a", "m\U{212A}v");
  }

  /** The name of `AllowedFileKelvin` is `a`, a dot, and `m\u212Av`. */
  lemma KelvinName()
    ensures "a" + "." + "m\U{212A}v" == "a.m\U{212A}v"
  {
    var name := "a" + "." + "m\U{212A}v";
    assert name[0] == 'a' && name[1] == '.' && name[2] == 'm' && name[3] == '\U{212A}' && name[4] == 'v';
  }

  /** Three characters that lower-case one by one to `m`, `k`, `v` spell a whitelisted extension. */
  lemma LowersToMkv(ext: string)
    requires |ext| == 3 && LowerChar(ext[0]) == 'm' && LowerChar(ext[1]) == 'k' && LowerChar(ext[2]) == 'v'
    ensures Lower(ext) == "mkv" && Lower(ext) in AllowedExtensions
  {
    var low := Lower(ext);
    assert low[0] == 'm' && low[1] == 'k' && low[2] == 'v';
  }

  /**
   * `f"{filename_base}_{uuid.uuid4().hex}{file_extension}"` for the secured name and a hex token:
   * `_` and the token are inserted at the end of the root, and cutting them out gives the
   * secured name back.
   */
  function UniqueFilename(secured: string, hex: string): (u: string)
    ensures |u| == |secured| + 1 + |hex|
    ensures var n := |SplitExt(secured).0|;
            u[n..n + 1 + |hex|] == "_" + hex && u[..n] + u[n + 1 + |hex|..] == secured
  {
    var root, ext := SplitExt(secured).0, SplitExt(secured).1;
    InsertBetween(root, "_" + hex, ext);
    root + ("_" + hex) + ext
  }

  /** `f"processed_{unique_filename}"`: the unique name behind a `processed_` prefix. */
  function OutputFilename(secured: string, hex: string): (o: string)
    ensures "processed_" <= o && o[10..] == UniqueFilename(secured, hex)
    ensures |o| == |secured| + |hex| + 11
  {
    CutJoin("processed_", UniqueFilename(secured, hex));
    "processed_" + UniqueFilename(secured, hex)
  }

  /** The token lands between the root and the extension of the secured name. */
  lemma UniqueFilenameSplit(secured: string, hex: string)
    requires '.' !in hex && '/' !in hex
    ensures SplitExt(UniqueFilename(secured, hex)) == (SplitExt(secured).0 + "_" + hex, SplitExt(secured).1)
    ensures '/' !in secured ==> '/' !in UniqueFilename(secured, hex)
  {
    var root, ext := SplitExt(secured).0, SplitExt(secured).1;
    SplitExtInsert(secured, "_" + hex);
    assert root + ("_" + hex) == root + "_" + hex;
    if '/' !in secured {
      assert '/' !in root && '/' !in ext by {
        assert secured == root + ext;
      }
    }
  }

  /** A prefix without `.` or `/` before a unique name joins its root and keeps its extension. */
  lemma PrefixedUniqueSplit(pre: string, secured: string, hex: string)
    requires '.' !in pre && '/' !in pre
    requires '.' !in hex && '/' !in hex && '/' !in secured && SplitExt(secured).1 != ""
    ensures SplitExt(pre + UniqueFilename(secured, hex)) == (pre + SplitExt(secured).0 + "_" + hex, SplitExt(secured).1)
  {
    var root := SplitExt(secured).0;
    UniqueFilenameSplit(secured, hex);
    SplitExtPrepend(pre, UniqueFilename(secured, hex));
    Regroup(pre, root, "_", hex);
  }

  /**
   * The processed file keeps the uploaded extension, so it is served with the MIME type of the
   * upload.
   */
  lemma OutputFilenameKeepsExtension(secured: string, hex: string)
    requires '.' !in hex && '/' !in hex && '/' !in secured && SplitExt(secured).1 != ""
    ensures SplitExt(OutputFilename(secured, hex)) ==
              ("processed_" + SplitExt(secured).0 + "_" + hex, SplitExt(secured).1)
    ensures VideoMime(OutputFilename(secured, hex)) == VideoMime(secured)
  {
    PrefixedUniqueSplit("processed_", secured, hex);
  }

  // ---------------------------------------------------------------- method names

  /** `method_mapping` in `remove_watermark`. */
  const MethodMapping: map<string, string> :=
    map["inpaint" := "inpaint", "blend" := "blend", "mask" := "inpaint",
        "frequency" := "frequency", "exemplar" := "exemplar", "auto" := "auto"]

  /** `method_mapping.get(method, 'inpaint')`. */
  function ResolveMethod(name: string): (m: string)
    ensures m in {"inpaint", "blend", "frequency", "exemplar", "auto"}
  {
    if name in MethodMapping then MethodMapping[name] else "inpaint"
  }

  /**
   * The form's method names reach the engine as follows: `blend`, `frequency` and `exemplar`
   * select their strategy, and every other string (`inpaint`, `mask`, `auto`, unknown names)
   * runs inpaint. Resolution never fails and the five engine names map to themselves.
   */
  lemma FormMethodStrategy(name: string)
    ensures name in {"inpaint", "blend", "frequency", "exemplar", "auto"} ==> ResolveMethod(name) == name
    ensures name == "mask" || name !in MethodMapping ==> ResolveMethod(name) == "inpaint"
    ensures SelectStrategy(EffectiveMethod(ResolveMethod(name))) ==
              if name == "blend" then Blend
              else if name == "frequency" then Frequency
              else if name == "exemplar" then Exemplar
              else Inpaint
  {
    if name !in MethodMapping {
      assert name !in {"inpaint", "blend", "frequency", "exemplar", "auto", "mask"};
    }
  }

  /**
   * `remove_watermark`: resolve the form's method name and run `process_video` with a progress
   * callback (which only logs). `out` is the writer of the output video; the frames it receives
   * are those of the strategy the mapped name selects.
   */
  method RemoveWatermark(cap: Capture, coords: Option<Region>, methodName: string, lib: Library)
    returns (outcome: Outcome, out: Writer?)
    requires cap.Valid() && cap.pos == 0 && PreservesShape(lib)
    modifies cap
    ensures !cap.isOpen ==> outcome == Returned(false, OpenFailed) && out == null
    ensures cap.isOpen && outcome.Returned? ==> outcome == Returned(true, Completed)
    ensures cap.isOpen && coords.Some? && cap.frameCount != 0 ==> outcome == Returned(true, Completed)
    ensures cap.isOpen ==> out != null && fresh(out)
    ensures cap.isOpen ==>
              var region := ResolveRegion(cap.frames, cap.frameCount, cap.width, cap.height, coords, lib.analyse);
              region.Err? ==> outcome == Raised(region.error) && out.written == []
    ensures cap.isOpen ==>
              var region := ResolveRegion(cap.frames, cap.frameCount, cap.width, cap.height, coords, lib.analyse);
              region.Ok? ==>
                var all := ProcessedFrames(SelectStrategy(EffectiveMethod(ResolveMethod(methodName))), cap.frames,
                                           MaskPlane(cap.height, cap.width, region.value), lib);
                if cap.frameCount == 0 && |cap.frames| > 0 then
                  outcome == Raised(ZeroDivisionError) && out.written == all[..1]
                else
                  outcome == Returned(true, Completed) && out.written == all
  {
    var reports;
    outcome, out, reports := ProcessVideo(cap, ResolveMethod(methodName), coords, true, lib);
  }

  // ---------------------------------------------------------------- MIME types

  /** The `mime_types` table of the `video` and `direct_video` routes. */
  const VideoMimeTypes: map<string, string> :=
    map[".mp4" := "video/mp4", ".avi" := "video/x-msvideo", ".mov" := "video/quicktime",
        ".wmv" := "video/x-ms-wmv", ".mkv" := "video/x-matroska"]

  /** `mime_types.get(os.path.splitext(filename)[1].lower(), 'video/mp4')`. */
  function VideoMime(filename: string): (mime: string)
    ensures mime in VideoMimeTypes.Values
  {
    var ext := Lower(SplitExt(filename).1);
    if ext in VideoMimeTypes then VideoMimeTypes[ext]
    else
      assert VideoMimeTypes[".mp4"] == "video/mp4";
      "video/mp4"
  }

  /**
   * A name `stem.ext` is served with the type listed for `.ext` in any letter case, and with
   * `video/mp4` when the extension is not listed.
   */
  lemma VideoMimeOfName(stem: string, ext: string)
    requires '/' !in stem && HasStemChar(stem, 0, |stem|) && '.' !in ext && '/' !in ext
    ensures "." + Lower(ext) in VideoMimeTypes ==> VideoMime(stem + "." + ext) == VideoMimeTypes["." + Lower(ext)]
    ensures "." + Lower(ext) !in VideoMimeTypes ==> VideoMime(stem + "." + ext) == "video/mp4"
  {
    SplitExtOfName(stem, ext);
    assert Lower("." + ext) == "." + Lower(ext);
  }

  /** The `hls_segment` choice of MIME type by suffix. */
  function SegmentMime(segment: string): (mime: string)
    ensures mime == "application/vnd.apple.mpegurl" <==> EndsWith(segment, ".m3u8")
    ensures mime == "video/mp2t" <==> EndsWith(segment, ".ts")
    ensures mime == "application/octet-stream" <==> !EndsWith(segment, ".m3u8") && !EndsWith(segment, ".ts")
  {
    if EndsWith(segment, ".m3u8") then
      assert segment[|segment| - 1] == '8';
      "application/vnd.apple.mpegurl"
    else if EndsWith(segment, ".ts") then "video/mp2t"
    else "application/octet-stream"
  }

  // ---------------------------------------------------------------- HLS

  /** One rendition: `{'name', 'resolution', 'bitrate'}`. */
  datatype Quality = Quality(name: string, resolution: string, bitrate: string)

  /** The three renditions `hls_master` generates, best first. */
  const Qualities: seq<Quality> := [
    Quality("720p", "1280x720", "2000k"),
    Quality("480p", "854x480", "1000k"),
    Quality("360p", "640x360", "500k")]

  const PlaylistHeader := "#EXTM3U\n#EXT-X-VERSION:3\n"

  /** `bitrate.replace('k', '000')`. */
  function Bandwidth(bitrate: string): (b: string)
    ensures 'k' !in b
  {
    ReplaceAll(bitrate, 'k', "000")
  }

  /** A bitrate written in kilobits becomes bits per second: `2000k` gives `2000000`. */
  lemma BandwidthOfKilobits(digits: string)
    requires 'k' !in digits
    ensures Bandwidth(digits + "k") == digits + "000"
  {
    ReplaceAllAppend(digits, "k", 'k', "000");
    assert ReplaceAll("k", 'k', "000") == "000" by {
      assert "k"[..0] == "";
    }
  }

  /** The `#EXT-X-STREAM-INF` line of one rendition. */
  function StreamInfLine(q: Quality): string
  {
    "#EXT-X-STREAM-INF:BANDWIDTH=" + Bandwidth(q.bitrate) + ",RESOLUTION=" + q.resolution + "\n"
  }

  /** The line naming the variant playlist of one rendition. */
  function VariantUriLine(q: Quality): string
  {
    q.name + ".m3u8\n"
  }

  /** The two master-playlist lines of one rendition. */
  function VariantEntry(q: Quality): string
  {
    StreamInfLine(q) + VariantUriLine(q)
  }

  /** The master playlist for `qualities`, in list order; it always opens with the header. */
  function MasterPlaylist(qualities: seq<Quality>): (p: string)
    ensures PlaylistHeader <= p
  {
    if |qualities| == 0 then PlaylistHeader
    else MasterPlaylist(qualities[..|qualities| - 1]) + VariantEntry(qualities[|qualities| - 1])
  }

  /** The `master_content` loop of `hls_master`. */
  method BuildMasterPlaylist(qualities: seq<Quality>) returns (content: string)
    ensures content == MasterPlaylist(qualities)
  {
    content := PlaylistHeader;
    for i := 0 to |qualities|
      invariant content == MasterPlaylist(qualities[..i])
    {
      var quality := qualities[i];
      ghost var before := content;
      content := content + ("#EXT-X-STREAM-INF:BANDWIDTH=" + Bandwidth(quality.bitrate) +
                            ",RESOLUTION=" + quality.resolution + "\n");
      content := content + (quality.name + ".m3u8\n");
      assert content == before + VariantEntry(quality);
      assert qualities[..i + 1][..i] == qualities[..i];
    }
    assert qualities[..|qualities|] == qualities;
  }

  /** The playlist for a prefix of the renditions is a prefix of the playlist: list order is kept. */
  lemma {:induction false} MasterPlaylistExtends(qualities: seq<Quality>, i: nat)
    requires i <= |qualities|
    ensures PlaylistHeader <= MasterPlaylist(qualities[..i]) <= MasterPlaylist(qualities)
    decreases |qualities|
  {
    if i < |qualities| {
      var front := qualities[..|qualities| - 1];
      assert front[..i] == qualities[..i];
      MasterPlaylistExtends(front, i);
    } else {
      assert qualities[..i] == qualities;
      if |qualities| > 0 {
        var front := qualities[..|qualities| - 1];
        MasterPlaylistExtends(front, |front|);
        assert front[..|front|] == front;
      }
    }
  }

  /** The playlist `hls_master` writes: the header, then the 720p, 480p and 360p entries in that order. */
  lemma DefaultMasterPlaylist()
    ensures MasterPlaylist(Qualities) ==
              PlaylistHeader + VariantEntry(Qualities[0]) + VariantEntry(Qualities[1]) + VariantEntry(Qualities[2])
    ensures PlaylistHeader <= MasterPlaylist(Qualities)
  {
    var q := Qualities;
    assert q[..3] == q;
    assert q[..3][..2] == q[..2];
    assert q[..2][..1] == q[..1];
    assert q[..1][..0] == [];
    assert MasterPlaylist(q[..1]) == PlaylistHeader + VariantEntry(q[0]);
    assert MasterPlaylist(q[..2]) == PlaylistHeader + VariantEntry(q[0]) + VariantEntry(q[1]);
  }

  /**
   * The files `hls_master` tries, in order, for the URL segment `filename`: the name as given
   * first, then ever longer variants of it, plain or behind `processed_`.
   */
  function HlsCandidates(filename: string): (c: seq<string>)
    ensures |c| == 4 && c[0] == filename
    ensures forall i :: 0 <= i < 3 ==> |c[i]| < |c[i + 1]|
    ensures forall i :: 0 <= i < 4 ==> filename <= c[i] || "processed_" + filename <= c[i]
  {
    [filename, filename + ".mp4", "processed_" + filename, "processed_" + filename + ".mp4"]
  }

  /** Index of the first path that exists, or -1. */
  function FirstExisting(paths: seq<string>, isFile: string -> bool): (i: int)
    ensures -1 <= i < |paths|
    ensures i == -1 <==> forall j :: 0 <= j < |paths| ==> !isFile(paths[j])
    ensures i >= 0 ==> isFile(paths[i]) && forall j :: 0 <= j < i ==> !isFile(paths[j])
  {
    if |paths| == 0 then -1
    else if isFile(paths[0]) then 0
    else
      var k := FirstExisting(paths[1..], isFile);
      assert forall j :: 1 <= j < |paths| ==> paths[j] == paths[1..][j - 1];
      if k == -1 then -1 else k + 1
  }

  /** The `file_path` reassignments of `hls_master`: the source video, or `None` for the 404. */
  method HlsMasterSource(filename: string, isFile: string -> bool) returns (source: Option<string>)
    ensures var i := FirstExisting(HlsCandidates(filename), isFile);
            source == if i == -1 then None else Some(HlsCandidates(filename)[i])
  {
    ghost var cands := HlsCandidates(filename);
    var filePath := filename;
    if !isFile(filePath) {
      filePath := filename + ".mp4";
    }
    if !isFile(filePath) {
      var processedFilename := "processed_" + filename;
      filePath := processedFilename;
      assert cands[0] == filename && cands[1] == filename + ".mp4" && cands[2] == processedFilename;
      if !isFile(filePath) {
        filePath := processedFilename + ".mp4";
        assert filePath == cands[3];
        if !isFile(filePath) {
          assert forall j :: 0 <= j < 4 ==> !isFile(cands[j]);
          return None;
        }
        assert FirstExisting(cands, isFile) == 3;
      } else {
        assert FirstExisting(cands, isFile) == 2;
      }
    } else if isFile(filename) {
      assert FirstExisting(cands, isFile) == 0;
    } else {
      assert FirstExisting(cands, isFile) == 1;
    }
    source := Some(filePath);
  }

  /**
   * `os.path.splitext(os.path.basename(file_path))[0]`: the HLS directory of a source, a single
   * path component that begins the source's file name.
   */
  function HlsBase(path: string): (b: string)
    ensures '/' !in b && b <= Basename(path)
  {
    SplitExt(Basename(path)).0
  }

  /**
   * The player asks for `/hls/<stem>/master.m3u8` for a processed file `<stem>.mp4`; the server
   * then streams that file and keeps its renditions under `<stem>`.
   */
  lemma HlsSourceOfOutput(stem: string, isFile: string -> bool)
    requires '/' !in stem && '.' !in stem && |stem| > 0
    requires isFile(stem + ".mp4") && !isFile(stem)
    ensures FirstExisting(HlsCandidates(stem), isFile) == 1
    ensures HlsBase(HlsCandidates(stem)[1]) == stem
  {
    assert HlsCandidates(stem)[1] == stem + ".mp4";
    assert HasStemChar(stem, 0, |stem|) by {
      assert stem[0] != '.';
    }
    SplitExtOfName(stem, "mp4");
    assert stem + "." + "mp4" == stem + ".mp4";
    assert '/' !in stem + ".mp4";
  }

  /**
   * The segment directory `hls_segment` serves from: the name's root, else `processed_` plus the
   * root, else `None` (the 404).
   */
  function HlsSegmentDir(filename: string, dirExists: string -> bool): (dir: Option<string>)
    ensures dir.Some? ==> dirExists(dir.value)
    ensures dirExists(SplitExt(filename).0) ==> dir == Some(SplitExt(filename).0)
    ensures dir.None? <==> !dirExists(SplitExt(filename).0) && !dirExists("processed_" + SplitExt(filename).0)
    ensures dir.Some? ==> dir.value == SplitExt(filename).0 || dir.value == "processed_" + SplitExt(filename).0
  {
    var base := SplitExt(filename).0;
    if dirExists(base) then Some(base)
    else if dirExists("processed_" + base) then Some("processed_" + base)
    else None
  }

  // ---------------------------------------------------------------- cleanup

  /** `int(t)` of a float: truncation towards zero. */
  function Trunc(t: real): (r: int)
    ensures t >= 0.0 ==> r as real <= t < r as real + 1.0
    ensures t < 0.0 ==> r as real - 1.0 < t <= r as real
  {
    if t >= 0.0 then t.Floor else -((-t).Floor)
  }

  /**
   * `int(time.time()) % 3600 < 10`: the first ten seconds of every hour, that is, fewer than ten
   * seconds have passed since the last full hour.
   */
  function CleanupDue(now: real): (due: bool)
    ensures now >= 0.0 ==> (due <==> now - (3600 * (now.Floor / 3600)) as real < 10.0)
  {
    var t := Trunc(now);
    assert now >= 0.0 ==> t == now.Floor;
    assert t == 3600 * (t / 3600) + t % 3600;
    t % 3600 < 10
  }

  /** Within any hour, cleanup runs exactly during its first ten seconds. */
  lemma CleanupWindow(hour: nat, offset: real)
    requires 0.0 <= offset < 3600.0
    ensures CleanupDue(3600.0 * hour as real + offset) <==> offset < 10.0
  {
    var t := 3600.0 * hour as real + offset;
    var f := offset.Floor;
    assert 0 <= f < 3600;
    assert (3600 * hour + f) as real <= t < (3600 * hour + f + 1) as real;
    assert t.Floor == 3600 * hour + f;
    assert (3600 * hour + f) % 3600 == f;
  }

  /** `cleanup_time = 24 * 3600`. */
  const MaxAge: real := 86400.0

  /** One directory entry as `os.listdir` and `os.path` see it. */
  datatype Entry = Entry(name: string, isFile: bool, isDir: bool, mtime: real)

  /** Whether a sweep deletes `e`: a file (or, for the HLS folder, a directory) strictly older than a day. */
  predicate Expired(e: Entry, wantDir: bool, now: real)
  {
    (if wantDir then e.isDir else e.isFile) && now - e.mtime > MaxAge
  }

  /** The names a sweep deletes, in listing order. */
  function ExpiredNames(entries: seq<Entry>, wantDir: bool, now: real): (names: seq<string>)
    ensures |names| <= |entries|
  {
    if |entries| == 0 then []
    else
      var last := entries[|entries| - 1];
      ExpiredNames(entries[..|entries| - 1], wantDir, now) + (if Expired(last, wantDir, now) then [last.name] else [])
  }

  /**
   * A sweep deletes every expired entry and only expired entries; in particular an entry exactly
   * one day old survives.
   */
  lemma {:induction false} ExpiredNamesExact(entries: seq<Entry>, wantDir: bool, now: real)
    ensures forall i :: 0 <= i < |entries| && Expired(entries[i], wantDir, now) ==>
              entries[i].name in ExpiredNames(entries, wantDir, now)
    ensures forall n :: n in ExpiredNames(entries, wantDir, now) ==>
              exists i :: 0 <= i < |entries| && entries[i].name == n && Expired(entries[i], wantDir, now)
  {
    if |entries| > 0 {
      var front := entries[..|entries| - 1];
      ExpiredNamesExact(front, wantDir, now);
      assert forall i :: 0 <= i < |front| ==> front[i] == entries[i];
    }
  }

  /** One `for filename in os.listdir(folder)` loop of `cleanup_old_files`. */
  method SweepFolder(entries: seq<Entry>, wantDir: bool, now: real) returns (removed: seq<string>)
    ensures removed == ExpiredNames(entries, wantDir, now)
  {
    removed := [];
    for i := 0 to |entries|
      invariant removed == ExpiredNames(entries[..i], wantDir, now)
    {
      var entry := entries[i];
      if (if wantDir then entry.isDir else entry.isFile) && now - entry.mtime > MaxAge {
        removed := removed + [entry.name];
      }
      assert entries[..i + 1][..i] == entries[..i];
    }
    assert entries[..|entries|] == entries;
  }

  /**
   * `cleanup_old_files`: `checkTime` is the clock reading of the hour test and `now` the one the
   * ages are measured against. Returns the names removed from the uploads, outputs and HLS folders.
   */
  method CleanupOldFiles(checkTime: real, now: real, uploads: seq<Entry>, outputs: seq<Entry>, hls: seq<Entry>)
    returns (removedUploads: seq<string>, removedOutputs: seq<string>, removedHls: seq<string>)
    ensures !CleanupDue(checkTime) ==> removedUploads == [] && removedOutputs == [] && removedHls == []
    ensures CleanupDue(checkTime) ==>
              removedUploads == ExpiredNames(uploads, false, now) &&
              removedOutputs == ExpiredNames(outputs, false, now) &&
              removedHls == ExpiredNames(hls, true, now)
  {
    if Trunc(checkTime) % 3600 < 10 {
      removedUploads := SweepFolder(uploads, false, now);
      removedOutputs := SweepFolder(outputs, false, now);
      removedHls := SweepFolder(hls, true, now);
    } else {
      removedUploads, removedOutputs, removedHls := [], [], [];
    }
  }
}
