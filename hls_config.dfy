/**
 * The pure parts of the player's `HLSManager`: its option defaults, the mapping from a video
 * URL to the URL of its HLS master playlist, and the quality-level accessors over the HLS.js
 * instance, which is a value here (`None` when no instance exists).
 */
module HlsConfig {
  import opened Wrappers
  import opened Text
  import opened JsValues

  /** The defaults of the `HLSManager` constructor. */
  const HlsDefaults: JsObject :=
    map["autoStartLoad" := JsBool(true), "startLevel" := JsNumber(-1), "debug" := JsBool(false),
        "capLevelToPlayerSize" := JsBool(true), "maxBufferLength" := JsNumber(30),
        "maxMaxBufferLength" := JsNumber(60)]

  /**
   * `{...defaults, ...options}` as the constructor builds `this.options`: every default and every
   * caller option, the caller winning.
   */
  function HlsOptions(options: JsObject): (o: JsObject)
    ensures o.Keys == HlsDefaults.Keys + options.Keys
    ensures forall k :: k in options ==> o[k] == options[k]
    ensures forall k :: k in HlsDefaults && k !in options ==> o[k] == HlsDefaults[k]
  {
    Spread(HlsDefaults, options)
  }

  /**
   * Caller options win, every default the caller leaves out survives, and nothing else appears;
   * with no options the player starts at automatic level selection (`startLevel` -1).
   */
  lemma HlsOptionsMerge(options: JsObject, key: string)
    ensures key in options ==> HlsOptions(options)[key] == options[key]
    ensures key !in options && key in HlsDefaults ==> HlsOptions(options)[key] == HlsDefaults[key]
    ensures key in HlsOptions(options) <==> key in options || key in HlsDefaults
    ensures "startLevel" !in options ==> HlsOptions(options)["startLevel"] == JsNumber(-1)
    ensures HlsOptions(map[]) == HlsDefaults
  {
    assert "startLevel" in HlsDefaults;
    assert HlsDefaults + map[] == HlsDefaults;
  }

  /**
   * The file stem `getHLSUrl` extracts: drop everything from the first `?`, keep the text after
   * the last `/`, and keep the text before the first `.`.
   */
  function HlsFileStem(url: string): (stem: string)
    ensures '.' !in stem && '/' !in stem && '?' !in stem
    ensures |stem| <= |url|
  {
    var path := BeforeFirst(url, '?');
    var filename := AfterLast(path, '/');
    var stem := BeforeFirst(filename, '.');
    NotInSuffix(path, |path| - |filename|, '?');
    NotInPrefix(stem, filename, '?');
    NotInPrefix(stem, filename, '/');
    stem
  }

  /**
   * `getHLSUrl(originalUrl)`: `null` for a missing or empty URL (`None` stands for `null` and
   * `undefined`), otherwise `/hls/<stem>/master.m3u8`.
   */
  function GetHlsUrl(originalUrl: Option<string>): (r: Option<string>)
    ensures r.None? <==> originalUrl == None || originalUrl == Some("")
    ensures r.Some? ==> exists stem :: r.value == "/hls/" + stem + "/master.m3u8" &&
                                      '.' !in stem && '/' !in stem && '?' !in stem
  {
    match originalUrl
    case None => None
    case Some(url) =>
      if url == "" then None
      else
        var stem := HlsFileStem(url);
        Some("/hls/" + stem + "/master.m3u8")
  }

  /** Cutting `<dir>/<name><query>` at its first `?` leaves `<dir>/<name>`. */
  lemma PathOfVideoUrl(dir: string, name: string, query: string)
    requires '?' !in dir && '?' !in name
    requires query == [] || query[0] == '?'
    ensures BeforeFirst(dir + "/" + name + query, '?') == dir + "/" + name
  {
    var path := dir + "/" + name;
    assert '?' !in path by {
      assert forall i :: 0 <= i < |path| ==> path[i] in dir || path[i] == '/' || path[i] in name;
    }
    BeforeFirstOfJoin(path, query, '?');
  }

  /**
   * For a URL `<dir>/<stem><ext><query>` the playlist URL is `/hls/<stem>/master.m3u8`, whatever
   * the directory, the extension (which may hold further dots, so `a.b.mp4` gives `a`) and the
   * query string.
   */
  lemma HlsUrlOfVideoUrl(dir: string, stem: string, ext: string, query: string)
    requires '?' !in dir
    requires '.' !in stem && '/' !in stem && '?' !in stem
    requires (ext == [] || ext[0] == '.') && '/' !in ext && '?' !in ext
    requires query == [] || query[0] == '?'
    ensures GetHlsUrl(Some(dir + "/" + stem + ext + query)) == Some("/hls/" + stem + "/master.m3u8")
  {
    var name := stem + ext;
    assert dir + "/" + stem + ext + query == dir + "/" + name + query;
    PathOfVideoUrl(dir, name, query);
    assert dir + "/" + name == dir + ['/'] + name;
    AfterLastOfJoin(dir, '/', name);
    BeforeFirstOfJoin(stem, ext, '.');
  }

  /** One level of the HLS.js `levels` list. */
  datatype Level = Level(height: int, width: int, bitrate: int)

  /** The HLS.js instance as the accessors see it: its level list, if loaded, and its current level. */
  datatype HlsInstance = HlsInstance(levels: Option<seq<Level>>, currentLevel: int)

  /** An entry of `getQualityLevels`; the display name is not modelled. */
  datatype QualityLevel = QualityLevel(index: nat, height: int, width: int, bitrate: int)

  /** `getQualityLevels()`: one entry per level, in order and numbered from 0; `[]` without levels. */
  function GetQualityLevels(hls: Option<HlsInstance>): (r: seq<QualityLevel>)
    ensures hls.None? || hls.value.levels.None? ==> r == []
    ensures hls.Some? && hls.value.levels.Some? ==>
              |r| == |hls.value.levels.value| &&
              forall i :: 0 <= i < |r| ==>
                r[i].index == i && r[i].height == hls.value.levels.value[i].height &&
                r[i].width == hls.value.levels.value[i].width &&
                r[i].bitrate == hls.value.levels.value[i].bitrate
  {
    if hls.Some? && hls.value.levels.Some? then
      var levels := hls.value.levels.value;
      seq(|levels|, i requires 0 <= i < |levels| =>
        QualityLevel(i, levels[i].height, levels[i].width, levels[i].bitrate))
    else []
  }

  /** `getCurrentQualityLevel()`: the instance's current level, or -1 without an instance. */
  function GetCurrentQualityLevel(hls: Option<HlsInstance>): (level: int)
    ensures hls.None? ==> level == -1
    ensures hls.Some? ==> level == hls.value.currentLevel
  {
    if hls.Some? then hls.value.currentLevel else -1
  }

  /** `setQualityLevel(level)`: sets the instance's current level; without an instance, nothing happens. */
  function SetQualityLevel(hls: Option<HlsInstance>, level: int): (r: Option<HlsInstance>)
    ensures hls.None? ==> r == None
    ensures hls.Some? ==> r == Some(hls.value.(currentLevel := level))
  {
    if hls.Some? then Some(hls.value.(currentLevel := level)) else None
  }

  /**
   * Setting a level is seen by the next read when an instance exists and ignored otherwise, and
   * it never changes the level list offered to the user.
   */
  lemma SetThenGetQualityLevel(hls: Option<HlsInstance>, level: int)
    ensures GetCurrentQualityLevel(SetQualityLevel(hls, level)) == if hls.Some? then level else -1
    ensures GetQualityLevels(SetQualityLevel(hls, level)) == GetQualityLevels(hls)
  {
  }
}
