/**
 * The player and the server agree on HLS names: the playlist URL the player derives from a
 * processed video's URL names the directory under which the server keeps that video's renditions.
 */
module Streaming {
  import opened Wrappers
  import HlsConfig
  import WebApp

  /**
   * A processed video `<stem>.mp4` (with a dot-free stem) shown at `<dir>/<stem>.mp4<query>` is
   * streamed from `/hls/<stem>/master.m3u8`; the server answers that request from the file
   * `<stem>.mp4` and keeps the renditions under `<stem>`.
   */
  lemma PlayerAndServerAgree(dir: string, stem: string, query: string, isFile: string -> bool)
    requires '?' !in dir
    requires '.' !in stem && '/' !in stem && '?' !in stem && |stem| > 0
    requires query == [] || query[0] == '?'
    requires isFile(stem + ".mp4") && !isFile(stem)
    ensures HlsConfig.GetHlsUrl(Some(dir + "/" + stem + ".mp4" + query)) == Some("/hls/" + stem + "/master.m3u8")
    ensures WebApp.FirstExisting(WebApp.HlsCandidates(stem), isFile) == 1
    ensures WebApp.HlsCandidates(stem)[1] == stem + ".mp4"
    ensures WebApp.HlsBase(stem + ".mp4") == stem
  {
    HlsConfig.HlsUrlOfVideoUrl(dir, stem, ".mp4", query);
    WebApp.HlsSourceOfOutput(stem, isFile);
  }
}
