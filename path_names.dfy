/**
 * The two `os.path` helpers the web layer uses on POSIX paths: `basename` and `splitext`.
 * `splitext` splits at the last `.` of the last path component, unless every character
 * before that `.` in the component is itself a `.` (so `.bashrc` has no extension).
 */
module PathNames {
  import opened Text

  /** `os.path.basename(p)`: the text after the last `/`. */
  function Basename(p: string): (r: string)
    ensures '/' !in r && |r| <= |p| && r == p[|p| - |r|..]
    ensures |r| < |p| ==> p[|p| - |r| - 1] == '/'
    ensures '/' !in p ==> r == p
  {
    AfterLast(p, '/')
  }

  /** Some character of `p[lo..hi]` is not a `.`. */
  predicate HasStemChar(p: string, lo: int, hi: int)
  {
    exists k :: lo <= k < hi && 0 <= k < |p| && p[k] != '.'
  }

  /** `os.path.splitext(p)` as `(root, ext)`. */
  function SplitExt(p: string): (r: (string, string))
    ensures r.0 + r.1 == p
    ensures r.1 == "" || (r.1[0] == '.' && '.' !in r.1[1..] && '/' !in r.1)
  {
    var dot := LastIndexOf(p, '.');
    var sep := LastIndexOf(p, '/');
    if dot > sep && HasStemChar(p, sep + 1, dot) then
      assert p[dot..][1..] == p[dot + 1..];
      (p[..dot], p[dot..])
    else (p, "")
  }

  /** The split happens at `dot` when it is the last `.`, after the last `/`, and preceded by a non-dot. */
  lemma SplitAt(p: string, dot: int)
    requires dot == LastIndexOf(p, '.') && dot > LastIndexOf(p, '/')
    requires HasStemChar(p, LastIndexOf(p, '/') + 1, dot)
    ensures SplitExt(p) == (p[..dot], p[dot..])
  {
  }

  /**
   * A plain file name splits at its dot: `SplitExt("clip.mp4") == ("clip", ".mp4")`, for any
   * stem without `/` that is not made of dots only.
   */
  lemma SplitExtOfName(stem: string, e: string)
    requires '/' !in stem && HasStemChar(stem, 0, |stem|)
    requires '.' !in e && '/' !in e
    ensures SplitExt(stem + "." + e) == (stem, "." + e)
  {
    var p := stem + "." + e;
    LastIndexOfAppend(stem + ".", e, '.');
    LastIndexOfAppend(stem, ".", '.');
    LastIndexOfAppend(stem + ".", e, '/');
    LastIndexOfAppend(stem, ".", '/');
    assert LastIndexOf(p, '.') == |stem|;
    assert LastIndexOf(p, '/') == -1;
    var k :| 0 <= k < |stem| && stem[k] != '.';
    assert p[k] == stem[k];
    SplitAt(p, |stem|);
    Assoc(stem, ".", e);
    CutJoin(stem, "." + e);
  }

  /**
   * Inserting text without `.` or `/` between a root and its extension keeps the split:
   * the extension stays the extension and the inserted text joins the root.
   */
  lemma SplitExtInsert(p: string, t: string)
    requires '.' !in t && '/' !in t
    ensures SplitExt(SplitExt(p).0 + t + SplitExt(p).1) == (SplitExt(p).0 + t, SplitExt(p).1)
  {
    if SplitExt(p).1 == "" {
      SplitExtAppendPlain(p, t);
    } else {
      SplitExtInsertBeforeExt(p, t);
    }
  }

  /** Text without `.` or `/` appended to a name without extension leaves it without one. */
  lemma SplitExtAppendPlain(p: string, t: string)
    requires '.' !in t && '/' !in t && SplitExt(p).1 == ""
    ensures SplitExt(p + t) == (p + t, "")
  {
    var q := p + t;
    var dot, sep := LastIndexOf(p, '.'), LastIndexOf(p, '/');
    LastIndexOfAppend(p, t, '.');
    LastIndexOfAppend(p, t, '/');
    assert forall k :: 0 <= k < |p| ==> q[k] == p[k];
  }

  lemma SplitExtInsertBeforeExt(p: string, t: string)
    requires '.' !in t && '/' !in t && SplitExt(p).1 != ""
    ensures SplitExt(SplitExt(p).0 + t + SplitExt(p).1) == (SplitExt(p).0 + t, SplitExt(p).1)
  {
    var root, ext := SplitExt(p).0, SplitExt(p).1;
    var q := root + t + ext;
    var dot, sep := LastIndexOf(p, '.'), LastIndexOf(p, '/');
    assert root == p[..dot] && ext == p[dot..];
    var k :| sep + 1 <= k < dot && 0 <= k < |p| && p[k] != '.';
    LastIndexOfAppend(root, ext, '/');
    InsertedIndices(root, t, ext);
    assert q[k] == root[k] == p[k];
    SplitAt(q, |root| + |t|);
    CutJoin(root + t, ext);
  }

  /** Where the last `.` and the last `/` of `root + t + ext` are, for an extension `ext`. */
  lemma InsertedIndices(root: string, t: string, ext: string)
    requires '.' !in t && '/' !in t
    requires ext != "" && ext[0] == '.' && '.' !in ext[1..] && '/' !in ext
    ensures LastIndexOf(root + t + ext, '.') == |root| + |t|
    ensures LastIndexOf(root + t + ext, '/') == LastIndexOf(root, '/')
  {
    assert ext == ext[..1] + ext[1..];
    LastIndexOfAppend(ext[..1], ext[1..], '.');
    LastIndexOfAppend(root + t, ext, '.');
    LastIndexOfAppend(root, t, '/');
    LastIndexOfAppend(root + t, ext, '/');
  }

  /** Prepending text without `.` or `/` to a file name that has an extension keeps the extension. */
  lemma SplitExtPrepend(pre: string, p: string)
    requires '.' !in pre && '/' !in pre && '/' !in p && SplitExt(p).1 != ""
    ensures SplitExt(pre + p) == (pre + SplitExt(p).0, SplitExt(p).1)
  {
    var q := pre + p;
    var dot := LastIndexOf(p, '.');
    PrependedIndices(pre, p);
    var k :| 0 <= k < dot && p[k] != '.';
    assert q[|pre| + k] == p[k];
    SplitAt(q, |pre| + dot);
    SliceOfJoin(pre, p, dot);
  }

  /** Where the last `.` and the last `/` of `pre + p` are, when only `p` can hold them. */
  lemma PrependedIndices(pre: string, p: string)
    requires '.' !in pre && '/' !in pre && '/' !in p && '.' in p
    ensures LastIndexOf(pre + p, '.') == |pre| + LastIndexOf(p, '.')
    ensures LastIndexOf(pre + p, '/') == -1
  {
    LastIndexOfAppend(pre, p, '.');
    LastIndexOfAppend(pre, p, '/');
  }
}
