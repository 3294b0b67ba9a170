/** String helpers with the semantics of the Python and JavaScript built-ins the source uses. */
module Text {

  /**
   * Python's lower-casing of one character where it yields a single ASCII letter: `A`-`Z`, and
   * the Kelvin sign U+212A, which lower-cases to `k`. Every other character is kept.
   */
  function LowerChar(c: char): (r: char)
    ensures 'A' <= c <= 'Z' ==> r as int == c as int + 32
    ensures c == '\U{212A}' ==> r == 'k'
    ensures !('A' <= c <= 'Z') && c != '\U{212A}' ==> r == c
    ensures !('A' <= r <= 'Z')
  {
    if 'A' <= c <= 'Z' then (c as int + 32) as char
    else if c == '\U{212A}' then 'k'
    else c
  }

  /** `s.lower()` (Python), character by character as `LowerChar` does it. */
  function Lower(s: string): (r: string)
    ensures |r| == |s|
    ensures forall i :: 0 <= i < |s| ==> r[i] == LowerChar(s[i])
  {
    seq(|s|, i requires 0 <= i < |s| => LowerChar(s[i]))
  }

  /** Index of the last occurrence of `ch` in `s`, or -1 (`str.rfind`, `lastIndexOf`). */
  function LastIndexOf(s: string, ch: char): (r: int)
    ensures -1 <= r < |s|
    ensures r == -1 <==> ch !in s
    ensures r >= 0 ==> s[r] == ch
    ensures forall j :: r < j < |s| ==> s[j] != ch
  {
    if |s| == 0 then -1
    else if s[|s| - 1] == ch then |s| - 1
    else LastIndexOf(s[..|s| - 1], ch)
  }

  /** The last `ch` of a concatenation is the last one of the second part, if it has one. */
  lemma LastIndexOfAppend(a: string, b: string, ch: char)
    ensures LastIndexOf(a + b, ch) == if ch in b then |a| + LastIndexOf(b, ch) else LastIndexOf(a, ch)
  {
    var r := LastIndexOf(a + b, ch);
    if ch in b {
      assert (a + b)[|a| + LastIndexOf(b, ch)] == ch;
    } else if ch in a {
      assert (a + b)[LastIndexOf(a, ch)] == ch;
      assert forall j :: |a| <= j < |a + b| ==> (a + b)[j] == b[j - |a|];
    } else {
      assert forall j :: 0 <= j < |a + b| ==> (a + b)[j] in a || (a + b)[j] in b;
    }
  }

  /** Index of the first occurrence of `ch` in `s`, or -1 (`str.find`, `indexOf`). */
  function FirstIndexOf(s: string, ch: char): (r: int)
    ensures -1 <= r < |s|
    ensures r == -1 <==> ch !in s
    ensures r >= 0 ==> s[r] == ch
    ensures forall j :: 0 <= j < r || (r == -1 && 0 <= j < |s|) ==> s[j] != ch
  {
    if |s| == 0 then -1
    else if s[0] == ch then 0
    else var k := FirstIndexOf(s[1..], ch); if k == -1 then -1 else k + 1
  }

  /** JavaScript `s.split(ch)[0]`: the text before the first `ch`, or all of `s`. */
  function BeforeFirst(s: string, ch: char): (r: string)
    ensures ch !in r
    ensures r <= s
    ensures |r| < |s| ==> s[|r|] == ch
  {
    var k := FirstIndexOf(s, ch);
    if k == -1 then s else s[..k]
  }

  /** The text after the last `ch` (JavaScript `split(ch)` last part, Python `rsplit(ch, 1)[-1]`). */
  function AfterLast(s: string, ch: char): (r: string)
    ensures ch !in r
    ensures |r| <= |s| && r == s[|s| - |r|..]
    ensures |r| < |s| ==> s[|s| - |r| - 1] == ch
  {
    var k := LastIndexOf(s, ch);
    s[k + 1..]
  }

  /** A character missing from `s` is missing from every prefix of `s`. */
  lemma NotInPrefix(p: string, s: string, ch: char)
    requires p <= s && ch !in s
    ensures ch !in p
  {
    assert forall j :: 0 <= j < |p| ==> p[j] == s[j];
  }

  /** A character missing from `s` is missing from every suffix of `s`. */
  lemma NotInSuffix(s: string, k: nat, ch: char)
    requires k <= |s| && ch !in s
    ensures ch !in s[k..]
  {
    assert forall j :: 0 <= j < |s| - k ==> s[k..][j] == s[k + j];
  }

  /** When `a` holds no `ch` and `b` is empty or starts with `ch`, `BeforeFirst` returns `a`. */
  lemma BeforeFirstOfJoin(a: string, b: string, ch: char)
    requires ch !in a && (b == [] || b[0] == ch)
    ensures BeforeFirst(a + b, ch) == a
  {
    var s := a + b;
    assert forall j :: 0 <= j < |a| ==> s[j] == a[j];
    if b == [] {
      assert s == a;
    } else {
      assert s[|a|] == ch;
      assert s[..|a|] == a;
    }
  }

  /** When the last part holds no `ch`, `AfterLast` returns exactly that part. */
  lemma AfterLastOfJoin(prefix: string, ch: char, last: string)
    requires ch !in last
    ensures AfterLast(prefix + [ch] + last, ch) == last
  {
    LastIndexOfAppend(prefix + [ch], last, ch);
    LastIndexOfAppend(prefix, [ch], ch);
    assert (prefix + [ch] + last)[|prefix| + 1..] == last;
  }

  /** `s.endswith(suffix)`. */
  predicate EndsWith(s: string, suffix: string)
  {
    |suffix| <= |s| && s[|s| - |suffix|..] == suffix
  }

  /** `s.replace(ch, rep)` for a one-character pattern: every `ch` becomes `rep`. */
  function ReplaceAll(s: string, ch: char, rep: string): (r: string)
    ensures ch !in s ==> r == s
    ensures ch !in rep ==> ch !in r
  {
    if |s| == 0 then ""
    else ReplaceAll(s[..|s| - 1], ch, rep) + (if s[|s| - 1] == ch then rep else [s[|s| - 1]])
  }

  /** Replacing in a concatenation replaces in both parts. */
  lemma {:induction false} ReplaceAllAppend(a: string, b: string, ch: char, rep: string)
    ensures ReplaceAll(a + b, ch, rep) == ReplaceAll(a, ch, rep) + ReplaceAll(b, ch, rep)
    decreases |b|
  {
    if |b| == 0 {
      assert a + b == a;
    } else {
      var b' := b[..|b| - 1];
      var tail := if b[|b| - 1] == ch then rep else [b[|b| - 1]];
      assert (a + b)[..|a + b| - 1] == a + b';
      assert (a + b)[|a + b| - 1] == b[|b| - 1];
      ReplaceAllAppend(a, b', ch, rep);
      assert ReplaceAll(b, ch, rep) == ReplaceAll(b', ch, rep) + tail;
      Regroup(ReplaceAll(a, ch, rep), ReplaceAll(b', ch, rep), tail, []);
      assert ReplaceAll(b', ch, rep) + tail + [] == ReplaceAll(b', ch, rep) + tail;
    }
  }

  /** Cutting `a + b` at a position inside `b` cuts `b` there. */
  lemma SliceOfJoin<T>(a: seq<T>, b: seq<T>, k: nat)
    requires k <= |b|
    ensures (a + b)[..|a| + k] == a + b[..k]
    ensures (a + b)[|a| + k..] == b[k..]
  {
  }

  /** `t` inserted between `a` and `b` sits right after `a`, and cutting it out gives `a + b`. */
  lemma InsertBetween<T>(a: seq<T>, t: seq<T>, b: seq<T>)
    ensures |a + t + b| == |a| + |t| + |b|
    ensures (a + t + b)[|a|..|a| + |t|] == t
    ensures (a + t + b)[..|a|] + (a + t + b)[|a| + |t|..] == a + b
  {
    var u := a + t + b;
    assert u[..|a|] == a;
    assert u[|a| + |t|..] == b;
  }

  /** Cutting `a + b` where `b` starts gives back `a` and `b`. */
  lemma CutJoin<T>(a: seq<T>, b: seq<T>)
    ensures (a + b)[..|a|] == a && (a + b)[|a|..] == b
  {
  }

  /** Concatenation is associative. */
  lemma Assoc<T>(a: seq<T>, b: seq<T>, c: seq<T>)
    ensures a + b + c == a + (b + c)
  {
  }

  /** Concatenation regroups freely. */
  lemma Regroup<T>(a: seq<T>, b: seq<T>, c: seq<T>, d: seq<T>)
    ensures a + (b + c + d) == a + b + c + d
  {
  }
}
