/** Option and Result, and the few string operations the server relies on:
    Python's `str.split("/", 1)` and the suffix test behind `glob("*.jpg")`. */
module Text {

  datatype Option<+T> = None | Some(value: T)

  datatype Result<+R, +E> = Ok(value: R) | Err(error: E)

  /** The path separator used in image names such as `group/file.jpg`. */
  const Slash: char := '/'

  /** Index of the first occurrence of `c` in `s`, if there is one. */
  function FirstIndex(s: string, c: char): (r: Option<nat>)
    ensures r.None? <==> c !in s
    ensures r.Some? ==> r.value < |s| && s[r.value] == c && c !in s[..r.value]
  {
    if |s| == 0 then None
    else if s[0] == c then Some(0)
    else
      match FirstIndex(s[1..], c)
      case None => None
      case Some(i) =>
        assert s[..i + 1] == [s[0]] + s[1..][..i];
        Some(i + 1)
  }

  /** `s.split("/", 1)`: the whole string when it holds no slash, otherwise the
      text before the first slash and everything after that slash. */
  function SplitOnce(s: string): (parts: seq<string>)
    ensures |parts| == 1 || |parts| == 2
    ensures |parts| == 1 <==> Slash !in s
    ensures |parts| == 1 ==> parts[0] == s
    ensures |parts| == 2 ==> Slash !in parts[0] && parts[0] + [Slash] + parts[1] == s
  {
    match FirstIndex(s, Slash)
    case None => [s]
    case Some(i) =>
      assert s == s[..i] + [Slash] + s[i + 1..];
      [s[..i], s[i + 1..]]
  }

  /** Splitting a joined `head/tail` gives back `head` and `tail` when `head`
      holds no slash; the tail may hold any number of them. */
  lemma {:induction false} SplitJoin(head: string, tail: string)
    requires Slash !in head
    ensures SplitOnce(head + [Slash] + tail) == [head, tail]
  {
    var s := head + [Slash] + tail;
    assert s[|head|] == Slash;
    var parts := SplitOnce(s);
    assert |parts| == 2;
    var n := |parts[0]|;
    assert n == |head|;
    assert parts[0] == s[..n] == head;
    assert parts[1] == s[n + 1..] == tail;
  }

  /** `name` ends with `suffix` (case-sensitive, as on a POSIX file system). */
  predicate EndsWith(name: string, suffix: string)
  {
    |name| >= |suffix| && name[|name| - |suffix|..] == suffix
  }

  /** `name` begins with `prefix`. */
  predicate StartsWith(name: string, prefix: string)
  {
    |name| >= |prefix| && name[..|prefix|] == prefix
  }
}
