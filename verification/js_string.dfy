/** `split` on a one-character separator, the string operation the page
    script relies on, specified through its inverse `join` with the help of
    `indexOf`. `s.split(c).pop()` is the last piece and `s.split(c)[0]` the
    first. */
module JsString {
  import opened Wrappers

  /** Position of the first occurrence of `c` in `s`, `None` for `-1`. */
  function IndexOf(s: string, c: char): (r: Option<nat>)
    ensures r.None? <==> c !in s
    ensures r.Some? ==> r.value < |s| && s[r.value] == c && c !in s[..r.value]
  {
    if |s| == 0 then None
    else if s[0] == c then Some(0)
    else match IndexOf(s[1..], c)
      case None => None
      case Some(k) =>
        assert s[..k + 1] == [s[0]] + s[1..][..k];
        Some(k + 1)
  }

  /** Any occurrence of `c` with no earlier occurrence is the one `IndexOf` finds. */
  lemma IndexOfFirst(s: string, c: char, k: nat)
    requires k < |s| && s[k] == c && c !in s[..k]
    ensures IndexOf(s, c) == Some(k)
  {
  }

  /** `parts.join(sep)`. */
  function Join(parts: seq<string>, sep: char): string
  {
    if |parts| == 0 then ""
    else if |parts| == 1 then parts[0]
    else parts[0] + [sep] + Join(parts[1..], sep)
  }

  /** No piece contains the separator. */
  ghost predicate SeparatorFree(parts: seq<string>, sep: char)
  {
    forall i :: 0 <= i < |parts| ==> sep !in parts[i]
  }

  /** `s.split(sep)`: the pieces between the occurrences of `sep`, which are
      never empty as a list, free of `sep`, and join back to `s`. */
  function Split(s: string, sep: char): (parts: seq<string>)
    ensures |parts| >= 1
    ensures SeparatorFree(parts, sep)
    ensures Join(parts, sep) == s
    decreases |s|
  {
    match IndexOf(s, sep)
    case None => [s]
    case Some(k) =>
      var rest := Split(s[k + 1..], sep);
      assert ([s[..k]] + rest)[1..] == rest;
      assert s == s[..k] + [sep] + s[k + 1..];
      [s[..k]] + rest
  }

  /** `split` is the only separator-free decomposition that joins back to `s`. */
  lemma {:induction false} SplitUnique(parts: seq<string>, sep: char, s: string)
    requires |parts| >= 1
    requires SeparatorFree(parts, sep)
    requires Join(parts, sep) == s
    ensures Split(s, sep) == parts
    decreases |parts|
  {
    assert sep !in parts[0];
    if |parts| == 1 {
      assert IndexOf(s, sep).None?;
    } else {
      var k := |parts[0]|;
      var tail := Join(parts[1..], sep);
      assert s == parts[0] + [sep] + tail;
      assert s[..k] == parts[0];
      assert s[k + 1..] == tail;
      IndexOfFirst(s, sep, k);
      assert SeparatorFree(parts[1..], sep) by {
        forall i | 0 <= i < |parts[1..]|
          ensures sep !in parts[1..][i]
        {
          assert parts[1..][i] == parts[i + 1];
        }
      }
      SplitUnique(parts[1..], sep, tail);
      assert parts == [parts[0]] + parts[1..];
    }
  }

  /** The first piece of a join is a prefix, followed by the separator when
      there is more than one piece. */
  lemma JoinFirst(parts: seq<string>, sep: char)
    requires |parts| >= 1
    ensures |parts[0]| <= |Join(parts, sep)|
    ensures Join(parts, sep)[..|parts[0]|] == parts[0]
    ensures |parts| >= 2 ==> |parts[0]| < |Join(parts, sep)| && Join(parts, sep)[|parts[0]|] == sep
  {
  }

  /** The last piece of a join is a suffix, preceded by the separator when
      there is more than one piece. */
  lemma {:induction false} JoinLast(parts: seq<string>, sep: char)
    requires |parts| >= 1
    ensures var j, l := Join(parts, sep), parts[|parts| - 1];
      |l| <= |j| && j[|j| - |l|..] == l &&
      (|parts| >= 2 ==> |l| < |j| && j[|j| - |l| - 1] == sep)
    decreases |parts|
  {
    if |parts| >= 2 {
      var tail := parts[1..];
      JoinLast(tail, sep);
      assert tail[|tail| - 1] == parts[|parts| - 1];
      var l := parts[|parts| - 1];
      var jt := Join(tail, sep);
      var j := Join(parts, sep);
      assert j == parts[0] + [sep] + jt;
      assert j[|j| - |jt|..] == jt;
      if |tail| >= 2 {
        assert j[|j| - |l| - 1] == jt[|jt| - |l| - 1];
      } else {
        assert jt == l;
      }
    }
  }

  /** `s.split(sep).pop()`. */
  function LastPiece(s: string, sep: char): (r: string)
    ensures sep !in r
    ensures |r| <= |s| && s[|s| - |r|..] == r
    ensures |r| == |s| || s[|s| - |r| - 1] == sep
  {
    var parts := Split(s, sep);
    JoinLast(parts, sep);
    parts[|parts| - 1]
  }

  /** `s.split(sep)[0]`. */
  function FirstPiece(s: string, sep: char): (r: string)
    ensures sep !in r
    ensures |r| <= |s| && s[..|r|] == r
    ensures |r| == |s| || s[|r|] == sep
  {
    var parts := Split(s, sep);
    JoinFirst(parts, sep);
    parts[0]
  }

}
