/**
 * The few string library calls the core relies on, on `seq<char>`:
 * Go's strings.Index, strings.Split and strings.Join with a one-character
 * separator, Go's strings.Contains / Python's `in`, Python's str.find,
 * str.startswith and str.split(sep, 1).
 */
module Strings {

  /** Python `s.startswith(p)`, Go `strings.HasPrefix(s, p)`. */
  predicate StartsWith(s: string, p: string) {
    |p| <= |s| && s[..|p|] == p
  }

  /** First position of `c` in `s`, or -1 (Go strings.IndexByte, Python str.find). */
  function IndexOf(s: string, c: char): (r: int)
    ensures -1 <= r < |s|
    ensures r == -1 <==> c !in s
    ensures r >= 0 ==> s[r] == c && c !in s[..r]
  {
    if |s| == 0 then -1
    else if s[0] == c then 0
    else
      var r := IndexOf(s[1..], c);
      assert s[1..][..if r < 0 then 0 else r] == s[1..if r < 0 then 1 else r + 1];
      if r < 0 then -1 else r + 1
  }

  /** Go strings.Split(s, [c]): the pieces between occurrences of `c`. */
  function Split(s: string, c: char): (parts: seq<string>)
    ensures |parts| >= 1
    ensures c !in parts[0]
    ensures c !in s ==> parts == [s]
    ensures c in s ==> parts[0] == s[..IndexOf(s, c)]
    decreases |s|
  {
    var i := IndexOf(s, c);
    if i < 0 then [s] else [s[..i]] + Split(s[i + 1..], c)
  }

  /** With `c` present, a split is the text before the first `c` followed by the split of the rest. */
  lemma SplitAtFirst(s: string, c: char)
    requires c in s
    ensures 0 <= IndexOf(s, c)
    ensures Split(s, c) == [s[..IndexOf(s, c)]] + Split(s[IndexOf(s, c) + 1..], c)
  {
  }

  /** No piece of a split holds the separator: it cuts at every occurrence. */
  lemma {:induction false} SplitPiecesFree(s: string, c: char)
    ensures forall piece | piece in Split(s, c) :: c !in piece
    decreases |s|
  {
    var i := IndexOf(s, c);
    if i < 0 {
      assert Split(s, c) == [s];
    } else {
      var head, tail := s[..i], s[i + 1..];
      SplitAtFirst(s, c);
      SplitPiecesFree(tail, c);
      forall piece | piece in Split(s, c)
        ensures c !in piece
      {
        if piece != head {
          assert piece in Split(tail, c);
        }
      }
    }
  }

  /** Go strings.Join(parts, [c]). */
  function Join(parts: seq<string>, c: char): string {
    if |parts| == 0 then ""
    else if |parts| == 1 then parts[0]
    else parts[0] + [c] + Join(parts[1..], c)
  }

  /** Joining the pieces of a split restores the string. */
  lemma {:induction false} JoinSplit(s: string, c: char)
    ensures Join(Split(s, c), c) == s
    decreases |s|
  {
    var i := IndexOf(s, c);
    if i >= 0 {
      var head, tail := s[..i], s[i + 1..];
      JoinSplit(tail, c);
      JoinCons(head, Split(tail, c), c);
      assert s == head + [c] + tail;
    }
  }

  lemma JoinCons(head: string, rest: seq<string>, c: char)
    requires |rest| >= 1
    ensures Join([head] + rest, c) == head + [c] + Join(rest, c)
  {
    var parts := [head] + rest;
    assert parts[1..] == rest;
  }

  /**
   * Go's `strings.Join(strings.Split(s, [c])[1:], [c])`: everything after
   * the first `c`, later occurrences of `c` included.
   */
  lemma AfterFirst(s: string, c: char)
    requires c in s
    ensures |Split(s, c)| > 1
    ensures Join(Split(s, c)[1..], c) == s[IndexOf(s, c) + 1..]
  {
    var i := IndexOf(s, c);
    SplitAtFirst(s, c);
    var parts, rest := Split(s, c), Split(s[i + 1..], c);
    assert parts[1..] == rest;
    JoinSplit(s[i + 1..], c);
    assert Join(parts[1..], c) == Join(rest, c);
  }

  /** Python `s.split(c, 1)`: one piece when `c` is absent, else the text around its first occurrence. */
  function SplitOnce(s: string, c: char): (parts: seq<string>)
    ensures c !in s ==> parts == [s]
    ensures c in s ==> |parts| == 2 && c !in parts[0] && parts[0] + [c] + parts[1] == s
  {
    var i := IndexOf(s, c);
    if i < 0 then [s]
    else
      assert s == s[..i] + [c] + s[i + 1..];
      [s[..i], s[i + 1..]]
  }
}
