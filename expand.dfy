/**
 * A stand-in for Go's `os.Expand(s, mapping)`, over a simplified grammar:
 *  - `${X}`, where X is the non-empty text up to the first `}`, becomes `mapping(X)`;
 *  - `$NAME`, where NAME is the longest non-empty run of `[A-Za-z0-9_]`, becomes `mapping(NAME)`;
 *  - every other character, and a `$` that starts neither form, is copied.
 * The text `mapping` returns is copied as it is: it is never expanded again.
 */
module ShellExpand {
  import opened Strings

  predicate IsNameChar(c: char) {
    'A' <= c <= 'Z' || 'a' <= c <= 'z' || '0' <= c <= '9' || c == '_'
  }

  /** The length of the longest prefix of `s` made of name characters. */
  function NameLength(s: string): (n: nat)
    ensures n <= |s|
    ensures forall i :: 0 <= i < n ==> IsNameChar(s[i])
    ensures n < |s| ==> !IsNameChar(s[n])
  {
    if |s| > 0 && IsNameChar(s[0]) then 1 + NameLength(s[1..]) else 0
  }

  function Expand(s: string, mapping: string -> string): string
    decreases |s|
  {
    if |s| == 0 then ""
    else if s[0] == '$' && |s| > 1 && s[1] == '{' && IndexOf(s[2..], '}') > 0 then
      var n := IndexOf(s[2..], '}');
      mapping(s[2..2 + n]) + Expand(s[3 + n..], mapping)
    else if s[0] == '$' && NameLength(s[1..]) > 0 then
      var n := NameLength(s[1..]);
      mapping(s[1..1 + n]) + Expand(s[1 + n..], mapping)
    else
      [s[0]] + Expand(s[1..], mapping)
  }

  /** A string without `$` expands to itself, whatever the mapping. */
  lemma {:induction false} ExpandNoDollar(s: string, mapping: string -> string)
    requires '$' !in s
    ensures Expand(s, mapping) == s
    decreases |s|
  {
    if |s| > 0 {
      assert s[1..] == s[1..] && '$' !in s[1..];
      ExpandNoDollar(s[1..], mapping);
      assert s == [s[0]] + s[1..];
    }
  }

  /** Text without `$` in front of the rest is copied, and the rest expands on its own. */
  lemma {:induction false} ExpandLiteralPrefix(lit: string, rest: string, mapping: string -> string)
    requires '$' !in lit
    ensures Expand(lit + rest, mapping) == lit + Expand(rest, mapping)
    decreases |lit|
  {
    if |lit| > 0 {
      var s := lit + rest;
      assert s[0] == lit[0] && s[1..] == lit[1..] + rest;
      ExpandLiteralPrefix(lit[1..], rest, mapping);
      assert lit == [lit[0]] + lit[1..];
    } else {
      assert lit + rest == rest;
    }
  }

  lemma NameLengthOf(name: string, rest: string)
    requires forall i :: 0 <= i < |name| ==> IsNameChar(name[i])
    requires |rest| == 0 || !IsNameChar(rest[0])
    ensures NameLength(name + rest) == |name|
  {
    var s := name + rest;
    assert forall i :: 0 <= i < |name| ==> s[i] == name[i];
    assert |name| < |s| ==> s[|name|] == rest[0];
  }

  /** `$NAME` is replaced by one lookup of NAME. */
  lemma ExpandName(name: string, rest: string, mapping: string -> string)
    requires |name| > 0 && forall i :: 0 <= i < |name| ==> IsNameChar(name[i])
    requires |rest| == 0 || !IsNameChar(rest[0])
    ensures Expand("$" + name + rest, mapping) == mapping(name) + Expand(rest, mapping)
  {
    var s := "$" + name + rest;
    assert s[1..] == name + rest;
    NameLengthOf(name, rest);
    assert s[1] == name[0] && IsNameChar(name[0]);
    assert s[1..1 + |name|] == name;
    assert s[1 + |name|..] == rest;
  }

  /** `${X}` is replaced by one lookup of X. */
  lemma ExpandBraced(name: string, rest: string, mapping: string -> string)
    requires |name| > 0 && '}' !in name
    ensures Expand("${" + name + "}" + rest, mapping) == mapping(name) + Expand(rest, mapping)
  {
    var s := "${" + name + "}" + rest;
    var t := s[2..];
    assert t == name + "}" + rest;
    var n := IndexOf(t, '}');
    assert t[|name|] == '}';
    assert forall i :: 0 <= i < |name| ==> t[i] == name[i];
    assert s[2..2 + n] == name;
    assert s[3 + n..] == rest;
  }

  /**
   * Expansion is one pass: when NAME is looked up as `$OTHER`, `$NAME`
   * becomes `$OTHER` and is not expanded again (a second pass would replace
   * it by the lookup of OTHER, which is `v` unless OTHER is NAME).
   */
  lemma ExpandIsOnePass(name: string, other: string)
    requires |name| > 0 && forall i :: 0 <= i < |name| ==> IsNameChar(name[i])
    ensures Expand("$" + name, k => if k == name then "$" + other else "v") == "$" + other
  {
    ExpandName(name, "", k => if k == name then "$" + other else "v");
    assert "$" + name + "" == "$" + name;
  }

  /** A second pass over that result would look OTHER up as well: one pass and two differ. */
  lemma ExpandTwiceDiffers(name: string, other: string)
    requires |name| > 0 && forall i :: 0 <= i < |name| ==> IsNameChar(name[i])
    requires |other| > 0 && forall i :: 0 <= i < |other| ==> IsNameChar(other[i])
    requires name != other
    ensures Expand(Expand("$" + name, k => if k == name then "$" + other else "v"),
                   k => if k == name then "$" + other else "v") == "v"
  {
    var lookup := k => if k == name then "$" + other else "v";
    ExpandIsOnePass(name, other);
    ExpandName(other, "", lookup);
    assert "$" + other + "" == "$" + other;
  }
}
