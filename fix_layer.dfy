/**
 * The rename plan of `fix_layer.py`. Each `--rename from:to` spec becomes an
 * entry of a prefix table. A first pass gives every tar member whose name
 * starts with a table key a new name. A second pass writes each member under
 * its new name, or drops it when an original member already has that name.
 * Members are modelled by their names alone; the tar streams, member headers
 * and file contents are not modelled.
 */
module LayerRename {
  import opened Wrappers
  import opened Strings

  // ---------------------------------------------------------------------------
  // The rename specs

  /** A leading `/` becomes `./`: the path is then relative, as tar member names are. */
  function FixLeadingSlash(p: string): (r: string)
    ensures |r| > 0 ==> r[0] != '/'
    ensures r == p || r == ['.'] + p
    ensures !(|p| > 0 && p[0] == '/') ==> r == p
  {
    if |p| > 0 && p[0] == '/' then ['.'] + p else p
  }

  /** The flag validator: the spec holds a `:` that is not its first character. */
  predicate ValidSpec(spec: string) {
    |spec| > 0 && spec[0] != ':' && ':' in spec
  }

  /** The validator's test as written, `find(':') > 0`, accepts exactly the valid specs. */
  lemma ValidSpecIsFind(spec: string)
    ensures ValidSpec(spec) <==> IndexOf(spec, ':') > 0
  {
    if |spec| > 0 && spec[0] == ':' {
      assert IndexOf(spec, ':') == 0;
    }
  }

  /** One spec split at its first `:` only, both sides made relative. */
  function ParseSpec(spec: string): (string, string)
    requires ValidSpec(spec)
  {
    ParseParts(SplitOnce(spec, ':'))
  }

  function ParseParts(parts: seq<string>): (string, string)
    requires |parts| == 2
  {
    (FixLeadingSlash(parts[0]), FixLeadingSlash(parts[1]))
  }

  /** The source side is the non-empty text before the first `:`, the target side all the text after it. */
  lemma ParseSpecAt(spec: string)
    requires ValidSpec(spec)
    ensures var i := IndexOf(spec, ':');
      && 0 < i < |spec|
      && ParseSpec(spec) == (FixLeadingSlash(spec[..i]), FixLeadingSlash(spec[i + 1..]))
      && |ParseSpec(spec).0| > 0
  {
    var i := IndexOf(spec, ':');
    var parts := SplitOnce(spec, ':');
    var n := |parts[0]|;
    assert spec[n] == ':';
    assert forall j :: 0 <= j < n ==> spec[j] == parts[0][j];
    assert forall j :: 0 <= j < i ==> spec[j] == spec[..i][j];
    assert spec[..n] == parts[0];
    assert spec[n + 1..] == parts[1];
  }

  /**
   * The `renames` dict: its keys in insertion order and the target of each.
   * `order` is the order in which the first pass tries the keys.
   */
  datatype RenameTable = RenameTable(order: seq<string>, target: map<string, string>) {
    ghost predicate Valid() {
      && (forall i, j :: 0 <= i < j < |order| ==> order[i] != order[j])
      && (forall k :: k in target <==> k in order)
    }

    /** `renames[k] = v`: a new key goes last, a known key keeps its place and takes the new target. */
    function Put(k: string, v: string): (t: RenameTable)
      requires Valid()
      ensures t.Valid()
      ensures t.target == target[k := v]
      ensures t.order == if k in order then order else order + [k]
    {
      RenameTable(if k in order then order else order + [k], target[k := v])
    }
  }

  /** Every spec parsed, in flag order. */
  function ParsedSpecs(specs: seq<string>): (pairs: seq<(string, string)>)
    requires forall i :: 0 <= i < |specs| ==> ValidSpec(specs[i])
    ensures |pairs| == |specs|
    ensures forall i :: 0 <= i < |specs| ==> pairs[i] == ParseSpec(specs[i])
  {
    seq(|specs|, i requires 0 <= i < |specs| => ParseSpec(specs[i]))
  }

  lemma ParsedSpecsAppend(specs: seq<string>, i: int)
    requires forall j :: 0 <= j < |specs| ==> ValidSpec(specs[j])
    requires 0 <= i < |specs|
    ensures ParsedSpecs(specs[..i + 1]) == ParsedSpecs(specs[..i]) + [ParseSpec(specs[i])]
  {
    assert specs[..i + 1][..i] == specs[..i];
  }

  /** The table the spec loop builds from the parsed specs: each stored in turn, a later one for the same source winning. */
  function TableOf(pairs: seq<(string, string)>): (t: RenameTable)
    ensures t.Valid()
  {
    if pairs == [] then RenameTable([], map[])
    else
      var kv := pairs[|pairs| - 1];
      TableOf(pairs[..|pairs| - 1]).Put(kv.0, kv.1)
  }

  lemma TableOfAppend(pairs: seq<(string, string)>, kv: (string, string))
    ensures TableOf(pairs + [kv]) == TableOf(pairs).Put(kv.0, kv.1)
  {
    assert (pairs + [kv])[..|pairs|] == pairs;
  }

  /** A pair that no later pair overrides decides its source's target. */
  lemma {:induction false} TableOfLastWins(pairs: seq<(string, string)>, i: int)
    requires 0 <= i < |pairs|
    requires forall j :: i < j < |pairs| ==> pairs[j].0 != pairs[i].0
    ensures pairs[i].0 in TableOf(pairs).target
    ensures TableOf(pairs).target[pairs[i].0] == pairs[i].1
  {
    var n := |pairs| - 1;
    var init, kv := pairs[..n], pairs[n];
    var before := TableOf(init).target;
    assert TableOf(pairs).target == before[kv.0 := kv.1];
    if i < n {
      assert init[i] == pairs[i] && kv.0 != pairs[i].0;
      assert forall j :: i < j < |init| ==> init[j] == pairs[j];
      TableOfLastWins(init, i);
      assert before[pairs[i].0] == pairs[i].1;
    }
  }

  /** Every source in the table comes from a pair: `j` is one whose source it is. */
  lemma {:induction false} TableOfKeySource(pairs: seq<(string, string)>, k: string) returns (j: int)
    requires k in TableOf(pairs).target
    ensures 0 <= j < |pairs| && pairs[j].0 == k
  {
    var n := |pairs| - 1;
    var init := pairs[..n];
    assert forall j :: 0 <= j < n ==> init[j] == pairs[j];
    if pairs[n].0 == k {
      j := n;
    } else {
      j := TableOfKeySource(init, k);
    }
  }

  /** On the specs themselves: the last spec naming a source decides its target. */
  lemma RenamesLastWins(specs: seq<string>, i: int)
    requires forall j :: 0 <= j < |specs| ==> ValidSpec(specs[j])
    requires 0 <= i < |specs|
    requires forall j :: i < j < |specs| ==> ParseSpec(specs[j]).0 != ParseSpec(specs[i]).0
    ensures ParseSpec(specs[i]).0 in TableOf(ParsedSpecs(specs)).target
    ensures TableOf(ParsedSpecs(specs)).target[ParseSpec(specs[i]).0] == ParseSpec(specs[i]).1
  {
    TableOfLastWins(ParsedSpecs(specs), i);
  }

  /** The body of the spec loop: split at the first `:`, then make each side relative. */
  method SplitSpec(spec: string) returns (p1: string, p2: string)
    requires ValidSpec(spec)
    ensures (p1, p2) == ParseSpec(spec)
  {
    var parts := SplitOnce(spec, ':');
    p1 := parts[0];
    if |p1| > 0 && p1[0] == '/' {
      p1 := ['.'] + p1;
    }
    p2 := parts[1];
    if |p2| > 0 && p2[0] == '/' {
      p2 := ['.'] + p2;
    }
  }

  /** Flag validation and the loop that fills `renames`; `None` when the validator rejects a spec. */
  method ParseRenames(specs: seq<string>) returns (table: Option<RenameTable>)
    ensures table.Some? <==> forall i :: 0 <= i < |specs| ==> ValidSpec(specs[i])
    ensures table.Some? ==> table.value == TableOf(ParsedSpecs(specs))
  {
    if !(forall i :: 0 <= i < |specs| ==> ValidSpec(specs[i])) {
      return None;
    }
    var renames := RenameTable([], map[]);
    for i := 0 to |specs|
      invariant renames == TableOf(ParsedSpecs(specs[..i]))
    {
      var p1, p2 := SplitSpec(specs[i]);
      ParsedSpecsAppend(specs, i);
      TableOfAppend(ParsedSpecs(specs[..i]), (p1, p2));
      renames := renames.Put(p1, p2);
    }
    assert specs[..|specs|] == specs;
    table := Some(renames);
  }

  // ---------------------------------------------------------------------------
  // First pass: new names

  /** The position of the first key of `order` that `name` starts with. */
  function FirstMatch(order: seq<string>, name: string): (r: Option<nat>)
    ensures r.Some? ==> r.value < |order| && StartsWith(name, order[r.value])
    ensures r.Some? ==> forall j :: 0 <= j < r.value ==> !StartsWith(name, order[j])
    ensures r.None? <==> forall j :: 0 <= j < |order| ==> !StartsWith(name, order[j])
  {
    if order == [] then None
    else if StartsWith(name, order[0]) then Some(0)
    else
      match FirstMatch(order[1..], name)
      case None => None
      case Some(i) => Some(i + 1)
  }

  /** The name the first pass gives a member: the target of the first matching key, then the rest of the name. */
  function NewName(table: RenameTable, name: string): (r: Option<string>)
    requires table.Valid()
    ensures r.None? <==> forall k | k in table.target :: !StartsWith(name, k)
    ensures r.Some? ==> exists i :: (
      && 0 <= i < |table.order| && StartsWith(name, table.order[i])
      && (forall j :: 0 <= j < i ==> !StartsWith(name, table.order[j]))
      && r.value == table.target[table.order[i]] + name[|table.order[i]|..])
  {
    match FirstMatch(table.order, name)
    case None => None
    case Some(i) =>
      var key := table.order[i];
      Some(table.target[key] + name[|key|..])
  }

  /** `new_names` after the first pass: every member that has a new name. */
  function NewNames(table: RenameTable, names: seq<string>): map<string, string>
    requires table.Valid()
  {
    map n | n in names && NewName(table, n).Some? :: NewName(table, n).value
  }

  /** The members seen so far. */
  function Members(names: seq<string>): set<string> {
    set n | n in names
  }

  lemma NewNamesAppend(table: RenameTable, names: seq<string>, name: string)
    requires table.Valid()
    ensures NewNames(table, names + [name])
         == if NewName(table, name).Some? then NewNames(table, names)[name := NewName(table, name).value]
            else NewNames(table, names)
  {
    assert forall n :: n in names + [name] <==> n in names || n == name;
  }

  /** The first pass: every member name is recorded, and those a key matches get their new name. */
  method FirstPass(table: RenameTable, names: seq<string>) returns (newNames: map<string, string>, members: set<string>)
    requires table.Valid()
    ensures newNames == NewNames(table, names)
    ensures members == Members(names)
  {
    newNames := map[];
    members := {};
    for m := 0 to |names|
      invariant newNames == NewNames(table, names[..m])
      invariant members == Members(names[..m])
    {
      var name := names[m];
      assert names[..m + 1] == names[..m] + [name];
      NewNamesAppend(table, names[..m], name);
      var i := 0;
      while i < |table.order|
        invariant 0 <= i <= |table.order|
        invariant forall j :: 0 <= j < i ==> !StartsWith(name, table.order[j])
      {
        var key := table.order[i];
        if StartsWith(name, key) {
          newNames := newNames[name := table.target[key] + name[|key|..]];
          break;
        }
        i := i + 1;
      }
      members := members + {name};
    }
    assert names[..|names|] == names;
  }

  /** When exactly one key matches, the new name comes from that key, whatever the order of the table. */
  lemma UniqueMatchIgnoresOrder(table: RenameTable, name: string, k: string)
    requires table.Valid()
    requires k in table.target && StartsWith(name, k)
    requires forall k' | k' in table.target && k' != k :: !StartsWith(name, k')
    ensures NewName(table, name) == Some(table.target[k] + name[|k|..])
  {
    var r := FirstMatch(table.order, name);
    var i :| 0 <= i < |table.order| && table.order[i] == k;
    assert r.Some?;
    assert table.order[r.value] in table.target;
  }

  // ---------------------------------------------------------------------------
  // Second pass: the members written

  /** What the second pass writes for one member: nothing, its new name, or its own name. */
  function Written(name: string, newNames: map<string, string>, members: set<string>): Option<string> {
    if name in newNames && newNames[name] != "" then
      if newNames[name] in members then None else Some(newNames[name])
    else
      Some(name)
  }

  /** The second pass as a function: the written names, in member order. */
  function Output(names: seq<string>, newNames: map<string, string>, members: set<string>): seq<string> {
    if names == [] then []
    else
      var rest := Output(names[..|names| - 1], newNames, members);
      match Written(names[|names| - 1], newNames, members)
      case None => rest
      case Some(n) => rest + [n]
  }

  /** The second pass. */
  method SecondPass(names: seq<string>, newNames: map<string, string>, members: set<string>) returns (out: seq<string>)
    ensures out == Output(names, newNames, members)
  {
    out := [];
    for m := 0 to |names|
      invariant out == Output(names[..m], newNames, members)
    {
      var name := names[m];
      var addFile := true;
      var memberName := name;
      if name in newNames && newNames[name] != "" {
        if newNames[name] in members {
          addFile := false;
        } else {
          memberName := newNames[name];
        }
      }
      if addFile {
        out := out + [memberName];
      }
      assert names[..m + 1][..m] == names[..m];
    }
    assert names[..|names|] == names;
  }

  /** The names the whole program writes for the members `names` under the specs' table. */
  function Plan(table: RenameTable, names: seq<string>): seq<string>
    requires table.Valid()
  {
    Output(names, NewNames(table, names), Members(names))
  }

  /** `main` on member names: `None` when the validator rejects a spec. */
  method FixLayer(specs: seq<string>, names: seq<string>) returns (out: Option<seq<string>>)
    ensures out.Some? <==> forall i :: 0 <= i < |specs| ==> ValidSpec(specs[i])
    ensures out.Some? ==> out.value == Plan(TableOf(ParsedSpecs(specs)), names)
  {
    var table := ParseRenames(specs);
    if table.None? {
      return None;
    }
    var newNames, members := FirstPass(table.value, names);
    var written := SecondPass(names, newNames, members);
    out := Some(written);
  }

  // ---------------------------------------------------------------------------
  // Properties of the plan

  /** A member is dropped exactly when it has a new name that an original member already has. */
  predicate Collides(name: string, newNames: map<string, string>, members: set<string>) {
    name in newNames && newNames[name] != "" && newNames[name] in members
  }

  /** The number of colliding members. */
  function Collisions(names: seq<string>, newNames: map<string, string>, members: set<string>): nat {
    if names == [] then 0
    else Collisions(names[..|names| - 1], newNames, members) + (if Collides(names[|names| - 1], newNames, members) then 1 else 0)
  }

  /** Exactly the colliding members are left out, so the output is never longer than the input. */
  lemma {:induction false} OutputLength(names: seq<string>, newNames: map<string, string>, members: set<string>)
    ensures |Output(names, newNames, members)| == |names| - Collisions(names, newNames, members)
    ensures Collisions(names, newNames, members) <= |names|
  {
    if names != [] {
      OutputLength(names[..|names| - 1], newNames, members);
    }
  }

  /** The members that keep their own name. */
  function Unrenamed(names: seq<string>, newNames: map<string, string>): seq<string> {
    if names == [] then []
    else
      var last := names[|names| - 1];
      Unrenamed(names[..|names| - 1], newNames) + (if last in newNames && newNames[last] != "" then [] else [last])
  }

  /** The written names that are original member names, in order. */
  function OriginalNames(out: seq<string>, members: set<string>): seq<string> {
    if out == [] then []
    else OriginalNames(out[..|out| - 1], members) + (if out[|out| - 1] in members then [out[|out| - 1]] else [])
  }

  lemma OriginalNamesAppend(out: seq<string>, x: string, members: set<string>)
    ensures OriginalNames(out + [x], members) == OriginalNames(out, members) + (if x in members then [x] else [])
  {
    assert (out + [x])[..|out|] == out;
  }

  /**
   * A renamed member never takes an original name, so among the written
   * names the original ones are exactly the unrenamed members, in order.
   */
  lemma {:induction false} OriginalsInOrder(names: seq<string>, newNames: map<string, string>, members: set<string>)
    requires forall i :: 0 <= i < |names| ==> names[i] in members
    ensures OriginalNames(Output(names, newNames, members), members) == Unrenamed(names, newNames)
  {
    if names != [] {
      var init := names[..|names| - 1];
      assert forall i :: 0 <= i < |init| ==> init[i] == names[i];
      OriginalsInOrder(init, newNames, members);
      var rest := Output(init, newNames, members);
      match Written(names[|names| - 1], newNames, members)
      case None =>
      case Some(n) =>
        OriginalNamesAppend(rest, n, members);
    }
  }

  /** Without renames every member is written under its own name. */
  lemma {:induction false} NoRenamesIsIdentity(names: seq<string>)
    ensures Plan(RenameTable([], map[]), names) == names
  {
    assert NewNames(RenameTable([], map[]), names) == map[];
    IdentityOutput(names, Members(names));
  }

  lemma {:induction false} IdentityOutput(names: seq<string>, members: set<string>)
    ensures Output(names, map[], members) == names
  {
    if names != [] {
      IdentityOutput(names[..|names| - 1], members);
      assert names[..|names| - 1] + [names[|names| - 1]] == names;
    }
  }

  /**
   * Only collisions with original names are avoided: two members renamed to
   * the same target name are both written, so written names need not be unique.
   */
  lemma FreshCollisionsAreWritten(a: string, b: string, target: string, newNames: map<string, string>, members: set<string>)
    requires a in newNames && b in newNames && newNames[a] == target && newNames[b] == target
    requires target != "" && target !in members
    ensures Output([a, b], newNames, members) == [target, target]
  {
    assert [a, b][..1] == [a];
    assert [a][..0] == [];
    assert Output([a], newNames, members) == [target];
  }
}
