/**
 * The merge policy of `imageConfig`, stated about the specification
 * functions of Serialization (which the methods there are proved to meet).
 */
module SerializationLemmas {
  import opened Wrappers
  import opened Strings
  import opened StringOrder
  import opened ShellExpand
  import opened Serialization

  // ---------------------------------------------------------------------------
  // arrayToMap

  /** A string with a `=` is its key, `=` and its value again. */
  lemma KeyValueRoundTrip(str: string)
    requires '=' in str
    ensures KeyValue(str).0 + "=" + KeyValue(str).1 == str
  {
    KeyValueAt(str);
    var i := IndexOf(str, '=');
    assert str == str[..i] + [str[i]] + str[i + 1..];
  }

  /** The key of every string of the array is a key of the map. */
  lemma {:induction false} KeyValueMapHasKey(arr: seq<string>, i: int)
    requires 0 <= i < |arr|
    ensures KeyValue(arr[i]).0 in KeyValueMap(arr)
  {
    var n := |arr| - 1;
    if i < n {
      var init := arr[..n];
      assert init[i] == arr[i];
      KeyValueMapHasKey(init, i);
    }
  }

  /** Every key of the map is the key of some string of the array, here the `i`-th. */
  lemma {:induction false} KeyValueMapKeySource(arr: seq<string>, k: string) returns (i: int)
    requires k in KeyValueMap(arr)
    ensures 0 <= i < |arr| && KeyValue(arr[i]).0 == k
  {
    var n := |arr| - 1;
    if KeyValue(arr[n]).0 == k {
      i := n;
    } else {
      var init := arr[..n];
      i := KeyValueMapKeySource(init, k);
      assert init[i] == arr[i];
    }
  }

  /** For a repeated key the string at the larger index wins. */
  lemma {:induction false} KeyValueMapLastWins(arr: seq<string>, i: int)
    requires 0 <= i < |arr|
    requires forall j :: i < j < |arr| ==> KeyValue(arr[j]).0 != KeyValue(arr[i]).0
    ensures KeyValue(arr[i]).0 in KeyValueMap(arr)
    ensures KeyValueMap(arr)[KeyValue(arr[i]).0] == KeyValue(arr[i]).1
  {
    if i < |arr| - 1 {
      var init := arr[..|arr| - 1];
      assert forall j :: 0 <= j < |init| ==> init[j] == arr[j];
      KeyValueMapLastWins(init, i);
    }
  }

  /** Appending one string upserts its pair. */
  lemma KeyValueMapAppend(arr: seq<string>, str: string)
    ensures KeyValueMap(arr + [str]) == KeyValueMap(arr)[KeyValue(str).0 := KeyValue(str).1]
  {
    assert (arr + [str])[..|arr|] == arr;
  }

  // ---------------------------------------------------------------------------
  // ExposedPorts

  /**
   * After a merge with ports, the set holds exactly the parent ports, the
   * override ports that name a protocol, and `/tcp` added to those that do not.
   */
  lemma PortsMergedMembers(exposed: Option<set<string>>, ports: seq<string>, p: string)
    requires |ports| > 0
    ensures PortsMerged(exposed, ports).Some?
    ensures p in PortsMerged(exposed, ports).value <==>
      || p in Members(exposed)
      || (exists i :: 0 <= i < |ports| && '/' in ports[i] && p == ports[i])
      || (exists i :: 0 <= i < |ports| && '/' !in ports[i] && p == ports[i] + "/tcp")
  {
    if p in PortKeys(ports) {
      var i :| 0 <= i < |ports| && p == NormalizePort(ports[i]);
      assert '/' in ports[i] ==> p == ports[i];
    }
    if exists i :: 0 <= i < |ports| && '/' in ports[i] && p == ports[i] {
      var i :| 0 <= i < |ports| && '/' in ports[i] && p == ports[i];
      assert NormalizePort(ports[i]) == p;
    }
    if exists i :: 0 <= i < |ports| && '/' !in ports[i] && p == ports[i] + "/tcp" {
      var i :| 0 <= i < |ports| && '/' !in ports[i] && p == ports[i] + "/tcp";
      assert NormalizePort(ports[i]) == p;
    }
  }

  /** Merging the same ports twice is merging them once. */
  lemma PortsIdempotent(exposed: Option<set<string>>, ports: seq<string>)
    ensures PortsMerged(PortsMerged(exposed, ports), ports) == PortsMerged(exposed, ports)
  {
  }

  /** Repeated override ports collapse to one key. */
  lemma PortsDuplicatesCollapse(exposed: Option<set<string>>, ports: seq<string>)
    ensures PortsMerged(exposed, ports + ports) == PortsMerged(exposed, ports)
  {
    var both := ports + ports;
    assert forall i :: 0 <= i < |ports| ==> both[i] == ports[i] && both[|ports| + i] == ports[i];
    assert PortKeys(both) == PortKeys(ports) by {
      forall p | p in PortKeys(both) ensures p in PortKeys(ports) {
        var i :| 0 <= i < |both| && p == NormalizePort(both[i]);
        if i >= |ports| {
          assert both[i] == ports[i - |ports|];
        }
      }
    }
  }

  /** A port given without and with `/tcp` is one key. */
  lemma PortsTcpDefaultExample(ports: seq<string>)
    requires ports == ["80", "80/tcp"]
    ensures PortsMerged(None, ports) == Some({"80/tcp"})
  {
    assert PortKeys(ports) == {NormalizePort(ports[0]), NormalizePort(ports[1])} by {
      forall p | p in PortKeys(ports) ensures p == NormalizePort(ports[0]) || p == NormalizePort(ports[1]) {
        var i :| 0 <= i < 2 && p == NormalizePort(ports[i]);
      }
      assert NormalizePort(ports[0]) in PortKeys(ports);
      assert NormalizePort(ports[1]) in PortKeys(ports);
    }
    assert '/' !in ports[0] by { assert ports[0] == ['8', '0']; }
    assert '/' in ports[1] by { assert ports[1][2] == '/'; }
    assert NormalizePort(ports[0]) == "80/tcp";
    assert NormalizePort(ports[1]) == "80/tcp";
    assert PortKeys(ports) == {"80/tcp"};
    assert Members(None) == {};
    assert PortsMerged(None, ports) == Some(Members(None) + PortKeys(ports));
    assert Members(None) + PortKeys(ports) == {"80/tcp"};
    assert PortsMerged(None, ports) == Some({"80/tcp"});
  }

  /** When every parent key names a protocol, so does every merged key. */
  lemma PortsKeyedWithProtocol(exposed: Option<set<string>>, ports: seq<string>)
    requires forall p | p in Members(exposed) :: '/' in p
    ensures forall p | p in Members(PortsMerged(exposed, ports)) :: '/' in p
  {
  }

  // ---------------------------------------------------------------------------
  // Volumes

  /** After a merge with volumes, the set is the parent paths together with the override paths. */
  lemma VolumesMergedMembers(current: Option<set<string>>, volumes: seq<string>, v: string)
    requires |volumes| > 0
    ensures VolumesMerged(current, volumes).Some?
    ensures v in VolumesMerged(current, volumes).value <==> v in Members(current) || v in volumes
  {
  }

  /** Merging the same volumes twice is merging them once. */
  lemma VolumesIdempotent(current: Option<set<string>>, volumes: seq<string>)
    ensures VolumesMerged(VolumesMerged(current, volumes), volumes) == VolumesMerged(current, volumes)
  {
  }

  // ---------------------------------------------------------------------------
  // User, WorkingDir, Entrypoint, Cmd

  /** Each scalar or list field is the override when that is non-empty and the parent's otherwise. */
  lemma ReplacedIfNonEmpty(ic: ImageConfig, parent: Config)
    ensures MergedConfig(ic, parent).user == (if ic.user != "" then ic.user else parent.user)
    ensures MergedConfig(ic, parent).workingDir == (if ic.workingDir != "" then ic.workingDir else parent.workingDir)
    ensures MergedConfig(ic, parent).entrypoint == (if |ic.entrypoint| > 0 then ic.entrypoint else parent.entrypoint)
    ensures MergedConfig(ic, parent).cmd == (if |ic.command| > 0 then ic.command else parent.cmd)
  {
  }

  /** With no overrides at all, the merged config is the parent config. */
  lemma NoOverridesKeepsParent(parent: Config)
    ensures MergedConfig(ImageConfig([], "", [], [], [], [], [], "", []), parent) == parent
  {
  }

  // ---------------------------------------------------------------------------
  // Labels

  /**
   * Labels: untouched without overrides; otherwise a map (a nil parent map
   * becomes one) where an override wins and every other parent label stays.
   */
  lemma LabelsPolicy(labels: Option<map<string, string>>, over: seq<string>, k: string)
    ensures |over| == 0 ==> LabelsMerged(labels, over) == labels
    ensures |over| > 0 ==> LabelsMerged(labels, over).Some?
    ensures |over| > 0 && k in KeyValueMap(over) ==>
      k in LabelsMerged(labels, over).value && LabelsMerged(labels, over).value[k] == KeyValueMap(over)[k]
    ensures |over| > 0 && k !in KeyValueMap(over) ==>
      (k in LabelsMerged(labels, over).value <==> labels.Some? && k in labels.value)
    ensures |over| > 0 && k !in KeyValueMap(over) && labels.Some? && k in labels.value ==>
      LabelsMerged(labels, over).value[k] == labels.value[k]
  {
  }

  // ---------------------------------------------------------------------------
  // Env: the merged map

  /** The merged keys are the parent keys together with the override keys. */
  lemma EnvKeys(parentEnv: seq<string>, overEnv: seq<string>, k: string)
    ensures k in MergedEnvMap(parentEnv, overEnv) <==> k in KeyValueMap(parentEnv) || k in KeyValueMap(overEnv)
  {
  }

  /** A parent variable that no override names keeps its parent value. */
  lemma EnvParentKept(parentEnv: seq<string>, overEnv: seq<string>, k: string)
    requires k in KeyValueMap(parentEnv) && k !in KeyValueMap(overEnv)
    ensures MergedEnvMap(parentEnv, overEnv)[k] == KeyValueMap(parentEnv)[k]
  {
  }

  /** An overridden variable is its override expanded against the parent variables only. */
  lemma EnvOverrideExpanded(parentEnv: seq<string>, overEnv: seq<string>, k: string)
    requires k in KeyValueMap(overEnv)
    ensures MergedEnvMap(parentEnv, overEnv)[k] == Expand(KeyValueMap(overEnv)[k], MapGet(KeyValueMap(parentEnv)))
  {
  }

  /**
   * Overrides are invisible to each other: adding an override for another
   * key changes no other variable, whatever that override's value refers to.
   */
  lemma EnvSiblingsInvisible(parentEnv: seq<string>, overEnv: seq<string>, extra: string, k: string)
    requires k in MergedEnvMap(parentEnv, overEnv) && KeyValue(extra).0 != k
    ensures k in MergedEnvMap(parentEnv, overEnv + [extra])
    ensures MergedEnvMap(parentEnv, overEnv + [extra])[k] == MergedEnvMap(parentEnv, overEnv)[k]
  {
    KeyValueMapAppend(overEnv, extra);
  }

  // ---------------------------------------------------------------------------
  // Env: the serialised list

  /** Every key of the merged map is free of `=`. */
  lemma MergedKeysNoSeparator(parentEnv: seq<string>, overEnv: seq<string>)
    ensures forall k | k in MergedEnvMap(parentEnv, overEnv) :: '=' !in k
  {
    KeyValueMapKeysNoSeparator(parentEnv);
    KeyValueMapKeysNoSeparator(overEnv);
  }

  /** The list holds exactly the `k=v` entries of the merged map. */
  lemma EnvListEntries(parentEnv: seq<string>, overEnv: seq<string>, x: string)
    requires |overEnv| > 0
    ensures var m := MergedEnvMap(parentEnv, overEnv);
      x in EnvMerged(parentEnv, overEnv) <==> x in EntriesOf(m, m.Keys)
  {
    var m := MergedEnvMap(parentEnv, overEnv);
    var r := EnvMerged(parentEnv, overEnv);
    assert multiset(r) == multiset(EntriesOf(m, m.Keys));
    assert x in r <==> x in multiset(r);
  }

  /** An element that occurs twice has multiplicity at least two. */
  lemma CountTwice(s: seq<string>, i: int, j: int)
    requires 0 <= i < j < |s| && s[i] == s[j]
    ensures multiset(s)[s[i]] >= 2
  {
    assert s == s[..j] + [s[j]] + s[j + 1..];
    assert s[..j][i] == s[i];
    assert s[i] in multiset(s[..j]);
  }

  /** The list is sorted, holds no entry twice, and every entry has a `=`. */
  lemma EnvListShape(parentEnv: seq<string>, overEnv: seq<string>)
    requires |overEnv| > 0
    ensures Sorted(EnvMerged(parentEnv, overEnv))
    ensures forall i :: 0 <= i < |EnvMerged(parentEnv, overEnv)| ==> '=' in EnvMerged(parentEnv, overEnv)[i]
    ensures forall i, j :: 0 <= i < j < |EnvMerged(parentEnv, overEnv)| ==>
      EnvMerged(parentEnv, overEnv)[i] != EnvMerged(parentEnv, overEnv)[j]
  {
    var m := MergedEnvMap(parentEnv, overEnv);
    var r := EnvMerged(parentEnv, overEnv);
    var entries := EntriesOf(m, m.Keys);
    assert multiset(r) == multiset(entries);
    forall i | 0 <= i < |r| ensures '=' in r[i] {
      EnvListEntries(parentEnv, overEnv, r[i]);
      var k :| k in m && r[i] == Entry(k, m[k]);
      assert r[i][|k|] == '=';
    }
    forall i, j | 0 <= i < j < |r| ensures r[i] != r[j] {
      if r[i] == r[j] {
        CountTwice(r, i, j);
      }
    }
  }

  /** Each key has exactly one entry: no two entries of the list share a key. */
  lemma EnvOneEntryPerKey(parentEnv: seq<string>, overEnv: seq<string>)
    requires |overEnv| > 0
    ensures forall i, j :: 0 <= i < j < |EnvMerged(parentEnv, overEnv)| ==>
      KeyValue(EnvMerged(parentEnv, overEnv)[i]).0 != KeyValue(EnvMerged(parentEnv, overEnv)[j]).0
  {
    var m := MergedEnvMap(parentEnv, overEnv);
    var r := EnvMerged(parentEnv, overEnv);
    EnvListShape(parentEnv, overEnv);
    MergedKeysNoSeparator(parentEnv, overEnv);
    forall i, j | 0 <= i < j < |r| ensures KeyValue(r[i]).0 != KeyValue(r[j]).0 {
      EnvListEntries(parentEnv, overEnv, r[i]);
      EnvListEntries(parentEnv, overEnv, r[j]);
      var ki :| ki in m && r[i] == Entry(ki, m[ki]);
      var kj :| kj in m && r[j] == Entry(kj, m[kj]);
      KeyValueOfEntry(ki, m[ki]);
      KeyValueOfEntry(kj, m[kj]);
    }
  }

  /** Parsing a list of entries of `m` gives `m` on the keys the list mentions. */
  lemma {:induction false} KeyValueMapOfEntries(m: map<string, string>, s: seq<string>)
    requires forall k | k in m :: '=' !in k
    requires forall i | 0 <= i < |s| :: s[i] in EntriesOf(m, m.Keys)
    ensures KeyValueMap(s) == (map k | k in m && Entry(k, m[k]) in s :: m[k])
  {
    if s != [] {
      var init := s[..|s| - 1];
      var x := s[|s| - 1];
      assert s == init + [x];
      assert forall i | 0 <= i < |init| :: init[i] == s[i];
      KeyValueMapOfEntries(m, init);
      var k0 :| k0 in m && x == Entry(k0, m[k0]);
      KeyValueOfEntry(k0, m[k0]);
      forall k | k in m && Entry(k, m[k]) == x ensures k == k0 {
        EntryInjective(k, m[k], k0, m[k0]);
      }
    }
  }

  /** Parsing the merged list back gives the merged map. */
  lemma EnvListRoundTrip(parentEnv: seq<string>, overEnv: seq<string>)
    requires |overEnv| > 0
    ensures KeyValueMap(EnvMerged(parentEnv, overEnv)) == MergedEnvMap(parentEnv, overEnv)
  {
    var m := MergedEnvMap(parentEnv, overEnv);
    var r := EnvMerged(parentEnv, overEnv);
    MergedKeysNoSeparator(parentEnv, overEnv);
    forall i | 0 <= i < |r| ensures r[i] in EntriesOf(m, m.Keys) {
      EnvListEntries(parentEnv, overEnv, r[i]);
    }
    KeyValueMapOfEntries(m, r);
    forall k | k in m ensures Entry(k, m[k]) in r {
      EnvListEntries(parentEnv, overEnv, Entry(k, m[k]));
    }
  }

  // ---------------------------------------------------------------------------
  // Env: what a reference in an override resolves to

  /**
   * `$NAME` at the head of an override is the parent's value of NAME, copied
   * as it is (a `$` in it stays), or the bare NAME when the parent has no
   * such variable, even when another override defines it.
   */
  lemma EnvNameReference(parentEnv: seq<string>, overEnv: seq<string>, k: string, name: string, rest: string)
    requires k in KeyValueMap(overEnv) && KeyValueMap(overEnv)[k] == "$" + name + rest
    requires |name| > 0 && forall i :: 0 <= i < |name| ==> IsNameChar(name[i])
    requires |rest| == 0 || !IsNameChar(rest[0])
    ensures var env := KeyValueMap(parentEnv);
      MergedEnvMap(parentEnv, overEnv)[k] == (if name in env then env[name] else name) + Expand(rest, MapGet(env))
  {
    ExpandName(name, rest, MapGet(KeyValueMap(parentEnv)));
  }

  /** The same for `${NAME}`. */
  lemma EnvBracedReference(parentEnv: seq<string>, overEnv: seq<string>, k: string, name: string, rest: string)
    requires k in KeyValueMap(overEnv) && KeyValueMap(overEnv)[k] == "${" + name + "}" + rest
    requires |name| > 0 && '}' !in name
    ensures var env := KeyValueMap(parentEnv);
      MergedEnvMap(parentEnv, overEnv)[k] == (if name in env then env[name] else name) + Expand(rest, MapGet(env))
  {
    ExpandBraced(name, rest, MapGet(KeyValueMap(parentEnv)));
  }

  /** An override without `$` is stored as it is. */
  lemma EnvLiteralOverride(parentEnv: seq<string>, overEnv: seq<string>, k: string)
    requires k in KeyValueMap(overEnv) && '$' !in KeyValueMap(overEnv)[k]
    ensures MergedEnvMap(parentEnv, overEnv)[k] == KeyValueMap(overEnv)[k]
  {
    ExpandNoDollar(KeyValueMap(overEnv)[k], MapGet(KeyValueMap(parentEnv)));
  }
}
