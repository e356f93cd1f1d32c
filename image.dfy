/**
 * The image-config merge of the `serialization` package: a parent OCI image
 * and a set of overrides become the child image.
 *
 * The Go code copies the parent config and updates the copy field by field;
 * here that copy is a local `Config` value, so the parent is never changed
 * (the Go maps are shared with the caller, which this model does not claim
 * either way). Each loop of the Go code is a method proved equal to a
 * specification function of its inputs; `BuildConfig` is proved equal to
 * `MergedConfig`, about which SerializationLemmas states the merge policy.
 */
module Serialization {
  import opened Wrappers
  import opened Strings
  import opened StringOrder
  import opened ShellExpand

  /** `time.Date(1, 1, 1, 0, 0, 0, 0, time.UTC)`, the fixed creation time, as JSON writes it. */
  const Epoch := "0001-01-01T00:00:00Z"

  /** The overrides, one field per command-line flag (Go's `ImageConfig`). */
  datatype ImageConfig = ImageConfig(
    layers: seq<string>,
    user: string,
    ports: seq<string>,
    env: seq<string>,
    entrypoint: seq<string>,
    command: seq<string>,
    volumes: seq<string>,
    workingDir: string,
    labels: seq<string>)

  /**
   * The fields of an OCI image config that the merge reads or writes.
   * `ExposedPorts` and `Volumes` are Go maps to empty structs (sets), and
   * `None` stands for a nil map; a nil slice is the empty sequence.
   */
  datatype Config = Config(
    user: string,
    exposedPorts: Option<set<string>>,
    env: seq<string>,
    entrypoint: seq<string>,
    cmd: seq<string>,
    volumes: Option<set<string>>,
    workingDir: string,
    labels: Option<map<string, string>>)

  datatype RootFS = RootFS(fsType: string, diffIDs: seq<string>)

  datatype History = History(created: string, createdBy: string, author: string, comment: string, emptyLayer: bool)

  datatype Image = Image(
    created: string,
    author: string,
    architecture: string,
    os: string,
    config: Config,
    rootFS: RootFS,
    history: seq<History>)

  // ---------------------------------------------------------------------------
  // arrayToMap and mapGet

  /**
   * One string of `arrayToMap(arr, "=")`: split at every `=`, the key is the
   * first piece and the value the other pieces joined again with `=`.
   */
  function KeyValue(str: string): (string, string) {
    var s := Split(str, '=');
    if |s| > 0 then
      (s[0], if |s| > 1 then Join(s[1..], '=') else "")
    else
      (str, "")
  }

  /** The key is the text before the first `=` and the value all the text after it. */
  lemma KeyValueAt(str: string)
    ensures '=' !in KeyValue(str).0
    ensures '=' in str ==> KeyValue(str) == (str[..IndexOf(str, '=')], str[IndexOf(str, '=') + 1..])
    ensures '=' !in str ==> KeyValue(str) == (str, "")
  {
    var s := Split(str, '=');
    if '=' in str {
      AfterFirst(str, '=');
      assert |s| > 1 && s[0] == str[..IndexOf(str, '=')];
      assert KeyValue(str) == (s[0], Join(s[1..], '='));
    } else {
      assert s == [str];
    }
  }

  /** Parsing `k=v` gives back `k` and `v` when `k` holds no `=`. */
  lemma KeyValueOfEntry(k: string, v: string)
    requires '=' !in k
    ensures KeyValue(Entry(k, v)) == (k, v)
  {
    var s := Entry(k, v);
    assert s[|k|] == '=' && s[..|k|] == k && s[|k| + 1..] == v;
    var i := IndexOf(s, '=');
    assert i == |k| by {
      assert forall j :: 0 <= j < |k| ==> s[j] == k[j];
    }
    KeyValueAt(s);
  }

  /** The map `arrayToMap` builds: each string in turn, a later one overwriting an earlier key. */
  function KeyValueMap(arr: seq<string>): map<string, string>
  {
    if arr == [] then map[]
    else
      var kv := KeyValue(arr[|arr| - 1]);
      KeyValueMap(arr[..|arr| - 1])[kv.0 := kv.1]
  }

  lemma {:induction false} KeyValueMapKeysNoSeparator(arr: seq<string>)
    ensures forall k | k in KeyValueMap(arr) :: '=' !in k
  {
    if arr != [] {
      KeyValueMapKeysNoSeparator(arr[..|arr| - 1]);
      KeyValueAt(arr[|arr| - 1]);
    }
  }

  /** Go's `arrayToMap(arr, "=")`. */
  method ArrayToMap(arr: seq<string>) returns (m: map<string, string>)
    ensures m == KeyValueMap(arr)
    ensures forall k | k in m :: '=' !in k
  {
    m := map[];
    for i := 0 to |arr|
      invariant m == KeyValueMap(arr[..i])
    {
      var kv := KeyValue(arr[i]);
      m := m[kv.0 := kv.1];
      assert arr[..i + 1][..i] == arr[..i];
    }
    assert arr[..|arr|] == arr;
    KeyValueMapKeysNoSeparator(arr);
  }

  /** Go's `mapGet(m)`: the value of a known name, the bare name otherwise. */
  function MapGet(m: map<string, string>): (lookup: string -> string)
    ensures forall k :: lookup(k) == if k in m then m[k] else k
  {
    k => if k in m then m[k] else k
  }

  // ---------------------------------------------------------------------------
  // ExposedPorts and Volumes: set union

  /** A port without a protocol is taken to be TCP. */
  function NormalizePort(port: string): (key: string)
    ensures '/' in key
  {
    if '/' !in port then port + "/tcp" else port
  }

  /** The elements of a possibly nil set. */
  function Members(s: Option<set<string>>): set<string> {
    s.GetOr({})
  }

  /** The normalised override ports. */
  function PortKeys(ports: seq<string>): set<string> {
    set i | 0 <= i < |ports| :: NormalizePort(ports[i])
  }

  /** ExposedPorts after the merge: untouched without overrides, else the union. */
  function PortsMerged(exposed: Option<set<string>>, ports: seq<string>): Option<set<string>> {
    if |ports| == 0 then exposed else Some(Members(exposed) + PortKeys(ports))
  }

  /** The port loop of `imageConfig`. */
  method AddPorts(exposed: Option<set<string>>, ports: seq<string>) returns (r: Option<set<string>>)
    ensures r == PortsMerged(exposed, ports)
  {
    r := exposed;
    for i := 0 to |ports|
      invariant r == PortsMerged(exposed, ports[..i])
    {
      var port := NormalizePort(ports[i]);
      if r.None? {
        r := Some({});
      }
      assert r.value == Members(exposed) + PortKeys(ports[..i]);
      r := Some(r.value + {port});
      assert PortKeys(ports[..i + 1]) == PortKeys(ports[..i]) + {port} by {
        assert forall j | 0 <= j < i :: ports[..i + 1][j] == ports[..i][j];
        assert ports[..i + 1][i] == ports[i];
      }
      assert r.value == Members(exposed) + PortKeys(ports[..i + 1]);
    }
    assert ports[..|ports|] == ports;
  }

  /** The override volume paths. */
  function VolumeKeys(volumes: seq<string>): set<string> {
    set i | 0 <= i < |volumes| :: volumes[i]
  }

  /** Volumes after the merge: untouched without overrides, else the union. */
  function VolumesMerged(current: Option<set<string>>, volumes: seq<string>): Option<set<string>> {
    if |volumes| == 0 then current else Some(Members(current) + VolumeKeys(volumes))
  }

  /** The volume loop of `imageConfig`. */
  method AddVolumes(current: Option<set<string>>, volumes: seq<string>) returns (r: Option<set<string>>)
    ensures r == VolumesMerged(current, volumes)
  {
    r := current;
    for i := 0 to |volumes|
      invariant r == VolumesMerged(current, volumes[..i])
    {
      if r.None? {
        r := Some({});
      }
      assert r.value == Members(current) + VolumeKeys(volumes[..i]);
      r := Some(r.value + {volumes[i]});
      assert VolumeKeys(volumes[..i + 1]) == VolumeKeys(volumes[..i]) + {volumes[i]} by {
        assert forall j | 0 <= j < i :: volumes[..i + 1][j] == volumes[..i][j];
        assert volumes[..i + 1][i] == volumes[i];
      }
      assert r.value == Members(current) + VolumeKeys(volumes[..i + 1]);
    }
    assert volumes[..|volumes|] == volumes;
  }

  // ---------------------------------------------------------------------------
  // Labels: key-value upsert

  /** The part of `m` on the keys `ks`: what a loop over the keys has visited. */
  function Restrict(m: map<string, string>, ks: set<string>): map<string, string> {
    map k | k in ks && k in m :: m[k]
  }

  lemma RestrictInsert(b: map<string, string>, m: map<string, string>, ks: set<string>, k: string)
    requires k in m
    ensures b + Restrict(m, ks + {k}) == (b + Restrict(m, ks))[k := m[k]]
  {
  }

  /** Labels after the merge: untouched without overrides, else the parsed pairs upserted. */
  function LabelsMerged(labels: Option<map<string, string>>, over: seq<string>): Option<map<string, string>> {
    if |over| == 0 then labels else Some(labels.GetOr(map[]) + KeyValueMap(over))
  }

  /** The label block of `imageConfig`. */
  method UpsertLabels(labels: Option<map<string, string>>, over: seq<string>) returns (r: Option<map<string, string>>)
    ensures r == LabelsMerged(labels, over)
  {
    r := labels;
    if |over| > 0 {
      if r.None? {
        r := Some(map[]);
      }
      var kv := ArrayToMap(over);
      var keys := kv.Keys;
      assert Restrict(kv, kv.Keys - keys) == map[];
      assert r.value == labels.GetOr(map[]) + map[];
      while keys != {}
        invariant keys <= kv.Keys
        invariant r == Some(labels.GetOr(map[]) + Restrict(kv, kv.Keys - keys))
        decreases keys
      {
        var k :| k in keys;
        RestrictInsert(labels.GetOr(map[]), kv, kv.Keys - keys, k);
        assert kv.Keys - (keys - {k}) == (kv.Keys - keys) + {k};
        r := Some(r.value[k := kv[k]]);
        keys := keys - {k};
      }
      assert Restrict(kv, kv.Keys - {}) == kv;
    }
  }

  // ---------------------------------------------------------------------------
  // Env: expand against the parent, upsert, serialise sorted

  /** The `KEY=VALUE` form of one variable. */
  function Entry(k: string, v: string): string {
    k + "=" + v
  }

  /** Distinct keys without `=` give distinct entries. */
  lemma EntryInjective(k1: string, v1: string, k2: string, v2: string)
    requires '=' !in k1 && '=' !in k2
    requires Entry(k1, v1) == Entry(k2, v2)
    ensures k1 == k2 && v1 == v2
  {
    KeyValueOfEntry(k1, v1);
    KeyValueOfEntry(k2, v2);
  }

  /** The entries of the keys `ks` of `m`. */
  ghost function EntriesOf(m: map<string, string>, ks: set<string>): set<string> {
    set k | k in ks && k in m :: Entry(k, m[k])
  }

  /** Every override value expanded against the parent variables `env`. */
  function ExpandedOverrides(over: map<string, string>, env: map<string, string>): map<string, string> {
    map k | k in over :: Expand(over[k], MapGet(env))
  }

  /** The merged variables: the parent's, and every override expanded against the parent alone. */
  ghost function MergedEnvMap(parentEnv: seq<string>, overEnv: seq<string>): map<string, string> {
    var env := KeyValueMap(parentEnv);
    env + ExpandedOverrides(KeyValueMap(overEnv), env)
  }

  /** Env after the merge: untouched without overrides, else the sorted entries of the merged map. */
  ghost function EnvMerged(parentEnv: seq<string>, overEnv: seq<string>): seq<string> {
    if |overEnv| == 0 then parentEnv
    else
      var m := MergedEnvMap(parentEnv, overEnv);
      Sort(SetToSeq(EntriesOf(m, m.Keys)))
  }

  /** The env block of `imageConfig`. */
  method MergeEnv(parentEnv: seq<string>, overEnv: seq<string>) returns (result: seq<string>)
    ensures result == EnvMerged(parentEnv, overEnv)
  {
    result := parentEnv;
    if |overEnv| > 0 {
      var env := ArrayToMap(parentEnv);
      var newEnv := CopyVariables(env);
      var over := ArrayToMap(overEnv);
      newEnv := ApplyOverrides(newEnv, over, env);
      var envArray := Serialize(newEnv);
      result := Sort(envArray);
      SortIgnoresOrder(envArray, SetToSeq(EntriesOf(newEnv, newEnv.Keys)));
    }
  }

  /** The loop that copies the parent variables into a fresh map. */
  method CopyVariables(env: map<string, string>) returns (newEnv: map<string, string>)
    ensures newEnv == env
  {
    newEnv := map[];
    var keys := env.Keys;
    assert Restrict(env, env.Keys - keys) == map[];
    assert newEnv == map[] + map[];
    while keys != {}
      invariant keys <= env.Keys
      invariant newEnv == map[] + Restrict(env, env.Keys - keys)
      decreases keys
    {
      var k :| k in keys;
      RestrictInsert(map[], env, env.Keys - keys, k);
      assert env.Keys - (keys - {k}) == (env.Keys - keys) + {k};
      newEnv := newEnv[k := env[k]];
      keys := keys - {k};
    }
    assert env.Keys - {} == env.Keys;
  }

  /** The loop that stores every override, expanded against the parent variables `env`. */
  method ApplyOverrides(newEnv: map<string, string>, over: map<string, string>, env: map<string, string>)
    returns (r: map<string, string>)
    ensures r == newEnv + ExpandedOverrides(over, env)
  {
    r := newEnv;
    ghost var expanded := ExpandedOverrides(over, env);
    var keys := over.Keys;
    assert Restrict(expanded, over.Keys - keys) == map[];
    assert r == newEnv + map[];
    while keys != {}
      invariant keys <= over.Keys
      invariant r == newEnv + Restrict(expanded, over.Keys - keys)
      decreases keys
    {
      var k :| k in keys;
      RestrictInsert(newEnv, expanded, over.Keys - keys, k);
      assert over.Keys - (keys - {k}) == (over.Keys - keys) + {k};
      r := r[k := Expand(over[k], MapGet(env))];
      keys := keys - {k};
    }
    assert over.Keys - {} == over.Keys;
    assert Restrict(expanded, over.Keys) == expanded;
  }

  /** Sorting forgets the order the map loop produced. */
  lemma SortIgnoresOrder(a: seq<string>, b: seq<string>)
    requires multiset(a) == multiset(b)
    ensures Sort(a) == Sort(b)
  {
    SortedUnique(Sort(a), Sort(b));
  }

  /** The loop that lists `k=v` for every variable, in map order (any order). */
  method Serialize(m: map<string, string>) returns (envArray: seq<string>)
    requires forall k | k in m :: '=' !in k
    ensures multiset(envArray) == multiset(EntriesOf(m, m.Keys))
  {
    envArray := [];
    var keys := m.Keys;
    while keys != {}
      invariant keys <= m.Keys
      invariant multiset(envArray) == multiset(EntriesOf(m, m.Keys - keys))
      decreases keys
    {
      var k :| k in keys;
      var e := Entry(k, m[k]);
      assert e !in EntriesOf(m, m.Keys - keys) by {
        forall k' | k' in m.Keys - keys ensures Entry(k', m[k']) != e {
          if Entry(k', m[k']) == e { EntryInjective(k', m[k'], k, m[k]); }
        }
      }
      assert EntriesOf(m, m.Keys - (keys - {k})) == EntriesOf(m, m.Keys - keys) + {e};
      envArray := envArray + [e];
      keys := keys - {k};
    }
  }

  // ---------------------------------------------------------------------------
  // imageConfig, imageRootFS, imageHistory, CreateImage

  /** The child config: every field under its own merge policy. */
  ghost function MergedConfig(ic: ImageConfig, parent: Config): Config {
    Config(
      user := if ic.user != "" then ic.user else parent.user,
      exposedPorts := PortsMerged(parent.exposedPorts, ic.ports),
      env := EnvMerged(parent.env, ic.env),
      entrypoint := if |ic.entrypoint| > 0 then ic.entrypoint else parent.entrypoint,
      cmd := if |ic.command| > 0 then ic.command else parent.cmd,
      volumes := VolumesMerged(parent.volumes, ic.volumes),
      workingDir := if ic.workingDir != "" then ic.workingDir else parent.workingDir,
      labels := LabelsMerged(parent.labels, ic.labels))
  }

  /** Go's `imageConfig`: updates a copy of the parent config field by field. */
  method BuildConfig(ic: ImageConfig, parentConfig: Config) returns (c: Config)
    ensures c == MergedConfig(ic, parentConfig)
  {
    c := parentConfig;
    if ic.user != "" {
      c := c.(user := ic.user);
    }
    var ports := AddPorts(c.exposedPorts, ic.ports);
    c := c.(exposedPorts := ports);
    var env := MergeEnv(c.env, ic.env);
    c := c.(env := env);
    if |ic.entrypoint| > 0 {
      c := c.(entrypoint := ic.entrypoint);
    }
    if |ic.command| > 0 {
      c := c.(cmd := ic.command);
    }
    var volumes := AddVolumes(c.volumes, ic.volumes);
    c := c.(volumes := volumes);
    if ic.workingDir != "" {
      c := c.(workingDir := ic.workingDir);
    }
    var labels := UpsertLabels(c.labels, ic.labels);
    c := c.(labels := labels);
  }

  /** `ids` is `parentIDs` followed by one `sha256:` digest per layer, in order. */
  ghost predicate DiffIDsAppended(parentIDs: seq<string>, layers: seq<string>, ids: seq<string>) {
    && |ids| == |parentIDs| + |layers|
    && ids[..|parentIDs|] == parentIDs
    && forall i :: 0 <= i < |layers| ==> ids[|parentIDs| + i] == "sha256:" + layers[i]
  }

  /** Go's `imageRootFS`. */
  method BuildRootFS(ic: ImageConfig, rootFS: RootFS) returns (r: RootFS)
    ensures r.fsType == "layers"
    ensures DiffIDsAppended(rootFS.diffIDs, ic.layers, r.diffIDs)
  {
    var diffIDs := rootFS.diffIDs;
    for i := 0 to |ic.layers|
      invariant DiffIDsAppended(rootFS.diffIDs, ic.layers[..i], diffIDs)
    {
      diffIDs := diffIDs + ["sha256:" + ic.layers[i]];
    }
    assert ic.layers[..|ic.layers|] == ic.layers;
    r := RootFS("layers", diffIDs);
  }

  /** Go's `imageHistory`: exactly one entry appended, empty iff no layer was added. */
  function BuildHistory(ic: ImageConfig, history: seq<History>): (r: seq<History>)
    ensures |r| == |history| + 1 && r[..|history|] == history
    ensures r[|history|].created == Epoch && r[|history|].createdBy == "bazel build ..."
    ensures r[|history|].author == "Bazel" && r[|history|].comment == ""
    ensures r[|history|].emptyLayer <==> |ic.layers| == 0
  {
    var entry := History(Epoch, "bazel build ...", "Bazel", "", false);
    var entry' := if |ic.layers| == 0 then entry.(emptyLayer := true) else entry;
    history + [entry']
  }

  /** Go's `CreateImage`: fixed metadata, the merged config, the extended rootfs and history. */
  method CreateImage(ic: ImageConfig, parentImage: Image) returns (image: Image)
    ensures image.created == Epoch && image.author == "Bazel"
    ensures image.architecture == "amd64" && image.os == "linux"
    ensures image.config == MergedConfig(ic, parentImage.config)
    ensures image.rootFS.fsType == "layers"
    ensures DiffIDsAppended(parentImage.rootFS.diffIDs, ic.layers, image.rootFS.diffIDs)
    ensures image.history == BuildHistory(ic, parentImage.history)
  {
    var config := BuildConfig(ic, parentImage.config);
    var rootFS := BuildRootFS(ic, parentImage.rootFS);
    image := Image(Epoch, "Bazel", "amd64", "linux", config, rootFS, BuildHistory(ic, parentImage.history));
  }
}
