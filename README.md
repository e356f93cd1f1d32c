# Container image metadata: a Dafny model

This project models three pieces of the container rules of a Bazel
repository, all of which compute image metadata:

- **The image-config merge** (`container/oci/serialization/image.go`).
  `CreateImage` takes a parent OCI image and the command-line overrides and
  builds the child image. Each config field has its own merge policy:
  - `User`, `WorkingDir`, `Entrypoint` and `Cmd` are replaced when the
    override is non-empty;
  - `ExposedPorts` (with `/tcp` as the default protocol) and `Volumes` take
    the set union;
  - `Labels` upserts the override pairs;
  - `Env` expands every override against the parent variables, upserts it,
    and serialises the merged map as a sorted `K=V` list.

  The root filesystem gets one `sha256:` digest per new layer. The history
  gets exactly one new entry.
- **The tar-member rename plan** (`container/fix_layer.py`). The
  `--rename from:to` specs become a prefix table. A first pass gives every
  member a new name from the first key its name starts with. A second pass
  writes each member under its new name, or drops it when an original member
  already has that name.
- **The docker-save archive layout** (`container/create_image.py`). This
  covers the config, layer and `manifest.json` entry names, and the single
  manifest item: `Config`, base `Layers` then the new ones, an optional
  `Parent`, `RepoTags`. It also covers the `--layer id=path` split of `main`.

## Modules

| module | file | contents |
|---|---|---|
| `Wrappers` | `wrappers.dfy` | `Option`, `Result` |
| `Strings` | `strings.dfy` | first index of a character, split, join, split at the first separator only |
| `StringOrder` | `ordering.dfy` | lexicographic order on characters, and insertion sort as the model of `sort.Strings` |
| `ShellExpand` | `expand.dfy` | a stand-in for Go's `os.Expand` |
| `Serialization` | `image.dfy` | `image.go`, with each Go loop as a method proved equal to a specification function |
| `SerializationLemmas` | `image_lemmas.dfy` | the per-field merge policies, stated about those functions |
| `LayerRename` | `fix_layer.dfy` | `fix_layer.py` on member names |
| `ImageArchive` | `create_image.dfy` | `create_image.py` on entry names and the manifest item |

## Modelling choices

- **Go data:**
  - A Go nil map is `None`; an allocated one is `Some` of a `set` or `map`.
  - A nil slice is the empty `seq`.
  - Go map iteration goes over the keys in an unspecified order, so the
    loops pick keys with `:|`, and the proofs hold for every order.
- **Env list order:**
  - `sort.Strings` is the function `StringOrder.Sort`, proved sorted and a
    permutation.
  - `StringOrder.SortedUnique` shows that the result does not depend on the
    sorting algorithm or on the map order.
- **`os.Expand` grammar:**
  - `$NAME` takes the longest non-empty run of `[A-Za-z0-9_]`.
  - `${X}` takes the non-empty text up to the first `}`.
  - Any other `$` is copied as it is.
  - The looked-up text is never expanded again.
- **Rename order:** the Python `renames` dict is a table of keys in
  insertion order plus a map from each key to its target. That insertion
  order is the order in which the first pass tries the keys.
  `LayerRename.UniqueMatchIgnoresOrder` shows that the order does not matter
  whenever one key at most matches a name.
- **Truthy tests and raised exceptions:**
  - Python `if new_name:` counts an empty new name as "no new name".
  - `members.get(new_name)` is read as membership.
  - A base manifest item without `Config` raises `KeyError`; this becomes
    `Err(MissingConfig)`.
  - A `--layer` value without `=` raises `ValueError`; this becomes
    `Err(MissingSeparator(..))`.
- **The test disagrees with the code.**
  `tests/container/oci/serialization/image_test.go:219` expects the override
  `OPTS=$OPTS $ADDITIONAL_OPT` to produce `OPTS=${OPTS} ${ADDITIONAL_OPT}`.
  The code looks every name up in the parent variables only, and an unknown
  name becomes the bare name (`image.go:61`, `image.go:122-129`). Neither
  `OPTS` nor `ADDITIONAL_OPT` is a parent variable, so the code produces
  `OPTS=OPTS ADDITIONAL_OPT`. The model follows the code.
  `SerializationLemmas.EnvNameReference` and
  `SerializationLemmas.EnvSiblingsInvisible` state the behaviour in general.

## Model

| member | source | states |
|---|---|---|
| `Strings.StartsWith` | container/fix_layer.py:65 | `name.startswith(key)`: the key is no longer than the name and equals the name's first characters up to its length; `FirstMatch` and `NewName` are stated with it |
| `Strings.IndexOf` | container/fix_layer.py:35 | the result is -1 exactly when the character is absent; otherwise it is the position of its first occurrence |
| `Strings.Split` | container/oci/serialization/image.go:106 | at least one piece; the first piece is the text before the first separator, or the whole string when there is none |
| `Strings.SplitAtFirst` | container/oci/serialization/image.go:106 | with the separator present, the split is the text before its first occurrence followed by the split of the text after it |
| `Strings.SplitPiecesFree` | container/oci/serialization/image.go:106 | no piece of a split holds the separator, so `Split` cuts at every occurrence and not only the first |
| `Strings.Join` | container/oci/serialization/image.go:114 | `strings.Join` with a one-character separator: the pieces in order with the separator between each two; `JoinSplit` shows it undoes `Split` |
| `Strings.JoinSplit` | container/oci/serialization/image.go:106-114 | joining the pieces of a split with the separator gives back the string |
| `Strings.AfterFirst` | container/oci/serialization/image.go:112-114 | joining every piece but the first gives all the text after the first separator, later separators included |
| `Strings.SplitOnce` | container/fix_layer.py:47 | one piece, the string itself, when the separator is absent; otherwise two pieces, the first without the separator, which with the separator between them rebuild the string |
| `StringOrder.LessEq` | container/oci/serialization/image.go:67 | the order `sort.Strings` sorts by: lexicographic on characters, a proper prefix coming first; `LessEqTotal`, `LessEqAntisymmetric` and `LessEqTransitive` show it is a total order |
| `StringOrder.LessEqTotal` | container/oci/serialization/image.go:67 | the lexicographic order on characters is total |
| `StringOrder.LessEqAntisymmetric` | container/oci/serialization/image.go:67 | the lexicographic order on characters is antisymmetric |
| `StringOrder.LessEqTransitive` | container/oci/serialization/image.go:67 | the lexicographic order on characters is transitive |
| `StringOrder.Sort` | container/oci/serialization/image.go:67 | the result is sorted and a permutation of the input |
| `StringOrder.SortedUnique` | container/oci/serialization/image.go:67 | two sorted permutations of one multiset are equal, so the sorted list depends only on its elements |
| `StringOrder.SetToSeq` | container/oci/serialization/image.go:64-66 | lists every element of a set once, in some order |
| `ShellExpand.Expand` | container/oci/serialization/image.go:61 | `os.Expand` on the grammar below: `${X}` and `$NAME` are replaced by one lookup each and all other text is copied; the lemmas that follow state each case |
| `ShellExpand.NameLength` | container/oci/serialization/image.go:61 | the longest prefix made of name characters |
| `ShellExpand.ExpandNoDollar` | container/oci/serialization/image.go:61 | a string without `$` expands to itself, whatever the lookup |
| `ShellExpand.ExpandLiteralPrefix` | container/oci/serialization/image.go:61 | text without `$` is copied, and what follows expands on its own |
| `ShellExpand.ExpandName` | container/oci/serialization/image.go:61 | `$NAME` followed by a non-name character becomes one lookup of NAME |
| `ShellExpand.ExpandBraced` | container/oci/serialization/image.go:61 | `${X}` becomes one lookup of X |
| `ShellExpand.ExpandIsOnePass` | container/oci/serialization/image.go:61 | for every name NAME and text OTHER, when NAME is looked up as `$OTHER`, `$NAME` expands to `$OTHER`: a looked-up value holding `$` is kept as it is, not expanded again |
| `ShellExpand.ExpandTwiceDiffers` | container/oci/serialization/image.go:61 | with that lookup and OTHER another name, expanding the result a second time gives `v` instead of `$OTHER`, so the one-pass result differs from a repeated expansion |
| `Serialization.KeyValue` | container/oci/serialization/image.go:106-116 | the pair of one `k=v` string, split at every `=` with the later pieces joined back; `KeyValueAt` and `KeyValueRoundTrip` state what it is |
| `Serialization.KeyValueAt` | container/oci/serialization/image.go:105-117 | the key is the text before the first `=` and the value all the text after it; with no `=` the key is the whole string and the value is empty; a key never holds `=` |
| `Serialization.KeyValueOfEntry` | container/oci/serialization/image.go:63-66 | parsing `k=v` gives back `(k, v)` when `k` has no `=` |
| `Serialization.KeyValueMap` | container/oci/serialization/image.go:103-120 | the map of the parsed pairs, a later string overwriting an earlier one with the same key; the `KeyValueMap...` lemmas state its keys and values |
| `Serialization.KeyValueMapKeysNoSeparator` | container/oci/serialization/image.go:103-120 | no key of the parsed map holds `=` |
| `Serialization.ArrayToMap` | container/oci/serialization/image.go:103-120 | the loop builds the map of the parsed pairs, each string in turn overwriting earlier ones |
| `Serialization.MapGet` | container/oci/serialization/image.go:122-129 | a known name gives its value, an unknown one the bare name |
| `Serialization.NormalizePort` | container/oci/serialization/image.go:42-46 | every port key names a protocol |
| `Serialization.PortsMerged` | container/oci/serialization/image.go:41-52 | the exposed ports after the merge: the parent set without override ports, otherwise the parent ports (or none) plus every normalised override; `PortsMergedMembers` states its members |
| `Serialization.AddPorts` | container/oci/serialization/image.go:41-52 | the port loop yields the parent set, untouched without overrides, and otherwise the parent set (or a fresh one) plus every normalised override port |
| `Serialization.VolumesMerged` | container/oci/serialization/image.go:79-84 | the volumes after the merge: the parent set without override volumes, otherwise the parent paths (or none) plus every override path; `VolumesMergedMembers` states its members |
| `Serialization.AddVolumes` | container/oci/serialization/image.go:79-84 | the volume loop yields the parent set, untouched without overrides, and otherwise the parent set (or a fresh one) plus every override path |
| `Serialization.RestrictInsert` | container/oci/serialization/image.go:95-97 | visiting one more key of a map in a key loop stores that key's value |
| `Serialization.LabelsMerged` | container/oci/serialization/image.go:90-98 | the labels after the merge: the parent labels without overrides, otherwise the parent labels (or an empty map) with the parsed overrides on top; `LabelsPolicy` states it key by key |
| `Serialization.UpsertLabels` | container/oci/serialization/image.go:90-98 | the labels are untouched without overrides; otherwise they are the parent labels (or a fresh map) with every parsed override pair upserted |
| `Serialization.Entry` | container/oci/serialization/image.go:65 | the `k=v` text of one variable; `EntryInjective` and `KeyValueOfEntry` show it parses back to its key and value |
| `Serialization.EntryInjective` | container/oci/serialization/image.go:65 | distinct keys without `=` give distinct `k=v` entries |
| `Serialization.CopyVariables` | container/oci/serialization/image.go:56-59 | the copy loop yields exactly the parent variables, whatever the map order |
| `Serialization.ApplyOverrides` | container/oci/serialization/image.go:60-62 | every override is stored, expanded against the parent variables and not against the map being built |
| `Serialization.Serialize` | container/oci/serialization/image.go:63-66 | the list holds each `k=v` entry of the map exactly once, in any order |
| `Serialization.SortIgnoresOrder` | container/oci/serialization/image.go:67 | sorting makes the list independent of the order the map loop produced |
| `Serialization.MergedEnvMap` | container/oci/serialization/image.go:55-62 | the variables after the merge: the parent variables with each override, expanded against the parent variables, on top; the `Env...` lemmas state its keys and values |
| `Serialization.EnvMerged` | container/oci/serialization/image.go:54-69 | the env list after the merge: the parent list without overrides, otherwise the sorted `k=v` entries of `MergedEnvMap`; `EnvListEntries`, `EnvListShape` and `EnvListRoundTrip` state its shape |
| `Serialization.MergeEnv` | container/oci/serialization/image.go:54-69 | the env block yields the parent list, untouched without overrides; otherwise the sorted entries of the merged map |
| `Serialization.MergedConfig` | container/oci/serialization/image.go:36-101 | the merge policy of `imageConfig`, field by field; `ReplacedIfNonEmpty`, `NoOverridesKeepsParent` and the per-field lemmas state it |
| `Serialization.BuildConfig` | container/oci/serialization/image.go:36-101 | `imageConfig` yields every field under its own merge policy (`MergedConfig`) |
| `Serialization.BuildRootFS` | container/oci/serialization/image.go:131-142 | the type is `layers`; the diff IDs are the parent's followed by `sha256:` plus each layer, in order |
| `Serialization.BuildHistory` | container/oci/serialization/image.go:144-157 | the parent history plus exactly one entry (Bazel, `bazel build ...`, the fixed time), which is empty exactly when there are no layers |
| `Serialization.CreateImage` | container/oci/serialization/image.go:24-34 | fixed author, architecture, OS and time; the merged config; the extended rootfs; the extended history |
| `SerializationLemmas.KeyValueRoundTrip` | container/oci/serialization/image.go:105-117 | for a string with `=`, key + `=` + value is the string |
| `SerializationLemmas.KeyValueMapHasKey` | container/oci/serialization/image.go:105-118 | the key of every string is in the map |
| `SerializationLemmas.KeyValueMapKeySource` | container/oci/serialization/image.go:105-118 | every key of the map is the key of some string |
| `SerializationLemmas.KeyValueMapLastWins` | container/oci/serialization/image.go:105-118 | for a repeated key, the string at the larger index wins |
| `SerializationLemmas.KeyValueMapAppend` | container/oci/serialization/image.go:105-118 | one more string upserts its pair |
| `SerializationLemmas.PortsMergedMembers` | container/oci/serialization/image.go:41-52 | with overrides, a port is in the result iff it is a parent port, an override port with `/`, or an override port without `/` plus `/tcp` |
| `SerializationLemmas.PortsIdempotent` | container/oci/serialization/image.go:41-52 | merging the same ports twice is merging them once |
| `SerializationLemmas.PortsDuplicatesCollapse` | container/oci/serialization/image.go:41-52 | repeated override ports collapse to one key |
| `SerializationLemmas.PortsTcpDefaultExample` | container/oci/serialization/image.go:42-51 | `80` and `80/tcp` are one key, `80/tcp`, in a fresh set |
| `SerializationLemmas.PortsKeyedWithProtocol` | container/oci/serialization/image.go:42-51 | when every parent key names a protocol, so does every merged key |
| `SerializationLemmas.VolumesMergedMembers` | container/oci/serialization/image.go:79-84 | with overrides, the result is the parent paths together with the override paths |
| `SerializationLemmas.VolumesIdempotent` | container/oci/serialization/image.go:79-84 | applying the same volumes twice is applying them once |
| `SerializationLemmas.ReplacedIfNonEmpty` | container/oci/serialization/image.go:37-88 | user, working directory, entrypoint and cmd are the override when it is non-empty and exactly the parent's otherwise, with no element-wise merge |
| `SerializationLemmas.NoOverridesKeepsParent` | container/oci/serialization/image.go:36-101 | with no overrides at all, the config is the parent config |
| `SerializationLemmas.LabelsPolicy` | container/oci/serialization/image.go:90-98 | untouched without overrides; otherwise a map in which an override key has its override value, a parent key the override does not name keeps its value, and no other key appears |
| `SerializationLemmas.EnvKeys` | container/oci/serialization/image.go:54-62 | the merged keys are the parent keys together with the override keys |
| `SerializationLemmas.EnvParentKept` | container/oci/serialization/image.go:56-62 | a parent variable that no override names keeps its parent value |
| `SerializationLemmas.EnvOverrideExpanded` | container/oci/serialization/image.go:55-61 | an overridden variable is its override expanded against the parent variables |
| `SerializationLemmas.EnvSiblingsInvisible` | container/oci/serialization/image.go:55-61 | adding another override does not change any other variable: overrides never see each other |
| `SerializationLemmas.MergedKeysNoSeparator` | container/oci/serialization/image.go:55-62 | no merged key holds `=` |
| `SerializationLemmas.EnvListEntries` | container/oci/serialization/image.go:63-67 | the list holds exactly the `k=v` entries of the merged map |
| `SerializationLemmas.EnvListShape` | container/oci/serialization/image.go:63-68 | the list is sorted, every entry holds `=`, and no entry occurs twice |
| `SerializationLemmas.EnvOneEntryPerKey` | container/oci/serialization/image.go:63-68 | no two entries of the list share a key |
| `SerializationLemmas.KeyValueMapOfEntries` | container/oci/serialization/image.go:103-120 | parsing a list of entries of a map gives that map on the keys the list mentions |
| `SerializationLemmas.EnvListRoundTrip` | container/oci/serialization/image.go:54-69 | parsing the merged list back gives the merged map |
| `SerializationLemmas.EnvNameReference` | container/oci/serialization/image.go:60-61 | an override `$NAME...` starts with the parent value of NAME, or the bare name when the parent has none |
| `SerializationLemmas.EnvBracedReference` | container/oci/serialization/image.go:60-61 | the same for `${NAME}...` |
| `SerializationLemmas.EnvLiteralOverride` | container/oci/serialization/image.go:60-61 | an override without `$` is stored as it is |
| `LayerRename.FixLeadingSlash` | container/fix_layer.py:49-54 | the result never starts with `/`; it is the path itself or `.` in front of it, and a path not starting with `/` comes back unchanged |
| `LayerRename.ValidSpec` | container/fix_layer.py:33-36 | a `--rename` value is accepted iff it is non-empty, does not start with `:` and holds `:`; `ValidSpecIsFind` ties it to `find(':') > 0` |
| `LayerRename.ValidSpecIsFind` | container/fix_layer.py:33-36 | a spec is accepted iff its first `:` is at an index greater than 0 |
| `LayerRename.ParseSpec` | container/fix_layer.py:46-54 | the pair of an accepted spec: both sides of the first `:`, each made relative; `ParseSpecAt` states it by position |
| `LayerRename.ParseSpecAt` | container/fix_layer.py:46-54 | the source is the non-empty text before the first `:`, the target all the text after it, each made relative |
| `LayerRename.RenameTable.Put` | container/fix_layer.py:56 | the table stays consistent; the target is updated; a new key goes last and a known key keeps its place |
| `LayerRename.ParsedSpecs` | container/fix_layer.py:46-54 | one parsed pair per spec, the pair at each position being the parse of the spec there |
| `LayerRename.TableOf` | container/fix_layer.py:45-56 | the table built from the parsed specs is consistent: keys without repetition, each with a target |
| `LayerRename.TableOfLastWins` | container/fix_layer.py:45-56 | a spec that no later spec overrides decides its source's target |
| `LayerRename.TableOfKeySource` | container/fix_layer.py:45-56 | every source in the table comes from some spec |
| `LayerRename.RenamesLastWins` | container/fix_layer.py:45-56 | stated on the specs: a spec whose source no later spec names decides that source's target in the table |
| `LayerRename.SplitSpec` | container/fix_layer.py:47-54 | the body of the spec loop computes the parsed pair of the spec |
| `LayerRename.ParseRenames` | container/fix_layer.py:33-56 | the table exists iff every spec is accepted, and is then the table of the parsed specs |
| `LayerRename.FirstMatch` | container/fix_layer.py:64-67 | the first key the name starts with, or none when no key matches |
| `LayerRename.NewName` | container/fix_layer.py:64-66 | no new name iff no key matches; otherwise the target of the first matching key followed by the rest of the name |
| `LayerRename.NewNames` | container/fix_layer.py:58-68 | the `new_names` dict after the first pass: every member some key matches, with its new name; `FirstPass` is proved to build it |
| `LayerRename.FirstPass` | container/fix_layer.py:58-68 | the first pass records every member and gives a new name to exactly those that a key matches |
| `LayerRename.UniqueMatchIgnoresOrder` | container/fix_layer.py:64-67 | when exactly one key matches, the new name does not depend on the key order |
| `LayerRename.Written` | container/fix_layer.py:80-87 | a member with a non-empty new name that is an original member is dropped, one with any other non-empty new name is written under it, and any other member under its own name |
| `LayerRename.Output` | container/fix_layer.py:75-91 | the names written, in member order, each as `Written` decides; `OutputLength` and `OriginalsInOrder` state its shape |
| `LayerRename.SecondPass` | container/fix_layer.py:73-91 | the second pass writes, in member order, each member's new name, its own name, or nothing when the new name is an original member |
| `LayerRename.Plan` | container/fix_layer.py:41-91 | the output names for a rename table and the member names: the second pass over the first pass's new names; `NoRenamesIsIdentity` and `FreshCollisionsAreWritten` state it |
| `LayerRename.FixLayer` | container/fix_layer.py:41-91 | no output iff a spec is rejected; otherwise the plan of the parsed table |
| `LayerRename.OutputLength` | container/fix_layer.py:75-91 | exactly the colliding members are dropped, so the output is at most as long as the input |
| `LayerRename.OriginalsInOrder` | container/fix_layer.py:75-91 | among the written names, the original ones are exactly the unrenamed members, in their order |
| `LayerRename.NoRenamesIsIdentity` | container/fix_layer.py:45-91 | without renames every member is written under its own name |
| `LayerRename.FreshCollisionsAreWritten` | container/fix_layer.py:80-85 | two members renamed to one fresh name are both written, so output names need not be unique |
| `ImageArchive.ConfigFileName` | container/create_image.py:73 | the config member is named by the identifier followed by `.json`; `ParentStemOfConfigFileName` recovers the identifier from it |
| `ImageArchive.LayerFileName` | container/create_image.py:80 | a layer member is named `identifier/name.tar`; `LayerFileNamesDistinct` shows distinct names stay distinct |
| `ImageArchive.ParentStem` | container/create_image.py:91-93 | a match gives a non-empty stem that, followed by `.json`, is the config name |
| `ImageArchive.ParentStemOfConfigFileName` | container/create_image.py:91-93 | every `X.json` name with a non-empty X matches, with stem X |
| `ImageArchive.LayerFileNames` | container/create_image.py:76-82 | one name per layer, `id/name.tar`, in layer order |
| `ImageArchive.LayerFileNamesDistinct` | container/create_image.py:80 | layer file names lie under the image directory, and distinct layer names give distinct file names |
| `ImageArchive.UsesBase` | container/create_image.py:86-88 | the base archive is used iff a non-empty base path is given and its latest manifest item is a non-empty dict; `ManifestOf` takes the base layers and `Parent` only then |
| `ImageArchive.ManifestOf` | container/create_image.py:84-103 | a KeyError iff a base item without `Config` is used; otherwise one item with the config name, the base layers then the new ones, the tags or `[]`, and `Parent` `sha256:`+stem iff the base config name matches |
| `ImageArchive.CreateImage` | container/create_image.py:53-106 | the manifest above; the entries, in order, are the config, the layers, then `manifest.json` when the manifest was built |
| `ImageArchive.LayerId` | container/create_image.py:121 | the text of a `--layer` value before its first `=`; `LayerArgRoundTrip` shows it is `id` for `id=path` |
| `ImageArchive.LayerPath` | container/create_image.py:121 | all the text of a `--layer` value after its first `=`, later `=` included; `LayerArgRoundTrip` shows it is `path` for `id=path` |
| `ImageArchive.LayerArgRoundTrip` | container/create_image.py:121 | `id=path` splits back into `id` and `path` when `id` has no `=`, even when `path` holds `=` |
| `ImageArchive.LayersOf` | container/create_image.py:119-125 | one layer per value: the resolved identifier before the first `=` and the path after it |
| `ImageArchive.SplitLayerArgs` | container/create_image.py:119-125 | success iff every value holds `=`, and then the layers of the values; otherwise the error names an offending value |
| `ImageArchive.Run` | container/create_image.py:116-128 | a value without `=` stops `main` before anything is written; otherwise the archive of the resolved identifier and the split layers |

## Left out

- The file-level plumbing is not part of this model:
  - flag wiring in `container/oci/serialization/command.go`;
  - reading and writing the image JSON in `container/oci/serialization/operations.go`;
  - the `@file` layer reads and the exit path in `container/oci/image.go`.

  These are I/O and library calls. Two defects there are noted, not modelled:
  - `container/oci/image.go:36` tests `err` instead of `e`, so a layer file that cannot be read is silently taken as empty.
  - `container/oci/image.go:56` reads `cmdConfig.Labels`, which `ImageConfigCommand` (`command.go:11-26`) does not declare.
- `os.Expand` edge cases are outside the simplified grammar above:
  - the special names `$*`, `$1`, `$$`;
  - a malformed `${`, `${}`;
  - a trailing `$`.
- Go aliasing is not modelled. The Go copy of the parent config shares its
  maps with the caller, so the Go code also changes the caller's
  `ExposedPorts`, `Volumes` and `Labels`. The slices can share the caller's
  backing array too: `append` to `DiffIDs` (`image.go:135-139`) and to
  `History` (`image.go:156`) may write into spare capacity of the parent's
  slice. The model works on values and claims nothing about the caller's
  maps or slices.
- StringOrder.Sort: `sort.Strings` sorts the slice in place. It is modelled
  by a function on sequences, which fixes the result but not the in-place
  update.
- Tar I/O:
  - `fix_layer.py` is modelled on member names only: no tar streams, headers
    or file contents.
  - All members with one name share one `TarInfo` object, the last one read,
    and the second pass renames that object. This sharing is not modelled.
  - In `create_image.py` the archive is the list of entry names; the file
    contents and the JSON text of the manifest are not modelled.
- `utils.GetLatestManifestFromTar` and `utils.ExtractValue` are not part of
  this model. Their results are inputs: the optional base item and the
  `extract` function.
- LayerRename.NewName: the first match depends on the order of the
  `renames` dict. The model fixes it as insertion order; a Python dict before 3.7
  iterates in an unspecified order. `UniqueMatchIgnoresOrder` covers the case in which this
  order does not matter.
- ImageArchive.ParentStem: Python's `$` also matches before a final newline,
  so `re.search` accepts `X.json` followed by a newline. The model assumes
  names hold no newline and reports no match for them.
- `container/assemble_image.py` and `container/pull/parse_manifest.py` are
  not part of this model; they are manifest concatenation and JSON/file I/O.
- StringOrder.LessEq: strings are sequences of Unicode scalar values, and
  the order is lexicographic on them. Go compares raw bytes. The two agree
  for valid UTF-8; Go strings holding other bytes are not modelled.
- Serialization.Config holds only the fields `imageConfig` merges: user,
  exposed ports, env, entrypoint, cmd, volumes, working directory and
  labels. Every other `v1.ImageConfig` field, for example `StopSignal`,
  passes through from the parent unchanged and is not modelled.
