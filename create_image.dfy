/**
 * The docker-save archive that `create_image.py` writes: the image config
 * under `<id>.json`, each layer under `<id>/<name>.tar`, and `manifest.json`
 * holding one item that names them, continues the base image's layers and
 * points to the base image as its parent.
 *
 * The archive is modelled by the names of its entries, in the order they are
 * added. The base image's latest manifest item (read from the base tar by a
 * helper outside this model) and the `@file` resolution of identifiers are
 * inputs.
 */
module ImageArchive {
  import opened Wrappers
  import opened Strings

  /** One `--layer`: the layer's identifier and the path of its tar file. */
  datatype Layer = Layer(name: string, tarPath: string)

  /**
   * The latest manifest item of the base image, a JSON object: its `Config`
   * and `Layers` when present, and whether it has any other key.
   */
  datatype BaseItem = BaseItem(config: Option<string>, layers: Option<seq<string>>, otherKeys: bool) {
    /** Python truthiness of the dict: it has at least one key. */
    predicate NonEmpty() {
      config.Some? || layers.Some? || otherKeys
    }
  }

  /** The manifest item; `parent` is `None` when the `Parent` key is absent. */
  datatype ManifestItem = ManifestItem(config: string, layers: seq<string>, repoTags: seq<string>, parent: Option<string>)

  datatype Error =
    | MissingConfig             // the base item has no `Config`: Python raises KeyError
    | MissingSeparator(arg: string)  // a `--layer` value without `=`: Python raises ValueError

  const ManifestFileName := "manifest.json"

  function ConfigFileName(identifier: string): string {
    identifier + ".json"
  }

  function LayerFileName(identifier: string, name: string): string {
    identifier + "/" + name + ".tar"
  }

  predicate EndsWith(s: string, suffix: string) {
    |suffix| <= |s| && s[|s| - |suffix|..] == suffix
  }

  /**
   * Group 1 of `^(.+)\.json$` when the name matches: the non-empty stem
   * before a final `.json`. A name with a newline never matches here.
   */
  function ParentStem(configFile: string): (stem: Option<string>)
    ensures stem.Some? ==> |stem.value| > 0 && '\n' !in stem.value && stem.value + ".json" == configFile
  {
    if |configFile| > 5 && EndsWith(configFile, ".json") && '\n' !in configFile then
      assert configFile == configFile[..|configFile| - 5] + ".json";
      Some(configFile[..|configFile| - 5])
    else
      None
  }

  /**
   * Every name that matches is found: the config file name of an image gives
   * back its identifier as the stem.
   */
  lemma ParentStemOfConfigFileName(identifier: string)
    requires |identifier| > 0 && '\n' !in identifier
    ensures ParentStem(ConfigFileName(identifier)) == Some(identifier)
  {
    var cf := ConfigFileName(identifier);
    assert cf[|cf| - 5..] == ".json";
    assert cf[..|cf| - 5] == identifier;
    assert forall i :: 0 <= i < |identifier| ==> cf[i] == identifier[i];
    assert forall i :: |identifier| <= i < |cf| ==> cf[i] == ".json"[i - |identifier|];
  }

  /** The layer file names, one per layer, in layer order. */
  function LayerFileNames(identifier: string, layers: seq<Layer>): (names: seq<string>)
    ensures |names| == |layers|
    ensures forall i :: 0 <= i < |layers| ==> names[i] == LayerFileName(identifier, layers[i].name)
  {
    if layers == [] then []
    else LayerFileNames(identifier, layers[..|layers| - 1]) + [LayerFileName(identifier, layers[|layers| - 1].name)]
  }

  /** Distinct layer identifiers give distinct file names, all inside the image's directory. */
  lemma LayerFileNamesDistinct(identifier: string, a: string, b: string)
    ensures StartsWith(LayerFileName(identifier, a), identifier + "/")
    ensures LayerFileName(identifier, a) == LayerFileName(identifier, b) ==> a == b
  {
    var x := LayerFileName(identifier, a);
    var y := LayerFileName(identifier, b);
    assert x[..|identifier| + 1] == identifier + "/";
    if x == y {
      assert |a| == |b|;
      assert forall i :: 0 <= i < |a| ==> a[i] == x[|identifier| + 1 + i] == y[|identifier| + 1 + i] == b[i];
    }
  }

  /** The base item is read: a base path was given and the helper found a non-empty item there. */
  predicate UsesBase(base: Option<string>, latest: Option<BaseItem>) {
    base.Some? && base.value != "" && latest.Some? && latest.value.NonEmpty()
  }

  /** The single-item manifest, or the KeyError of a base item without `Config`. */
  function ManifestOf(identifier: string, layers: seq<Layer>, tags: Option<seq<string>>,
                      base: Option<string>, latest: Option<BaseItem>): (r: Result<seq<ManifestItem>, Error>)
    ensures r.Err? <==> UsesBase(base, latest) && latest.value.config.None?
    ensures r.Err? ==> r.error == MissingConfig
    ensures r.Ok? ==> |r.value| == 1
    ensures r.Ok? ==> r.value[0].config == ConfigFileName(identifier)
    ensures r.Ok? ==> r.value[0].repoTags == tags.GetOr([])
    ensures r.Ok? ==> (r.value[0].layers
                   == (if UsesBase(base, latest) then latest.value.layers.GetOr([]) else []) + LayerFileNames(identifier, layers))
    ensures r.Ok? ==> (r.value[0].parent.Some? <==> UsesBase(base, latest) && ParentStem(latest.value.config.value).Some?)
    ensures r.Ok? && r.value[0].parent.Some? ==> r.value[0].parent.value == "sha256:" + ParentStem(latest.value.config.value).value
  {
    var layerFileNames := LayerFileNames(identifier, layers);
    if UsesBase(base, latest) then
      var item := latest.value;
      if item.config.None? then
        Err(MissingConfig)
      else
        var parent := ParentStem(item.config.value);
        Ok([ManifestItem(ConfigFileName(identifier), item.layers.GetOr([]) + layerFileNames, tags.GetOr([]),
                         if parent.Some? then Some("sha256:" + parent.value) else None)])
    else
      Ok([ManifestItem(ConfigFileName(identifier), layerFileNames, tags.GetOr([]), None)])
  }

  /**
   * `create_image`: the names of the entries added to the archive, in order,
   * and the manifest. The config and the layers are added before the base
   * item is read, so they are there even when reading it fails.
   */
  method CreateImage(identifier: string, layers: seq<Layer>, tags: Option<seq<string>>,
                     base: Option<string>, latest: Option<BaseItem>)
    returns (entries: seq<string>, manifest: Result<seq<ManifestItem>, Error>)
    ensures manifest == ManifestOf(identifier, layers, tags, base, latest)
    ensures entries == [ConfigFileName(identifier)] + LayerFileNames(identifier, layers)
                       + (if manifest.Ok? then [ManifestFileName] else [])
  {
    var configFileName := identifier + ".json";
    entries := [configFileName];
    var layerFileNames := [];
    for i := 0 to |layers|
      invariant layerFileNames == LayerFileNames(identifier, layers[..i])
      invariant entries == [configFileName] + layerFileNames
    {
      var layerFileName := identifier + "/" + layers[i].name + ".tar";
      layerFileNames := layerFileNames + [layerFileName];
      entries := entries + [layerFileName];
      assert layers[..i + 1][..i] == layers[..i];
    }
    assert layers[..|layers|] == layers;

    var baseLayerFileNames := [];
    var parent: Option<string> := None;
    if base.Some? && base.value != "" {
      if latest.Some? && latest.value.NonEmpty() {
        var item := latest.value;
        baseLayerFileNames := item.layers.GetOr([]);
        if item.config.None? {
          manifest := Err(MissingConfig);
          return;
        }
        parent := ParentStem(item.config.value);
      }
    }
    var manifestItem := ManifestItem(configFileName, baseLayerFileNames + layerFileNames, tags.GetOr([]), None);
    if parent.Some? {
      manifestItem := manifestItem.(parent := Some("sha256:" + parent.value));
    }
    manifest := Ok([manifestItem]);
    entries := entries + [ManifestFileName];
  }

  /** The identifier part of a `--layer` value: the text before its first `=`. */
  function LayerId(arg: string): string
    requires '=' in arg
  {
    SplitOnce(arg, '=')[0]
  }

  /** The tar path part of a `--layer` value: all the text after its first `=`. */
  function LayerPath(arg: string): string
    requires '=' in arg
  {
    SplitOnce(arg, '=')[1]
  }

  /** An identifier without `=` comes back whole, and so does a tar path, even one that contains `=`. */
  lemma LayerArgRoundTrip(id: string, path: string)
    requires '=' !in id
    ensures '=' in id + "=" + path
    ensures LayerId(id + "=" + path) == id && LayerPath(id + "=" + path) == path
  {
    var arg := id + "=" + path;
    assert arg[|id|] == '=';
    var parts := SplitOnce(arg, '=');
    assert parts[0] + "=" + parts[1] == arg;
    var n := |parts[0]|;
    assert forall j :: 0 <= j < n ==> arg[j] == parts[0][j];
    assert forall j :: 0 <= j < |id| ==> arg[j] == id[j];
    assert n == |id|;
    assert parts[0] == arg[..n] == id;
    assert parts[1] == arg[n + 1..] == path;
  }

  /** The layers named by `--layer` values that all hold a `=`. */
  function LayersOf(args: seq<string>, extract: string -> string): (layers: seq<Layer>)
    requires forall i :: 0 <= i < |args| ==> '=' in args[i]
    ensures |layers| == |args|
    ensures forall i :: 0 <= i < |args| ==> layers[i] == Layer(extract(LayerId(args[i])), LayerPath(args[i]))
  {
    if args == [] then []
    else LayersOf(args[..|args| - 1], extract) + [Layer(extract(LayerId(args[|args| - 1])), LayerPath(args[|args| - 1]))]
  }

  /**
   * The `--layer` loop of `main`: each value split at its first `=` into
   * the layer identifier (resolved by `extract`) and the tar path; the first
   * value without `=` stops it.
   */
  method SplitLayerArgs(args: seq<string>, extract: string -> string) returns (r: Result<seq<Layer>, Error>)
    ensures r.Ok? <==> forall i :: 0 <= i < |args| ==> '=' in args[i]
    ensures r.Err? ==> exists i :: 0 <= i < |args| && '=' !in args[i] && r.error == MissingSeparator(args[i])
    ensures r.Ok? ==> r.value == LayersOf(args, extract)
  {
    var layers: seq<Layer> := [];
    for i := 0 to |args|
      invariant forall j :: 0 <= j < i ==> '=' in args[j]
      invariant |layers| == i
      invariant forall j :: 0 <= j < i ==> layers[j] == Layer(extract(LayerId(args[j])), LayerPath(args[j]))
    {
      var parts := SplitOnce(args[i], '=');
      if |parts| != 2 {
        return Err(MissingSeparator(args[i]));
      }
      layers := layers + [Layer(extract(parts[0]), parts[1])];
    }
    assert layers == LayersOf(args, extract);
    r := Ok(layers);
  }

  /** `main`: resolve the identifier, split the `--layer` values, then create the image. */
  method Run(idArg: string, layerArgs: seq<string>, tags: Option<seq<string>>,
              base: Option<string>, latest: Option<BaseItem>, extract: string -> string)
    returns (entries: seq<string>, manifest: Result<seq<ManifestItem>, Error>)
    ensures (exists i :: 0 <= i < |layerArgs| && '=' !in layerArgs[i]) ==> entries == [] && manifest.Err?
    ensures (forall i :: 0 <= i < |layerArgs| ==> '=' in layerArgs[i]) ==>
      && manifest == ManifestOf(extract(idArg), LayersOf(layerArgs, extract), tags, base, latest)
      && entries == [ConfigFileName(extract(idArg))] + LayerFileNames(extract(idArg), LayersOf(layerArgs, extract))
                    + (if manifest.Ok? then [ManifestFileName] else [])
  {
    var identifier := extract(idArg);
    var layers := SplitLayerArgs(layerArgs, extract);
    if layers.Err? {
      return [], Err(layers.error);
    }
    entries, manifest := CreateImage(identifier, layers.value, tags, base, latest);
  }
}
