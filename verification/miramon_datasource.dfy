/**
 The MiraMon vector datasource (`OGRMiraMonDataSource`): it holds the
 root name given at creation, the update flag, the ordered list of bound
 layers, and the map-file part of the `m_MMMap` bookkeeping it shares with
 its layers (the `.mmm` file name, its open handle, and the layer count the
 layers keep in it).

 The layer constructor (`OGRMiraMonLayer`) is outside the model. What it
 reports is an argument, a `Binding`: whether the files could be bound,
 the layer's name, the files it adds to a file list, and the value it
 leaves in `nNumberOfLayers`. Whether opening the `.mmm` file succeeds and
 whether a `VSIMkdir` succeeds are arguments too.
 */
module MiraMonDataSource {
  import opened CplPath
  import opened Vsi

  datatype Option<T> = None | Some(value: T)

  /** What the layer constructor reports once it has run. */
  datatype Binding = Binding(valid: bool, name: string, files: seq<string>, numberOfLayers: nat)

  /** A registered layer: the path it was bound with, its name, and the
      files it contributes to the datasource's file list. */
  datatype Layer = Layer(path: string, name: string, files: seq<string>)

  /** An open `.mmm` handle: the file's path and the lines written through
      the handle, each without its trailing newline. */
  datatype MapHandle = MapHandle(path: string, lines: seq<string>)

  /** The map-file part of the `m_MMMap` bookkeeping: `pszMapName` ("" when cleared),
      `fMMMap` (None for a null handle) and `nNumberOfLayers`. */
  datatype MMMap = MMMap(mapName: string, mapFile: Option<MapHandle>, numberOfLayers: nat)

  /** A message reported through `CPLError`. */
  datatype Diagnostic = Warning(message: string) | Failure(message: string)

  /** What the destructor releases, in order. */
  datatype TeardownEvent = LayerReleased(layer: Layer) | MapClosed(handle: MapHandle)

  /** The capability tokens `ODsCCreateLayer` and `ODsCZGeometries`. */
  const CreateLayerCap := "CreateLayer"
  const ZGeometriesCap := "ZGeometries"

  /** Paths under this prefix live in memory and are never checked or created. */
  const VsiMemPrefix := "/vsimem"

  /** The extension of the map file that lists a folder's layers. */
  const MapExtension := "mmm"

  const MeasuresIgnored := "Measures in this layer will be ignored."

  function FolderMissing(folder: string): Diagnostic
  {
    Failure("The folder " + folder + " does not exist.")
  }

  function FolderNotCreated(folder: string): Diagnostic
  {
    Failure("Unable to create the folder " + folder + ".")
  }

  // ---------------------------------------------------------------------
  // Classifying the root and deriving the layer path
  // ---------------------------------------------------------------------

  /** One of the three geometry-file extensions, in any letter case. */
  predicate IsGeometryExtension(ext: string)
  {
    EqualNoCase(ext, "pol") || EqualNoCase(ext, "arc") || EqualNoCase(ext, "pnt")
  }

  lemma GeometryExtensionIgnoresCase(ext: string)
    ensures IsGeometryExtension(ext) <==> Lower(ext) in {"pol", "arc", "pnt"}
  {
    EqualNoCaseIsLowerEqual(ext, "pol");
    EqualNoCaseIsLowerEqual(ext, "arc");
    EqualNoCaseIsLowerEqual(ext, "pnt");
    assert Lower("pol") == "pol" && Lower("arc") == "arc" && Lower("pnt") == "pnt";
  }

  /** The root names a single polygon, arc or point file. */
  predicate IsGeometryRoot(root: string)
  {
    IsGeometryExtension(GetExtension(root))
  }

  /** The root names a container folder that gets a map file. */
  predicate UsesMapFile(root: string)
  {
    root != "" && !IsGeometryRoot(root)
  }

  /** The root with its extension reset to "" and the dot that leaves popped. */
  function GeometryLayerPath(root: string): string
  {
    var p := ResetExtension(root, "");
    if p != "" then p[..|p| - 1] else p
  }

  /** The on-disk path of a new layer. A geometry-file root loses exactly
      its three-letter extension and the dot before it, whatever layer name
      is asked for. Any other root, even one ending in a separator, gets the
      layer name appended after one separator, with no dot added; the layer
      then lies directly inside the root folder. */
  function LayerPath(root: string, layerName: string): (r: string)
    ensures IsGeometryRoot(root) ==>
              |GetExtension(root)| == 3 && r + "." + GetExtension(root) == root
    ensures !IsGeometryRoot(root) ==> r == FolderPrefix(root) + layerName
    ensures !IsGeometryRoot(root) && '/' !in layerName ==> Component(r) == layerName
    ensures !IsGeometryRoot(root) && '/' !in layerName && root != "" && root[|root| - 1] != '/' ==>
              GetDirname(r) == root
  {
    if IsGeometryRoot(root) then
      assert GetExtension(root) != "";
      ResetExtensionStrips(root);
      GeometryLayerPath(root)
    else
      FormFilename(root, layerName, "")
  }

  /** For a geometry-file root the layer name plays no part. */
  lemma GeometryLayerPathIgnoresName(root: string, a: string, b: string)
    requires IsGeometryRoot(root)
    ensures LayerPath(root, a) == LayerPath(root, b)
  {
    var e := GetExtension(root);
    var pa, pb := LayerPath(root, a), LayerPath(root, b);
    assert |pa| == |pb| == |root| - 4;
    assert pa == (pa + "." + e)[..|pa|] == root[..|root| - 4];
    assert pb == (pb + "." + e)[..|pb|] == root[..|root| - 4];
  }

  /** Under a folder root, distinct layer names give distinct layer paths. */
  lemma FolderLayerPathsDistinct(root: string, a: string, b: string)
    requires !IsGeometryRoot(root)
    requires a != b
    ensures LayerPath(root, a) != LayerPath(root, b)
  {
    FormFilenameInjective(root, a, b);
  }

  // ---------------------------------------------------------------------
  // The map file
  // ---------------------------------------------------------------------

  /** `root/basename(root).mmm`: the map file is named after the root and has
      the `mmm` extension; it lies inside the root folder when the root is
      non-empty without a trailing separator (a root `out/` has basename ""
      and map file `out/.mmm`). */
  function MapFileName(root: string): (r: string)
    ensures r == FolderPrefix(root) + GetBasename(root) + "." + MapExtension
    ensures GetExtension(r) == MapExtension && GetBasename(r) == GetBasename(root)
    ensures root != "" && root[|root| - 1] != '/' ==> GetDirname(r) == root
  {
    assert '.' !in MapExtension && '/' !in MapExtension;
    FormFilenameAddsDot(root, GetBasename(root), MapExtension);
    FormFilename(root, GetBasename(root), MapExtension)
  }

  /** The header written through a freshly opened map file: eight lines, the
      `[VERSIO]` and `[DOCUMENT]` sections, from which the title can be read
      back. */
  function MapHeader(title: string): (r: seq<string>)
    ensures MapTitle(r) == Some(title)
  {
    ["[VERSIO]", "Vers=2", "SubVers=0", "variant=b", "",
     "[DOCUMENT]", "Titol= " + title + "(map)", ""]
  }

  /** Reads a map header back: the document title, if `lines` is a header.
      Nothing in the driver reads headers; this reader exists to state that
      `MapHeader` records its title recoverably. */
  function MapTitle(lines: seq<string>): Option<string>
  {
    if |lines| == 8 && lines[..6] == ["[VERSIO]", "Vers=2", "SubVers=0", "variant=b", "", "[DOCUMENT]"]
       && lines[7] == "" && |lines[6]| >= 12
       && lines[6][..7] == "Titol= " && lines[6][|lines[6]| - 5..] == "(map)"
    then Some(lines[6][7..|lines[6]| - 5])
    else None
  }

  /** What a successful bind does to the map bookkeeping, the layer
      constructor having already left its count in `m`. */
  function MapAfterBind(m: MMMap, root: string, layerName: string, mapOpened: bool): (r: MMMap)
    ensures r.numberOfLayers == m.numberOfLayers
    ensures r.mapName == "" || r.mapName == MapFileName(root)
    ensures r.mapName != "" ==> UsesMapFile(root)
    ensures r.mapFile != m.mapFile ==> UsesMapFile(root) && m.numberOfLayers == 0
    ensures r.mapFile.Some? && r.mapFile != m.mapFile ==>
              r.mapFile.value == MapHandle(MapFileName(root), MapHeader(GetBasename(layerName)))
  {
    if UsesMapFile(root) then
      var name := MapFileName(root);
      if m.numberOfLayers == 0 then
        if mapOpened then
          m.(mapName := name, mapFile := Some(MapHandle(name, MapHeader(GetBasename(layerName)))))
        else
          m.(mapName := "", mapFile := None)
      else
        m.(mapName := name)
    else
      m.(mapName := "")
  }

  /** The map name a successful bind leaves: the root's map file name
      exactly when the root is a folder and the map file was either already
      counted or opened now; "" otherwise. */
  lemma MapNameAfterBind(m: MMMap, root: string, layerName: string, mapOpened: bool)
    ensures var r := MapAfterBind(m, root, layerName, mapOpened);
            (r.mapName == MapFileName(root) <==> UsesMapFile(root) && (m.numberOfLayers != 0 || mapOpened))
            && (r.mapName != MapFileName(root) ==> r.mapName == "")
  {
  }

  /** With no layer counted, a folder root's bind (re)opens the map file:
      the handle afterwards is a fresh header for this layer, or null when
      opening failed, whatever handle was there before. */
  lemma MapFileAfterUncountedBind(m: MMMap, root: string, layerName: string, mapOpened: bool)
    requires UsesMapFile(root) && m.numberOfLayers == 0
    ensures MapAfterBind(m, root, layerName, mapOpened).mapFile ==
              if mapOpened then Some(MapHandle(MapFileName(root), MapHeader(GetBasename(layerName)))) else None
  {
  }

  /** The map bookkeeping after `Open` has run the layer constructor: the
      count is whatever the constructor left, an invalid layer leaves the
      map name and handle alone, and the handle changes only for a valid
      layer on a folder root with a zero count. */
  function BindMap(m: MMMap, root: string, binding: Binding, mapOpened: bool): (r: MMMap)
    ensures r.numberOfLayers == binding.numberOfLayers
    ensures !binding.valid ==> r.mapName == m.mapName && r.mapFile == m.mapFile
    ensures r.mapFile != m.mapFile ==> binding.valid && UsesMapFile(root) && binding.numberOfLayers == 0
  {
    var counted := m.(numberOfLayers := binding.numberOfLayers);
    if binding.valid then MapAfterBind(counted, root, binding.name, mapOpened) else counted
  }

  /** The map bookkeeping after a series of binds, each with the outcome of
      its map-file open. */
  function BindMaps(m: MMMap, root: string, binds: seq<(Binding, bool)>): MMMap
    decreases |binds|
  {
    if binds == [] then m
    else BindMaps(BindMap(m, root, binds[0].0, binds[0].1), root, binds[1..])
  }

  /** The map bookkeeping's handle invariant for a root: a handle is open
      only for a folder root, on that root's map file, and holds a header. */
  ghost predicate MapHandleFits(m: MMMap, root: string)
  {
    m.mapFile.Some? ==>
      UsesMapFile(root) &&
      exists title :: m.mapFile.value == MapHandle(MapFileName(root), MapHeader(title))
  }

  /** Any series of binds on one root keeps the handle invariant: a handle
      is never opened for a geometry-file or empty root, and every handle
      opened is the root's map file holding a fresh header. */
  lemma {:induction false} MapHandleFitsAfterBinds(m: MMMap, root: string, binds: seq<(Binding, bool)>)
    requires MapHandleFits(m, root)
    ensures MapHandleFits(BindMaps(m, root, binds), root)
    decreases |binds|
  {
    if binds != [] {
      var b := binds[0].0;
      var next := BindMap(m, root, b, binds[0].1);
      if next.mapFile != m.mapFile && next.mapFile.Some? {
        var counted := m.(numberOfLayers := b.numberOfLayers);
        assert next == MapAfterBind(counted, root, b.name, binds[0].1);
        assert next.mapFile.value == MapHandle(MapFileName(root), MapHeader(GetBasename(b.name)));
      }
      assert MapHandleFits(next, root);
      MapHandleFitsAfterBinds(next, root, binds[1..]);
    }
  }

  /** As long as every layer constructor reports at least one layer in the
      map bookkeeping, no further bind touches the map file handle: the
      header is written at most once. */
  lemma {:induction false} MapFileUntouchedWhileCounted(m: MMMap, root: string, binds: seq<(Binding, bool)>)
    requires forall i :: 0 <= i < |binds| ==> binds[i].0.numberOfLayers > 0
    ensures BindMaps(m, root, binds).mapFile == m.mapFile
    decreases |binds|
  {
    if binds != [] {
      var next := BindMap(m, root, binds[0].0, binds[0].1);
      assert next.mapFile == m.mapFile;
      MapFileUntouchedWhileCounted(next, root, binds[1..]);
    }
  }

  /** When layer constructors leave the count at zero, two successful binds
      on a folder root both open the map file: the second truncates it and
      writes the header again, titled after the second layer. */
  lemma MapFileRewrittenWhileUncounted(m: MMMap, root: string, first: Binding, second: Binding)
    requires UsesMapFile(root)
    requires first.valid && second.valid
    requires first.numberOfLayers == 0 && second.numberOfLayers == 0
    ensures var once := BindMap(m, root, first, true);
            once.mapFile == Some(MapHandle(MapFileName(root), MapHeader(GetBasename(first.name)))) &&
            BindMap(once, root, second, true).mapFile
              == Some(MapHandle(MapFileName(root), MapHeader(GetBasename(second.name))))
  {
  }

  // ---------------------------------------------------------------------
  // File lists and teardown
  // ---------------------------------------------------------------------

  /** Every layer's file contributions, in registration order. */
  function FileList(ls: seq<Layer>): seq<string>
  {
    if ls == [] then [] else FileList(ls[..|ls| - 1]) + ls[|ls| - 1].files
  }

  /** Registering one more layer adds exactly its files, at the end. */
  lemma FileListOfAppended(ls: seq<Layer>, l: Layer)
    ensures FileList(ls + [l]) == FileList(ls) + l.files
  {
  }

  /** A file is in the list exactly when some registered layer contributes it. */
  lemma {:induction false} FileListMembership(ls: seq<Layer>, f: string)
    ensures f in FileList(ls) <==> exists i :: 0 <= i < |ls| && f in ls[i].files
  {
    if ls != [] {
      var init := ls[..|ls| - 1];
      FileListMembership(init, f);
      assert forall i :: 0 <= i < |init| ==> init[i] == ls[i];
    }
  }

  function ReleaseEvents(ls: seq<Layer>): seq<TeardownEvent>
  {
    seq(|ls|, i requires 0 <= i < |ls| => LayerReleased(ls[i]))
  }

  // ---------------------------------------------------------------------
  // The datasource
  // ---------------------------------------------------------------------

  class DataSource {
    var update: bool
    var rootName: string
    var layers: seq<Layer>
    var mmMap: MMMap

    /** A read-only, empty datasource with zeroed map bookkeeping. */
    constructor ()
      ensures !update && rootName == "" && layers == []
      ensures mmMap == MMMap("", None, 0)
    {
      update := false;
      rootName := "";
      layers := [];
      mmMap := MMMap("", None, 0);
    }

    /** `TestCapability`: layer creation follows the update flag, Z
        geometries are always supported, nothing else is. */
    predicate TestCapability(cap: string)
      reads this
      ensures EqualNoCase(cap, CreateLayerCap) ==> (TestCapability(cap) <==> update)
      ensures EqualNoCase(cap, ZGeometriesCap) ==> TestCapability(cap)
      ensures TestCapability(cap) ==> EqualNoCase(cap, CreateLayerCap) || EqualNoCase(cap, ZGeometriesCap)
    {
      if EqualNoCase(cap, CreateLayerCap) then
        assert !EqualNoCase(cap, ZGeometriesCap) by {
          assert ToLower(cap[0]) == 'c';
        }
        update
      else
        EqualNoCase(cap, ZGeometriesCap)
    }

    /** `GetLayer`: the layer at `i`, or None outside `0 .. |layers| - 1`. */
    function GetLayer(i: int): (r: Option<Layer>)
      reads this
      ensures r.Some? <==> 0 <= i < |layers|
      ensures r.Some? ==> r.value == layers[i]
    {
      if i < 0 || i >= |layers| then None else Some(layers[i])
    }

    /** `Create`: records the root name and switches to update mode; no
        file is touched and no layer or map state changes. */
    method Create(name: string) returns (ok: bool)
      modifies this
      ensures ok && update && rootName == name
      ensures layers == old(layers) && mmMap == old(mmMap)
      ensures TestCapability(CreateLayerCap)
    {
      update := true;
      rootName := name;
      ok := true;
    }

    /** `Open`: binds one layer at `filename`. An invalid layer is dropped
        and nothing but the constructor's count changes; a valid one is
        appended and may start the map file, whose failure to open does not
        fail the call. */
    method Open(filename: string, binding: Binding, mapOpened: bool) returns (ok: bool)
      modifies this
      ensures ok == binding.valid
      ensures update == old(update) && rootName == old(rootName)
      ensures layers == if ok then old(layers) + [Layer(filename, binding.name, binding.files)] else old(layers)
      ensures mmMap == BindMap(old(mmMap), rootName, binding, mapOpened)
      ensures !ok ==> mmMap.mapName == old(mmMap).mapName && mmMap.mapFile == old(mmMap).mapFile
    {
      mmMap := mmMap.(numberOfLayers := binding.numberOfLayers);
      if !binding.valid {
        return false;
      }
      ghost var counted := mmMap;
      assert BindMap(old(mmMap), rootName, binding, mapOpened) ==
               MapAfterBind(counted, rootName, binding.name, mapOpened);
      if rootName != "" {
        var ext := GetExtension(rootName);
        if !IsGeometryExtension(ext) {
          assert UsesMapFile(rootName);
          var name := MapFileName(rootName);
          mmMap := mmMap.(mapName := name);
          if mmMap.numberOfLayers == 0 {
            if !mapOpened {
              mmMap := mmMap.(mapName := "", mapFile := None);
            } else {
              mmMap := mmMap.(mapFile := Some(MapHandle(name, MapHeader(GetBasename(binding.name)))));
            }
          }
        } else {
          assert !UsesMapFile(rootName);
          mmMap := mmMap.(mapName := "");
        }
      } else {
        mmMap := mmMap.(mapName := "");
      }
      assert mmMap == MapAfterBind(counted, rootName, binding.name, mapOpened);
      layers := layers + [Layer(filename, binding.name, binding.files)];
      ok := true;
    }

    /** The folder step of `ICreateLayer`: derives the layer path from the
        root and checks the destination folder, or creates the root folder
        (one level only). The failure, if any, is the error it raises; only
        a successful mkdir changes the file system. */
    method PrepareDestination(layerName: string, fs: FileSystem, mkdirSucceeds: bool)
      returns (path: string, failure: Option<Diagnostic>)
      modifies fs
      ensures path == LayerPath(rootName, layerName)
      ensures DestinationMissing(rootName, old(fs.dirs)) ==>
                failure == Some(FolderMissing(GetDirname(path))) && fs.dirs == old(fs.dirs)
      ensures NeedsFolder(rootName, old(fs.dirs)) && !mkdirSucceeds ==>
                failure == Some(FolderNotCreated(rootName)) && fs.dirs == old(fs.dirs)
      ensures !DestinationMissing(rootName, old(fs.dirs)) && !(NeedsFolder(rootName, old(fs.dirs)) && !mkdirSucceeds) ==>
                failure == None &&
                fs.dirs == if NeedsFolder(rootName, old(fs.dirs)) then old(fs.dirs) + {rootName} else old(fs.dirs)
    {
      failure := None;
      var ext := GetExtension(rootName);
      if IsGeometryExtension(ext) {
        path := GeometryLayerPath(rootName);
        assert path == LayerPath(rootName, layerName);
        var destFolder := GetDirname(path);
        assert DestinationMissing(rootName, fs.dirs) <==>
                 !StartsWith(destFolder, VsiMemPrefix) && !fs.IsDir(destFolder);
        if !StartsWith(destFolder, VsiMemPrefix) && !fs.IsDir(destFolder) {
          failure := Some(FolderMissing(destFolder));
        }
      } else {
        path := FormFilename(rootName, layerName, "");
        assert path == LayerPath(rootName, layerName);
        assert !DestinationMissing(rootName, fs.dirs);
        assert NeedsFolder(rootName, fs.dirs) <==> !StartsWith(rootName, VsiMemPrefix) && !fs.IsDir(rootName);
        if !StartsWith(rootName, VsiMemPrefix) && !fs.IsDir(rootName) {
          var made := fs.Mkdir(rootName, mkdirSucceeds);
          if !made {
            failure := Some(FolderNotCreated(rootName));
          }
        }
      }
    }

    /** `ICreateLayer`: warns about measures, prepares the destination, and
        binds the layer. The result is the newly appended layer, or None when
        the folder step or the bind fails. */
    method ICreateLayer(layerName: string, hasMeasures: bool, fs: FileSystem,
                        mkdirSucceeds: bool, binding: Binding, mapOpened: bool)
      returns (layer: Option<Layer>, diagnostics: seq<Diagnostic>)
      modifies this, fs
      ensures update == old(update) && rootName == old(rootName)
      ensures layer.Some? ==> layers != [] && layer.value == layers[|layers| - 1]
      ensures var root := old(rootName);
              var path := LayerPath(root, layerName);
              var warned := if hasMeasures then [Warning(MeasuresIgnored)] else [];
              if DestinationMissing(root, old(fs.dirs)) then
                layer == None && layers == old(layers) && mmMap == old(mmMap) &&
                fs.dirs == old(fs.dirs) &&
                diagnostics == warned + [FolderMissing(GetDirname(path))]
              else if NeedsFolder(root, old(fs.dirs)) && !mkdirSucceeds then
                layer == None && layers == old(layers) && mmMap == old(mmMap) &&
                fs.dirs == old(fs.dirs) &&
                diagnostics == warned + [FolderNotCreated(root)]
              else
                diagnostics == warned &&
                fs.dirs == (if NeedsFolder(root, old(fs.dirs)) then old(fs.dirs) + {root} else old(fs.dirs)) &&
                layer == (if binding.valid then Some(Layer(path, binding.name, binding.files)) else None) &&
                layers == (if binding.valid then old(layers) + [Layer(path, binding.name, binding.files)] else old(layers)) &&
                mmMap == BindMap(old(mmMap), root, binding, mapOpened)
    {
      diagnostics := if hasMeasures then [Warning(MeasuresIgnored)] else [];
      var path, failure := PrepareDestination(layerName, fs, mkdirSucceeds);
      if failure.Some? {
        diagnostics := diagnostics + [failure.value];
        return None, diagnostics;
      }
      var ok := Open(path, binding, mapOpened);
      if ok {
        layer := Some(layers[|layers| - 1]);
      } else {
        layer := None;
      }
    }

    /** `GetFileList`: each layer's files, in registration order. */
    method GetFileList() returns (files: seq<string>)
      ensures files == FileList(layers)
    {
      files := [];
      for i := 0 to |layers|
        invariant files == FileList(layers[..i])
      {
        FileListOfAppended(layers[..i], layers[i]);
        assert layers[..i + 1] == layers[..i] + [layers[i]];
        files := files + layers[i].files;
      }
      assert layers[..|layers|] == layers;
    }

    /** The destructor: releases every layer, then closes the map file if
        one is open. Afterwards no handle is left, so a second teardown
        closes nothing. */
    method Teardown() returns (events: seq<TeardownEvent>)
      modifies this
      ensures update == old(update) && rootName == old(rootName)
      ensures layers == [] && mmMap == old(mmMap).(mapFile := None)
      ensures events == ReleaseEvents(old(layers)) +
                        (if old(mmMap).mapFile.Some? then [MapClosed(old(mmMap).mapFile.value)] else [])
    {
      events := ReleaseEvents(layers);
      layers := [];
      if mmMap.mapFile.Some? {
        events := events + [MapClosed(mmMap.mapFile.value)];
        mmMap := mmMap.(mapFile := None);
      }
    }
  }

  /** The single-file branch stops: the folder that would hold the layer is
      neither in memory nor an existing directory. Only a geometry-file root
      can stop here, and such a root never needs its folder created. */
  predicate DestinationMissing(root: string, dirs: set<string>)
    ensures DestinationMissing(root, dirs) ==> IsGeometryRoot(root) && !NeedsFolder(root, dirs)
  {
    IsGeometryRoot(root) &&
    var destFolder := GetDirname(GeometryLayerPath(root));
    !StartsWith(destFolder, VsiMemPrefix) && destFolder !in dirs
  }

  /** The folder branch has to create the root folder: a root that is not a
      geometry file, not in memory, and not yet a directory. */
  predicate NeedsFolder(root: string, dirs: set<string>)
    ensures NeedsFolder(root, dirs) ==> !IsGeometryRoot(root) && root !in dirs
  {
    !IsGeometryRoot(root) && !StartsWith(root, VsiMemPrefix) && root !in dirs
  }

  /** At most one of the two folder checks fails for a root, and each is
      settled by the directory it asks for: once the destination folder of a
      geometry-file root exists, or once the root folder has been made, the
      check passes, and more directories never make it fail. */
  lemma FolderChecksSettle(root: string, dirs: set<string>, more: set<string>)
    requires dirs <= more
    ensures !(DestinationMissing(root, dirs) && NeedsFolder(root, dirs))
    ensures !DestinationMissing(root, dirs + {GetDirname(LayerPath(root, ""))})
    ensures !NeedsFolder(root, dirs + {root})
    ensures DestinationMissing(root, more) ==> DestinationMissing(root, dirs)
    ensures NeedsFolder(root, more) ==> NeedsFolder(root, dirs)
  {
  }
}
