# MiraMon vector datasource, modelled in Dafny

This project models `OGRMiraMonDataSource`, the datasource coordinator of GDAL's
MiraMon vector driver. A MiraMon dataset is rooted at a path. That path names
either one geometry file, with extension `pol`, `arc` or `pnt`, or a container
folder that holds several layers. The coordinator keeps four things:

- the root name;
- the update flag;
- the ordered list of bound layers;
- the map-file part of the `m_MMMap` bookkeeping it shares with its layers:
  the `.mmm` file name, the open handle, and the layer count that the layers keep.

It derives each new layer's path from the root. It checks the destination folder,
or creates one level of it. It binds the layer, registers it, and may start the
`.mmm` map file that lets MiraMon open every layer of a folder at once.

Files:

- `cpl_path.dfy` (module `CplPath`): explicit definitions of the CPL path helpers
  the coordinator calls, and their split/join lemmas.
- `vsi.dfy` (module `Vsi`): the file system as a set of existing directories. It
  has a `Mkdir` whose outcome is an argument.
- `miramon_datasource.dfy` (module `MiraMonDataSource`): the class `DataSource`.
  Its methods update the fields in place. Beside it are the pure functions that
  classify the root, derive layer and map paths, and describe the map bookkeeping,
  with the lemmas about them.

Arguments stand in for everything outside the coordinator:

- The layer constructor is a `Binding` value. It holds validity, name, file
  contributions, and the `nNumberOfLayers` the constructor leaves behind. The
  constructor runs before the validity check, so the count it leaves is kept even
  for an invalid layer.
- The success of `VSIMkdir` is a boolean argument.
- The success of `VSIFOpenL` on the map file is a boolean argument.
- `CPLError` messages are returned as a list of diagnostics.

The map file is a handle holding the lines written through it.

The path helpers' C sources are not part of this model. Each has a small explicit
definition in `cpl_path.dfy`:

- `/` is the only separator.
- The extension is the text after the last `.` of the final component.
- `CPLResetExtensionSafe(p, "")` leaves `stem.`.
- `CPLFormFilenameSafe` joins with one `/`, and adds `.ext` only for a non-empty
  extension.

The capability tokens are GDAL's `ODsCCreateLayer` (`"CreateLayer"`) and
`ODsCZGeometries` (`"ZGeometries"`). The header that defines them is not part of
this model.

Two behaviours of the code are worth stating plainly:

- The map file is not written once per dataset. `Open` gates the open on
  `nNumberOfLayers == 0` (`ogrmiramondatasource.cpp:66`). If the layer constructors
  leave that count at zero, every successful bind on a folder root reopens the `.mmm`
  file with `"w+"` and writes the header again. The handle that was open before is
  overwritten without being closed. `MapFileRewrittenWhileUncounted` states the
  rewrite. `MapFileUntouchedWhileCounted` states that the handle never changes while
  every constructor reports a positive count.
- `Create` may replace the root name at any time (`ogrmiramondatasource.cpp:114`),
  and so does the model. `MapHandleFitsAfterBinds` proves that, for one fixed root,
  an open map handle is always that root's `.mmm` file holding a header, and that
  no handle is opened for a geometry-file or empty root. A `Create` that replaces
  the root while a handle is open, even with a geometry-file root, leaves that
  handle in place, and the invariant no longer holds for the new root.

## Model

| member | source | states |
|---|---|---|
| `CplPath.EqualNoCaseIsLowerEqual` | ogr/ogrsf_frmts/miramon/ogrmiramondatasource.cpp:55-57 | `EQUAL` comparison ignores ASCII case: two strings are `EQUAL` exactly when their lower-cased forms are identical |
| `CplPath.StartsWith` | ogr/ogrsf_frmts/miramon/ogrmiramondatasource.cpp:161 | `STARTS_WITH(s, prefix)` holds exactly when `prefix` is no longer than `s` and agrees with it character by character |
| `CplPath.GetExtension` | ogr/ogrsf_frmts/miramon/ogrmiramondatasource.cpp:149 | the extension has no `.` or `/`; when the final component holds a dot, the component ends in `.` followed by the extension; otherwise the extension is empty |
| `CplPath.GetBasename` | ogr/ogrsf_frmts/miramon/ogrmiramondatasource.cpp:62 | the basename has no `/`, and the final component is the basename, then `.` and the extension, when it holds a dot; otherwise it is the whole component |
| `CplPath.GetDirname` | ogr/ogrsf_frmts/miramon/ogrmiramondatasource.cpp:159-160 | a path without separator has folder `.`; a path whose last separator is its first character has folder `/` and is `/` followed by the final component; any other path is its folder, `/` and the final component |
| `CplPath.Stem` | ogr/ogrsf_frmts/miramon/ogrmiramondatasource.cpp:154 | the part `CPLResetExtensionSafe` keeps is the folder part followed by the basename, and when the final component holds a dot, the stem, `.` and the old extension give back the path |
| `CplPath.ResetExtension` | ogr/ogrsf_frmts/miramon/ogrmiramondatasource.cpp:154 | with a new extension free of `/`, the result keeps the original folder part (everything up to the last separator); when the extension is also free of `.`, the result has exactly that extension and keeps the basename of the original path |
| `CplPath.ResetExtensionStrips` | ogr/ogrsf_frmts/miramon/ogrmiramondatasource.cpp:154-156 | resetting the extension to "" ends in a dot; with that dot popped, adding `.` and the old extension gives back the original path |
| `CplPath.FormFilename` | ogr/ogrsf_frmts/miramon/ogrmiramondatasource.cpp:175-176 | for a base and extension without `/`, the folder part of the result is the folder followed by one `/`, or the folder alone when it is empty or already ends in `/`; with an empty extension the final component is the base (no dot is added); with an extension free of `.` the result has that extension and that basename; and its directory is the given folder whenever that folder is non-empty with no trailing `/` |
| `MiraMonDataSource.GeometryExtensionIgnoresCase` | ogr/ogrsf_frmts/miramon/ogrmiramondatasource.cpp:151-152 | a root is a geometry file exactly when its lower-cased extension is `pol`, `arc` or `pnt` |
| `MiraMonDataSource.LayerPath` | ogr/ogrsf_frmts/miramon/ogrmiramondatasource.cpp:149-176 | for a geometry-file root the layer path is the root minus exactly `.` and its three-letter extension; for any other root it is the folder prefix (the root plus one `/` unless it is empty or already ends in `/`) followed by the layer name; for a layer name without `/` the final component is that name, and when the root is also non-empty with no trailing `/` the layer lies directly in the root folder |
| `MiraMonDataSource.GeometryLayerPathIgnoresName` | ogr/ogrsf_frmts/miramon/ogrmiramondatasource.cpp:149-156 | for a geometry-file root the layer path does not depend on the layer name asked for |
| `MiraMonDataSource.FolderLayerPathsDistinct` | ogr/ogrsf_frmts/miramon/ogrmiramondatasource.cpp:175-176 | under a folder root, distinct layer names give distinct layer paths |
| `MiraMonDataSource.MapFileName` | ogr/ogrsf_frmts/miramon/ogrmiramondatasource.cpp:59-65 | for every root the map file is the folder prefix, the root's basename and `.mmm` (a root `out/` gives `out/.mmm`); its extension is `mmm` and its basename the root's; when the root is non-empty with no trailing `/`, its folder is the root |
| `MiraMonDataSource.MapHeader` | ogr/ogrsf_frmts/miramon/ogrmiramondatasource.cpp:79-87 | the header is the `[VERSIO]` section (`Vers=2`, `SubVers=0`, `variant=b`), a blank line, the `[DOCUMENT]` section with `Titol= <title>(map)`, and a blank line; reading it back yields the title written |
| `MiraMonDataSource.MapAfterBind` | ogr/ogrsf_frmts/miramon/ogrmiramondatasource.cpp:51-95 | after a successful bind the map name is "" or the root's map file name, and non-empty only for a non-empty folder root; the handle changes only for such a root with a zero layer count, and a new handle holds the header titled after the layer's basename |
| `MiraMonDataSource.MapNameAfterBind` | ogr/ogrsf_frmts/miramon/ogrmiramondatasource.cpp:51-95 | the map name is the root's map file name exactly when the root is a non-empty folder and either the count is non-zero or the map file opened; otherwise it is cleared |
| `MiraMonDataSource.MapFileAfterUncountedBind` | ogr/ogrsf_frmts/miramon/ogrmiramondatasource.cpp:66-76 | with a zero count on a folder root the handle becomes a fresh header for this layer, or null when the open fails, whatever handle was there before |
| `MiraMonDataSource.BindMap` | ogr/ogrsf_frmts/miramon/ogrmiramondatasource.cpp:44-95 | after the layer constructor runs, the count is the one it left; an invalid layer leaves the map name and handle untouched; the handle changes only for a valid layer on a non-empty folder root with a zero count |
| `MiraMonDataSource.MapHandleFitsAfterBinds` | ogr/ogrsf_frmts/miramon/ogrmiramondatasource.cpp:51-95 | over any series of binds on one root, an open map handle is always on that root's `.mmm` file and holds a header, and a handle is only ever open for a non-empty folder root |
| `MiraMonDataSource.MapFileUntouchedWhileCounted` | ogr/ogrsf_frmts/miramon/ogrmiramondatasource.cpp:66 | over any series of binds whose constructors each report a positive count, the map handle never changes (the header is written at most once) |
| `MiraMonDataSource.MapFileRewrittenWhileUncounted` | ogr/ogrsf_frmts/miramon/ogrmiramondatasource.cpp:66-88 | when constructors leave the count at zero, a second successful bind on a folder root reopens the map file and rewrites the header, titled after the second layer |
| `MiraMonDataSource.FileListOfAppended` | ogr/ogrsf_frmts/miramon/ogrmiramondatasource.cpp:245-248 | registering one more layer adds exactly that layer's files at the end of the file list |
| `MiraMonDataSource.FileListMembership` | ogr/ogrsf_frmts/miramon/ogrmiramondatasource.cpp:242-250 | a file is in the file list exactly when some registered layer contributes it |
| `MiraMonDataSource.DestinationMissing` | ogr/ogrsf_frmts/miramon/ogrmiramondatasource.cpp:159-171 | the destination-folder check can fail only for a geometry-file root, and such a root never needs its folder created |
| `MiraMonDataSource.NeedsFolder` | ogr/ogrsf_frmts/miramon/ogrmiramondatasource.cpp:182-187 | the root folder is created only for a root that is not a geometry file and is not already a directory |
| `MiraMonDataSource.FolderChecksSettle` | ogr/ogrsf_frmts/miramon/ogrmiramondatasource.cpp:159-190 | at most one folder check fails for a root; adding the destination folder, or the root folder, makes the corresponding check pass; and more existing directories never make either check fail |
| `MiraMonDataSource.DataSource.constructor` | ogr/ogrsf_frmts/miramon/ogrmiramondatasource.cpp:17-20 | a new datasource is read-only, with no root name, no layers, and zeroed map bookkeeping |
| `MiraMonDataSource.DataSource.TestCapability` | ogr/ogrsf_frmts/miramon/ogrmiramondatasource.cpp:214-223 | the create-layer capability (any case) answers the update flag, Z geometries are always supported, and every other token is refused |
| `MiraMonDataSource.DataSource.GetLayer` | ogr/ogrsf_frmts/miramon/ogrmiramondatasource.cpp:229-236 | a layer is returned exactly for `0 <= i < |layers|`, and it is `layers[i]`; the lookup reads state only |
| `MiraMonDataSource.DataSource.Create` | ogr/ogrsf_frmts/miramon/ogrmiramondatasource.cpp:109-117 | always succeeds, sets update mode (so layer creation is advertised), records the name unchanged, and leaves the layers and map state as they were |
| `MiraMonDataSource.DataSource.Open` | ogr/ogrsf_frmts/miramon/ogrmiramondatasource.cpp:39-100 | succeeds exactly when the bound layer is valid; then it appends exactly that layer after the earlier ones, whether or not the map file opened; an invalid layer leaves the layers, map name and map handle unchanged |
| `MiraMonDataSource.DataSource.PrepareDestination` | ogr/ogrsf_frmts/miramon/ogrmiramondatasource.cpp:149-197 | the path is the layer path derived from the root; a missing destination folder for a geometry-file root fails with "The folder … does not exist."; a failed mkdir of a folder root fails with "Unable to create the folder …"; failures leave the directories unchanged, and otherwise the root folder is added exactly when it had to be created |
| `MiraMonDataSource.DataSource.ICreateLayer` | ogr/ogrsf_frmts/miramon/ogrmiramondatasource.cpp:123-208 | warns when the geometry has measures; a missing destination folder for a geometry-file root, or a failed mkdir for a folder root, returns None with its error and changes nothing; mkdir happens only for a folder root that is neither in memory nor an existing directory; otherwise the layer is bound at the derived path and the result is the newly appended last layer |
| `MiraMonDataSource.DataSource.GetFileList` | ogr/ogrsf_frmts/miramon/ogrmiramondatasource.cpp:242-250 | the result is the concatenation, in registration order, of every layer's file contributions (empty with no layers) |
| `MiraMonDataSource.DataSource.Teardown` | ogr/ogrsf_frmts/miramon/ogrmiramondatasource.cpp:26-33 | every layer is released before the map file is closed; the map file is closed only if it is open, and no handle is left afterwards |
| `Vsi.FileSystem.Mkdir` | ogr/ogrsf_frmts/miramon/ogrmiramondatasource.cpp:188 | a successful mkdir adds exactly the requested folder; a failed one changes nothing |

## Left out

- The random seed `srand(time(nullptr))` (`ogrmiramondatasource.cpp:136`) is not modelled. It is a process-wide side effect driven by the wall clock, with no result the coordinator sees.
- `CPLStrlcpy` truncation of `pszMapName` to its fixed buffer is not modelled. Paths are assumed to fit.
- The layer constructor and `AddToFileList` are not modelled. Their results are given as a `Binding`. Anything the constructor itself writes into the map file is not modelled, so the handle holds only the lines `Open` writes.
- The spatial reference, the open options and the pre-opened file handle that `Open` passes to the layer constructor are not modelled. Of the geometry type, only "has measures" is kept.
- Real VSI I/O is abstracted. `VSIStatL`/`VSI_ISDIR` is membership in a set of directories, and `VSIMkdir` and `VSIFOpenL` outcomes are arguments. Flushing on `VSIFCloseL` is not modelled.
- `CPLError` is global state in GDAL. Here `ICreateLayer` returns the messages it raises instead.
- The path helpers handle `\`, drive letters, `..` and virtual-file prefixes in GDAL. The model treats `/` as the only separator and leaves out those cases.
- `CPLGetExtensionSafe` in GDAL does not take a dot at the start of the final component as an extension separator, and it returns "" for an extension longer than ten characters. The model takes the text after any last dot, so a root such as `dir/.pol` is a geometry-file root here but a folder root in GDAL.
- Layers are values, not objects. `GetLayer` and `ICreateLayer` return the layer record, not a pointer to it.
- `std::vector::clear` does not fix an order of destruction. `Teardown` lists the layers in registration order.
- `TestCapability` returns a boolean where the source returns an `int`.
- The `static_cast<int>` of the layer count in `GetLayer` is not modelled. Layer counts are assumed to fit in an `int`.
