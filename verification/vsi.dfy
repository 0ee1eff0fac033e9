/**
 The part of GDAL's virtual file system the MiraMon datasource relies on
 when it creates a layer: `VSIStatL` followed by `VSI_ISDIR`, which asks
 whether a path names an existing directory, and `VSIMkdir`. The file
 system is its set of existing directories; whether a `VSIMkdir` call
 succeeds (permissions, a missing parent folder, a full disk) is decided
 outside the model and given to `Mkdir` as an argument.
 */
module Vsi {

  class FileSystem {
    var dirs: set<string>

    constructor (existing: set<string>)
      ensures dirs == existing
    {
      dirs := existing;
    }

    /** `VSIStatL(path) == 0 && VSI_ISDIR(st_mode)`. */
    predicate IsDir(path: string)
      reads this
    {
      path in dirs
    }

    /** `VSIMkdir(path, 0755) == 0`: on success the directory exists
        afterwards and no other directory appears or disappears. */
    method Mkdir(path: string, succeeds: bool) returns (ok: bool)
      modifies this
      ensures ok == succeeds
      ensures dirs == if ok then old(dirs) + {path} else old(dirs)
    {
      ok := succeeds;
      if ok {
        dirs := dirs + {path};
      }
    }
  }
}
