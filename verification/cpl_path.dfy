/**
 The CPL helpers the MiraMon datasource calls: `EQUAL`, `STARTS_WITH`,
 `CPLGetExtensionSafe`, `CPLGetBasenameSafe`, `CPLGetDirnameSafe`,
 `CPLResetExtensionSafe` and `CPLFormFilenameSafe`, together with
 `Component`, the split into folder part and final component that the
 path helpers share.
 Their C sources are not part of this model; each is given an explicit
 definition here, under these assumptions:
 - `/` is the only path separator (no `\` and no drive `:`);
 - the final component of a path is the text after its last `/`;
 - the extension is the text after the last `.` of the final component,
   and is empty when that component holds no `.`;
 - resetting the extension to "" leaves `stem.`, where `stem` is the path
   without its `.ext`;
 - forming a filename joins directory and base with one `/` (none after an
   empty directory or one that already ends with `/`), and adds `.ext`
   only for a non-empty extension.
 */
module CplPath {

  /** ASCII lower-casing, the folding `EQUAL` (a case-insensitive strcmp) applies. */
  function ToLower(c: char): char
  {
    if 'A' <= c <= 'Z' then (c as int - 'A' as int + 'a' as int) as char else c
  }

  function Lower(s: string): string
  {
    seq(|s|, i requires 0 <= i < |s| => ToLower(s[i]))
  }

  /** `EQUAL(a, b)`: the strings agree once ASCII case is ignored. */
  predicate EqualNoCase(a: string, b: string)
  {
    |a| == |b| && forall i :: 0 <= i < |a| ==> ToLower(a[i]) == ToLower(b[i])
  }

  lemma EqualNoCaseIsLowerEqual(a: string, b: string)
    ensures EqualNoCase(a, b) <==> Lower(a) == Lower(b)
  {
    if Lower(a) == Lower(b) {
      forall i | 0 <= i < |a|
        ensures ToLower(a[i]) == ToLower(b[i])
      {
        assert Lower(a)[i] == Lower(b)[i];
      }
    }
  }

  /** `STARTS_WITH(s, prefix)`: `s` begins with every character of `prefix`, in order. */
  predicate StartsWith(s: string, prefix: string)
    ensures StartsWith(s, prefix) <==>
              |prefix| <= |s| && forall i :: 0 <= i < |prefix| ==> s[i] == prefix[i]
  {
    |prefix| <= |s| && s[..|prefix|] == prefix
  }

  /** Index of the last occurrence of `c` in `s`, or -1 when there is none. */
  function LastIndexOf(s: string, c: char): (k: int)
    ensures -1 <= k < |s|
    ensures k >= 0 ==> s[k] == c
    ensures forall j :: k < j < |s| ==> s[j] != c
  {
    if s == [] then -1
    else if s[|s| - 1] == c then |s| - 1
    else LastIndexOf(s[..|s| - 1], c)
  }

  /** The three facts `LastIndexOf` ensures determine its value. */
  lemma LastIndexOfUnique(s: string, c: char, k: int)
    requires -1 <= k < |s|
    requires k >= 0 ==> s[k] == c
    requires forall j :: k < j < |s| ==> s[j] != c
    ensures LastIndexOf(s, c) == k
  {
  }

  /** Where the final path component starts. */
  function FileStart(path: string): (i: nat)
    ensures i <= |path|
    ensures i > 0 ==> path[i - 1] == '/'
    ensures '/' !in path[i..]
  {
    var k := LastIndexOf(path, '/');
    k + 1
  }

  /** The final component of a path: the text after its last separator. */
  function Component(path: string): (r: string)
    ensures '/' !in r
  {
    path[FileStart(path)..]
  }

  /** `CPLGetExtensionSafe`. */
  function GetExtension(path: string): (r: string)
    ensures '.' !in r && '/' !in r
    ensures '.' in Component(path) ==>
              |r| < |Component(path)| &&
              Component(path)[|Component(path)| - |r| - 1..] == "." + r
    ensures '.' !in Component(path) ==> r == ""
  {
    var comp := Component(path);
    var d := LastIndexOf(comp, '.');
    if d < 0 then
      assert '.' !in comp;
      ""
    else
      var r := comp[d + 1..];
      assert forall c :: c in r ==> c != '.' && c != '/';
      r
  }

  /** `CPLGetBasenameSafe`: the final component without its extension. */
  function GetBasename(path: string): (r: string)
    ensures '/' !in r
    ensures '.' in Component(path) ==> Component(path) == r + "." + GetExtension(path)
    ensures '.' !in Component(path) ==> r == Component(path)
  {
    var comp := Component(path);
    var d := LastIndexOf(comp, '.');
    if d < 0 then
      comp
    else
      assert comp == comp[..d] + "." + comp[d + 1..];
      assert forall c :: c in comp[..d] ==> c in comp;
      comp[..d]
  }

  /** `CPLGetDirnameSafe`: "." for a bare name, "/" for a name at the root,
      otherwise everything before the last separator. */
  function GetDirname(path: string): (r: string)
    ensures '/' !in path ==> r == "."
    ensures '/' in path ==>
              if FileStart(path) == 1 then r == "/" && path == r + Component(path)
              else path == r + "/" + Component(path)
  {
    var start := FileStart(path);
    if start == 0 then
      assert path == path[start..];
      "."
    else if start == 1 then
      assert path == "/" + Component(path);
      "/"
    else
      assert path == path[..start - 1] + "/" + path[start..];
      path[..start - 1]
  }

  /** What `CPLResetExtensionSafe` keeps of a path: everything before the
      last dot of the final component, or the whole path when that component
      has no dot. That is the folder part followed by the basename. */
  function Stem(path: string): (s: string)
    ensures s == path[..FileStart(path)] + GetBasename(path)
    ensures '.' in Component(path) ==> s + "." + GetExtension(path) == path
  {
    var start := FileStart(path);
    var d := LastIndexOf(path[start..], '.');
    if d < 0 then
      assert path == path[..start] + path[start..];
      path
    else
      SplitAtDot(path, start, d);
      path[..start + d]
  }

  /** A path splits around a dot found `d` characters into its text from
      `start`. */
  lemma SplitAtDot(path: string, start: nat, d: nat)
    requires start <= |path| && d < |path| - start && path[start..][d] == '.'
    ensures path[..start + d] == path[..start] + path[start..][..d]
    ensures path[start..][d + 1..] == path[start + d + 1..]
    ensures path[..start + d] + "." + path[start + d + 1..] == path
  {
    assert path == path[..start + d] + [path[start + d]] + path[start + d + 1..];
  }

  /** `CPLResetExtensionSafe`: replaces the extension of the final component,
      or adds one when it has none. The folder part and the basename are
      kept and the new extension is the one asked for. */
  function ResetExtension(path: string, ext: string): (r: string)
    ensures '.' !in ext && '/' !in ext ==>
              GetExtension(r) == ext && GetBasename(r) == GetBasename(path)
    ensures '/' !in ext ==>
              FileStart(r) == FileStart(path) && r[..FileStart(r)] == path[..FileStart(path)]
  {
    StemWithExtension(path, ext);
    Stem(path) + "." + ext
  }

  /** An extension without a leading dot gets one dot before it. */
  lemma FormFilenameAddsDot(dir: string, base: string, ext: string)
    requires ext != "" && ext[0] != '.'
    ensures FormFilename(dir, base, ext) == FolderPrefix(dir) + base + "." + ext
  {
  }

  /** The stem of a path followed by `.ext` keeps the path's folder part and
      basename and has extension `ext`. */
  lemma StemWithExtension(path: string, ext: string)
    ensures '.' !in ext && '/' !in ext ==>
              GetExtension(Stem(path) + "." + ext) == ext &&
              GetBasename(Stem(path) + "." + ext) == GetBasename(path)
    ensures '/' !in ext ==>
              FileStart(Stem(path) + "." + ext) == FileStart(path) &&
              (Stem(path) + "." + ext)[..FileStart(path)] == path[..FileStart(path)]
  {
    if '/' !in ext {
      var start := FileStart(path);
      var head := path[..start];
      assert |head| == start;
      assert start > 0 ==> head[start - 1] == path[start - 1] == '/';
      FolderAfterStem(head, GetBasename(path), ext);
      if '.' !in ext {
        ExtensionAfterStem(head, GetBasename(path), ext);
      }
    }
  }

  /** A folder part (empty or ending in a separator), a base and `.ext`,
      with no separator in base or extension, keep that folder part. */
  lemma FolderAfterStem(head: string, base: string, ext: string)
    requires head == "" || head[|head| - 1] == '/'
    requires '/' !in base && '/' !in ext
    ensures FileStart(head + base + "." + ext) == |head|
    ensures (head + base + "." + ext)[..|head|] == head
  {
    var tail := base + "." + ext;
    ComponentAfterSeparator(head, tail);
    assert head + tail == head + base + "." + ext;
  }

  /** A folder part (empty or ending in a separator), a base and `.ext`,
      with no separator in base or extension and no dot in the extension,
      have extension `ext` and basename `base`. */
  lemma ExtensionAfterStem(head: string, base: string, ext: string)
    requires head == "" || head[|head| - 1] == '/'
    requires '/' !in base && '.' !in ext && '/' !in ext
    ensures GetExtension(head + base + "." + ext) == ext
    ensures GetBasename(head + base + "." + ext) == base
  {
    var tail := base + "." + ext;
    ComponentAfterSeparator(head, tail);
    assert head + tail == head + base + "." + ext;
    SplitAtLastDot(head + base + "." + ext, base, ext);
  }

  /** The folder part of a formed name: `dir`, followed by a separator
      unless it is empty or already ends with one. */
  function FolderPrefix(dir: string): (r: string)
    ensures r == "" || r[|r| - 1] == '/'
    ensures dir != "" && dir[|dir| - 1] != '/' ==> r == dir + "/"
  {
    if |dir| > 0 && dir[|dir| - 1] != '/' then dir + "/" else dir
  }

  /** `CPLFormFilenameSafe`. A formed name splits back into its parts: with
      no extension its final component is `base` (no dot is added); with one,
      its extension and basename are `ext` and `base`; its folder part is
      `dir` followed by a separator unless `dir` is empty or already ends
      with one; and its directory is `dir` whenever `dir` is non-empty
      without a trailing separator. */
  function FormFilename(dir: string, base: string, ext: string): (r: string)
    ensures '/' !in base && ext == "" ==> Component(r) == base
    ensures '/' !in base && '/' !in ext ==>
              FileStart(r) == |FolderPrefix(dir)| && r[..FileStart(r)] == FolderPrefix(dir)
    ensures '/' !in base && ext != "" && '.' !in ext && '/' !in ext ==>
              GetExtension(r) == ext && GetBasename(r) == base
    ensures '/' !in base && '/' !in ext && dir != "" && dir[|dir| - 1] != '/' ==>
              GetDirname(r) == dir
  {
    var extSep := if ext != "" && ext[0] != '.' then "." else "";
    var head := FolderPrefix(dir);
    var tail := base + extSep + ext;
    assert '/' !in base && '/' !in ext ==>
             Component(head + tail) == tail && FileStart(head + tail) == |head| &&
             (head + tail)[..|head|] == head by {
      if '/' !in base && '/' !in ext {
        ComponentAfterSeparator(head, tail);
      }
    }
    assert '/' !in base && ext != "" && '.' !in ext && '/' !in ext ==>
             GetExtension(head + tail) == ext && GetBasename(head + tail) == base by {
      if '/' !in base && ext != "" && '.' !in ext && '/' !in ext {
        assert tail == base + "." + ext;
        SplitAtLastDot(head + tail, base, ext);
      }
    }
    assert '/' !in base && '/' !in ext && dir != "" && dir[|dir| - 1] != '/' ==>
             GetDirname(head + tail) == dir by {
      if '/' !in base && '/' !in ext && dir != "" && dir[|dir| - 1] != '/' {
        DirnameOfJoin(dir, tail);
      }
    }
    head + tail
  }

  /** Resetting the extension to "" and dropping the dot it leaves gives a
      path that, followed by `.` and the old extension, is the original. */
  lemma ResetExtensionStrips(path: string)
    requires '.' in Component(path)
    ensures var p := ResetExtension(path, "");
            p != "" && p[|p| - 1] == '.' && p[..|p| - 1] + "." + GetExtension(path) == path
  {
    PopDot(Stem(path));
  }

  /** A stem followed by a dot ends in that dot, and popping it gives the
      stem back. */
  lemma PopDot(stem: string)
    ensures var p := stem + "." + "";
            p != "" && p[|p| - 1] == '.' && p[..|p| - 1] == stem
  {
    var p := stem + "." + "";
    assert p == stem + ".";
  }

  /** A path whose text after `head` holds no separator, where `head` is
      empty or ends with one, has that text as its final component. */
  lemma ComponentAfterSeparator(head: string, tail: string)
    requires '/' !in tail
    requires head == "" || head[|head| - 1] == '/'
    ensures FileStart(head + tail) == |head| && Component(head + tail) == tail
    ensures (head + tail)[..|head|] == head
  {
    var f := head + tail;
    forall j | |head| - 1 < j < |f|
      ensures f[j] != '/'
    {
      assert f[j] == tail[j - |head|];
    }
    LastIndexOfUnique(f, '/', |head| - 1);
    assert f[|head|..] == tail;
  }

  /** A final component `base.ext`, with no dot in `ext`, has base `base`
      and extension `ext`. */
  lemma SplitAtLastDot(path: string, base: string, ext: string)
    requires '.' !in ext
    requires Component(path) == base + "." + ext
    ensures GetExtension(path) == ext && GetBasename(path) == base
  {
    var comp := base + "." + ext;
    forall j | |base| < j < |comp|
      ensures comp[j] != '.'
    {
      assert comp[j] == ext[j - |base| - 1];
    }
    LastIndexOfUnique(comp, '.', |base|);
    assert comp[|base| + 1..] == ext;
    assert comp[..|base|] == base;
  }

  /** Below a folder that does not end with a separator, a name without
      separators has that folder as its directory. */
  lemma DirnameOfJoin(dir: string, tail: string)
    requires dir != "" && dir[|dir| - 1] != '/'
    requires '/' !in tail
    ensures Component(dir + "/" + tail) == tail
    ensures GetDirname(dir + "/" + tail) == dir
  {
    ComponentAfterSeparator(dir + "/", tail);
    assert (dir + "/" + tail)[..|dir|] == dir;
  }

  /** Formed names below one folder differ when their bases differ. */
  lemma FormFilenameInjective(dir: string, a: string, b: string)
    requires a != b
    ensures FormFilename(dir, a, "") != FormFilename(dir, b, "")
  {
    var head := FolderPrefix(dir);
    assert FormFilename(dir, a, "") == head + a;
    assert FormFilename(dir, b, "") == head + b;
    assert (head + a)[|head|..] == a;
    assert (head + b)[|head|..] == b;
  }
}
