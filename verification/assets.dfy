/** AssetManager: the file-name surgery that turns an asset path into its
    cache key, and the texture/shader handle caches keyed by it. GL handles
    are whatever the driver returns, so they arrive as parameters. */
module Assets {
  import opened Wrappers
  import opened StdString
  import StdMap

  /** A GL object name (`GLuint`); 0 is the value-initialised handle. */
  type Handle = nat

  /** `assetHandles` (and `textures` in the older header): name to handle. */
  type Handles = map<String, Handle>

  /** `getFileName`, step 1: a path ending in '/' loses that one '/'. */
  function DropTrailingSlash(path: String): (p: String)
    requires |path| > 0
    ensures path[|path| - 1] == '/' ==> path == p + "/"
    ensures path[|path| - 1] != '/' ==> p == path
  {
    if path[|path| - 1] == '/' then path[..|path| - 1] else path
  }

  /** No '/' except possibly the first character. */
  predicate SlashOnlyAtStart(s: seq<char>) {
    forall i :: 0 < i < |s| ==> s[i] != '/'
  }

  /** `getFileName`, step 2: `erase(0, find_last_of('/'))`. With no '/' the
      count is npos and everything goes; otherwise the last '/' and what
      follows it stay. */
  function FromLastSlash(p: String): (r: String)
    ensures '/' !in p ==> r == []
    ensures '/' in p ==> 0 < |r| <= |p| && r[0] == '/' && r == p[|p| - |r|..]
    ensures SlashOnlyAtStart(r)
  {
    var e := Erase(p, 0, FindLastOf(p, '/'));
    e.value
  }

  /** `getFileName(path, removeExtension)`; the header's one-argument version
      always removes the extension. Step 3, `erase(find_last_of('.'))`, throws
      std::out_of_range when no '.' is left, since npos is past the end. */
  function FileName(path: String, removeExtension: bool): (r: Result<String>)
    requires |path| > 0
    ensures r.Failure? <==> removeExtension && '.' !in FromLastSlash(DropTrailingSlash(path))
    ensures r.Success? ==> |r.value| <= |path| && SlashOnlyAtStart(r.value)
  {
    var seg := FromLastSlash(DropTrailingSlash(path));
    if removeExtension then
      EraseFromLastDot(seg);
      Erase(seg, FindLastOf(seg, '.'), Npos)
    else Success(seg)
  }

  /** `erase(find_last_of('.'))` keeps what precedes the last '.', and throws
      when there is none. */
  lemma EraseFromLastDot(seg: String)
    requires SlashOnlyAtStart(seg)
    ensures var e := Erase(seg, FindLastOf(seg, '.'), Npos);
            && (e.Failure? <==> '.' !in seg)
            && (e.Success? ==> |e.value| < |seg| && SlashOnlyAtStart(e.value))
  {
    match LastIndexOf(seg, '.')
    case None =>
    case Some(i) =>
      EraseToEnd(seg, i);
      assert forall j :: 0 < j < i ==> seg[..i][j] == seg[j];
  }

  /** The last '/' of `dir/leaf` is the one before the leaf. */
  lemma FromLastSlashOfJoin(dir: String, leaf: String)
    requires '/' !in leaf && |dir| + |leaf| + 1 < Npos
    ensures FromLastSlash(dir + "/" + leaf) == "/" + leaf
  {
    var p: String := dir + "/" + leaf;
    LastIndexOfJoin(dir, '/', leaf);
    assert p[|dir|..] == "/" + leaf;
  }

  /** A single trailing '/' does not change the key. */
  lemma TrailingSlashIgnored(path: String, path': String, removeExtension: bool)
    requires |path| > 0 && path[|path| - 1] != '/' && path' == path + "/"
    ensures FileName(path', removeExtension) == FileName(path, removeExtension)
  {
    assert DropTrailingSlash(path') == path;
  }

  /** The key of `dir/leaf` is "/leaf" when the leaf has no '/'. */
  lemma SegmentOfJoinedPath(dir: String, leaf: String, path: String)
    requires '/' !in leaf && |leaf| > 0 && path == dir + "/" + leaf
    ensures FileName(path, false) == Success("/" + leaf)
  {
    assert path[|path| - 1] == leaf[|leaf| - 1];
    assert DropTrailingSlash(path) == path;
    FromLastSlashOfJoin(dir, leaf);
  }

  /** The key of `dir/name.ext` is "/name": the extension after the last '.'
      goes, the directory before the last '/' goes, and dots inside the name
      stay. */
  lemma StemOfJoinedPath(dir: String, name: String, ext: String, path: String)
    requires '/' !in name && '/' !in ext && '.' !in ext
    requires path == dir + "/" + name + "." + ext
    ensures FileName(path, true) == Success("/" + name)
  {
    JoinShapes(dir, name, ext, path);
    StemFromParts(path, dir, name + "." + ext, "/" + name, ext);
  }

  lemma JoinShapes(dir: String, name: String, ext: String, path: String)
    requires path == dir + "/" + name + "." + ext
    requires '/' !in name && '/' !in ext
    ensures |name + "." + ext| > 0 && '/' !in name + "." + ext
    ensures path == dir + "/" + (name + "." + ext)
    ensures "/" + (name + "." + ext) == ("/" + name) + "." + ext
  {
  }

  lemma StemFromParts(path: String, dir: String, leaf: String, stem: String, ext: String)
    requires path == dir + "/" + leaf && '/' !in leaf && |leaf| > 0
    requires "/" + leaf == stem + "." + ext && '.' !in ext
    ensures FileName(path, true) == Success(stem)
  {
    SegmentOfJoinedPath(dir, leaf, path);
    StripsLastExtension(path, "/" + leaf, stem, ext);
  }

  /** With the extension removed, the key is the segment cut at its last '.'. */
  lemma StripsLastExtension(path: String, seg: String, stem: String, ext: String)
    requires |path| > 0 && FileName(path, false) == Success(seg)
    requires '.' !in ext && seg == stem + "." + ext
    ensures FileName(path, true) == Success(stem)
  {
    FileNameSteps(path);
    CutAtLastDot(seg, stem, ext);
  }

  lemma CutAtLastDot(seg: String, stem: String, ext: String)
    requires '.' !in ext && seg == stem + "." + ext
    ensures Erase(seg, FindLastOf(seg, '.'), Npos) == Success(stem)
  {
    LastIndexOfJoin(stem, '.', ext);
    EraseToEnd(seg, |stem|);
    assert seg[..|stem|] == stem;
  }

  /** Removing the extension works on the segment the other mode returns. */
  lemma FileNameSteps(path: String)
    requires |path| > 0
    ensures FileName(path, false).Success?
    ensures var seg := FileName(path, false).value;
            FileName(path, true) == Erase(seg, FindLastOf(seg, '.'), Npos)
  {
  }

  /** A path with no '/' at all has the empty key, and asking to strip its
      extension throws; the same goes for the path "/". */
  lemma NoDirectoryThrows(path: String)
    requires |path| > 0 && ('/' !in path || path == "/")
    ensures FileName(path, false) == Success([])
    ensures FileName(path, true) == Failure(OutOfRange)
  {
    if path == "/" {
      assert DropTrailingSlash(path) == [];
    } else {
      assert DropTrailingSlash(path) == path;
    }
  }

  /** `getAssetHandle(name)` / `getTextureId(name)`: the cached handle, or 0,
      which `operator[]` also stores. */
  function GetAssetHandle(h: Handles, name: String): (r: (Handles, Handle))
    ensures name in h ==> r == (h, h[name])
    ensures name !in h ==> r.1 == 0 && r.0 == h[name := 0]
  {
    StdMap.Subscript(h, name, 0)
  }

  /** `loadTexture(path)`: `texId` is the handle glGenTextures would produce.
      A key already present leaves the cache alone; a path without a '.' in
      its last segment throws before the cache is touched. */
  function LoadTexture(h: Handles, path: String, texId: Handle): (r: Result<Handles>)
    requires |path| > 0
    ensures r.Failure? <==> FileName(path, true).Failure?
    ensures r.Success? ==> var name := FileName(path, true).value;
            && (forall k :: k in r.value <==> k in h || k == name)
            && r.value[name] == (if name in h then h[name] else texId)
            && forall k :: k in h && k != name ==> r.value[k] == h[k]
  {
    match FileName(path, true)
    case Failure(e) => Failure(e)
    case Success(name) =>
      if name in h then Success(h) else Success(StdMap.Insert(h, name, texId))
  }

  /** Loading the same path again changes nothing, whatever handle the second
      call would have generated. */
  lemma LoadTextureIdempotent(h: Handles, path: String, t: Handle, t': Handle)
    requires |path| > 0 && LoadTexture(h, path, t).Success?
    ensures LoadTexture(LoadTexture(h, path, t).value, path, t') == LoadTexture(h, path, t)
  {
  }

  /** Two paths with the same key share one texture: the second load is a
      no-op, and both keys then look up the first handle. */
  lemma SameKeySharesTexture(h: Handles, path: String, path': String, t: Handle, t': Handle)
    requires |path| > 0 && |path'| > 0
    requires FileName(path, true).Success? && FileName(path, true) == FileName(path', true)
    ensures var h1 := LoadTexture(h, path, t).value;
            && LoadTexture(h1, path', t') == Success(h1)
            && GetAssetHandle(h1, FileName(path', true).value).1 == (if FileName(path, true).value in h then h[FileName(path, true).value] else t)
  {
  }

  /** `loadShader(handleName, ...)`: `program` is the linked program's name;
      the insert never replaces an existing handle. */
  function LoadShader(h: Handles, handleName: String, program: Handle): (r: Handles)
    ensures r.Keys == h.Keys + {handleName}
    ensures handleName in h ==> r == h
    ensures handleName !in h ==> r[handleName] == program && forall k :: k in h ==> r[k] == h[k]
  {
    StdMap.Insert(h, handleName, program)
  }

  /** A shader loaded under a name is what getAssetHandle returns for that
      name, unless the name was taken first. */
  lemma ShaderLookup(h: Handles, handleName: String, program: Handle)
    ensures GetAssetHandle(LoadShader(h, handleName, program), handleName).1
         == (if handleName in h then h[handleName] else program)
  {
  }
}
