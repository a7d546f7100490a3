/**
 * Where the search index is fetched from (assets/js/search.js:78-81): the
 * configured assets directory, defaulting to "./", with one trailing
 * "assets/" removed, followed by "search-index.json".
 */
module IndexPath {
  import opened Wrappers
  import opened Text

  const AssetsDir: string := "assets/"
  const IndexFile: string := "search-index.json"
  const DefaultAssetsPath: string := "./"

  /**
   * `window.DOCS_CONFIG?.assetsPath || './'`: a missing configuration, a
   * missing path and the empty path (which is falsy) all give "./".
   */
  function AssetsPath(configured: Option<string>): (r: string)
    ensures r != []
    ensures configured.Some? && configured.value != [] ==> r == configured.value
    ensures configured.None? || configured.value == [] ==> r == DefaultAssetsPath
  {
    match configured
    case Some(p) => if p != [] then p else DefaultAssetsPath
    case None => DefaultAssetsPath
  }

  /** The last seven characters of `p` spell "assets/", compared character by character. */
  predicate HasAssetsSuffix(p: string)
  {
    var n := |p|;
    n >= 7 && p[n - 7] == 'a' && p[n - 6] == 's' && p[n - 5] == 's' && p[n - 4] == 'e' &&
    p[n - 3] == 't' && p[n - 2] == 's' && p[n - 1] == '/'
  }

  /** The character-by-character test is the suffix test. */
  lemma HasAssetsSuffixIff(p: string)
    ensures HasAssetsSuffix(p) <==> EndsWith(p, AssetsDir)
  {
    if HasAssetsSuffix(p) {
      assert p[|p| - 7..] == AssetsDir;
    }
    if EndsWith(p, AssetsDir) {
      var t := p[|p| - 7..];
      assert t[0] == 'a' && t[1] == 's' && t[2] == 's' && t[3] == 'e' && t[4] == 't' && t[5] == 's' && t[6] == '/';
    }
  }

  /**
   * `assetsPath.replace(/assets\/$/, '')`: the pattern is anchored at the end
   * of the string (no multiline flag), so at most one "assets/" is removed,
   * and only from the very end.
   */
  function RootPath(assetsPath: string): (r: string)
    ensures r <= assetsPath
    ensures EndsWith(assetsPath, AssetsDir) ==> r + AssetsDir == assetsPath
    ensures !EndsWith(assetsPath, AssetsDir) ==> r == assetsPath
  {
    HasAssetsSuffixIff(assetsPath);
    if HasAssetsSuffix(assetsPath) then assetsPath[..|assetsPath| - 7] else assetsPath
  }

  /** `rootPath + 'search-index.json'`. */
  function SearchIndexPath(assetsPath: string): (r: string)
    ensures EndsWith(r, IndexFile)
    ensures EndsWith(assetsPath, AssetsDir) ==> r == assetsPath[..|assetsPath| - |AssetsDir|] + IndexFile
    ensures !EndsWith(assetsPath, AssetsDir) ==> r == assetsPath + IndexFile
  {
    var root := RootPath(assetsPath);
    assert (root + IndexFile)[|root|..] == IndexFile;
    root + IndexFile
  }

  /** Appending "assets/" to a directory and deriving the index path lands in that directory. */
  lemma RootPathOfAssetsDir(dir: string)
    ensures RootPath(dir + AssetsDir) == dir
    ensures SearchIndexPath(dir + AssetsDir) == dir + IndexFile
  {
  }

  /**
   * Only one trailing "assets/" goes: a path ending in "assets/assets/"
   * keeps the first of the two.
   */
  lemma OnlyOneAssetsDirRemoved(dir: string)
    ensures RootPath(dir + AssetsDir + AssetsDir) == dir + AssetsDir
  {
  }

  /** With no configuration the index is fetched from "./search-index.json". */
  lemma DefaultIndexPath()
    ensures SearchIndexPath(AssetsPath(None)) == DefaultAssetsPath + IndexFile
  {
  }
}
