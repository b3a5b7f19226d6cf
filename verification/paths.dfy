/** The two `std::path` operations the core relies on, for Unix paths held
    as text: `Path::join` and `Path::file_stem` of a directory entry's name,
    plus the `{id}.jar` naming of server artifacts. */
module Paths {
  import opened Wrappers

  /** `dir.join(name)`: an absolute `name` replaces `dir`; otherwise a `/`
      is inserted unless `dir` is empty or already ends in one. */
  function Join(dir: string, name: string): string
  {
    if |name| > 0 && name[0] == '/' then name
    else if |dir| == 0 || dir[|dir| - 1] == '/' then dir + name
    else dir + "/" + name
  }

  /** Position of the last occurrence of `c` in `s`. */
  function LastIndexOf(s: string, c: char): (r: Option<nat>)
    ensures r.Some? ==> r.value < |s| && s[r.value] == c
    ensures r.Some? ==> forall j :: r.value < j < |s| ==> s[j] != c
    ensures r.None? <==> c !in s
  {
    if |s| == 0 then None
    else if s[|s| - 1] == c then Some(|s| - 1)
    else
      var r := LastIndexOf(s[..|s| - 1], c);
      assert forall j :: 0 <= j < |s| - 1 ==> s[..|s| - 1][j] == s[j];
      r
  }

  /** `file_stem` of a file name: everything before the last `.`, except that
      a name without a dot, a name whose only dot is its first character, and
      `..` are their own stem. */
  function FileStem(name: string): (stem: string)
    ensures stem <= name
    ensures |stem| == 0 ==> |name| == 0
  {
    if name == ".." then name
    else
      match LastIndexOf(name, '.')
      case None => name
      case Some(i) => if i == 0 then name else name[..i]
  }

  /** The file name a server artifact for version `id` is stored under. */
  function JarFileName(id: string): string
  {
    id + ".jar"
  }

  /** `versions_dir.join(format!("{}.jar", id))`: the directory, a `/` if
      needed, then `{id}.jar`; an id starting with `/` is an absolute path
      and replaces the directory. */
  function JarPath(dir: string, id: string): (p: string)
    ensures |p| >= |JarFileName(id)| && p[|p| - |JarFileName(id)|..] == JarFileName(id)
    ensures id != "" && id[0] == '/' ==> p == JarFileName(id)
    ensures id == "" || id[0] != '/' ==> p == dir + JarFileName(id) || p == dir + "/" + JarFileName(id)
    ensures id == "" || id[0] != '/' ==> (p == dir + JarFileName(id) <==> |dir| == 0 || dir[|dir| - 1] == '/')
  {
    Join(dir, JarFileName(id))
  }

  /** The stem of an artifact's file name is the version id it was stored
      under, so the local scan reads back what the download wrote. */
  lemma StemOfJarFileName(id: string)
    requires id != "" && '/' !in id
    ensures FileStem(JarFileName(id)) == id
  {
    var name := JarFileName(id);
    assert name[|id|] == '.' && name[|id| + 1..] == "jar";
    assert name != "..";
    assert LastIndexOf(name, '.') == Some(|id|);
    assert name[..|id|] == id;
  }
}
