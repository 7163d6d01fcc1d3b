/** The indexer of the search tool: the same collection, with the stripping
    rule written on the parts of the split instead of a membership test. */
module Search {

  import opened MdArchive
  import ExtractMdFiles

  /** `parts = name.split('/', 1)`: the second part when there are two, else the name. */
  function StripTopDir(name: string): (r: string)
    ensures '/' in name ==> AfterFirstSlash(name, r)
    ensures '/' !in name ==> r == name
  {
    var parts := SplitOnce(name, '/');
    if |parts| == 2 then
      assert name[|parts[0]|] == '/' && name[..|parts[0]|] == parts[0] && parts[1] == name[|parts[0]| + 1..];
      parts[1]
    else
      name
  }

  /** Both scripts name every entry alike. */
  lemma StripAgrees(name: string)
    ensures StripTopDir(name) == ExtractMdFiles.StripTopDir(name)
  {
    if '/' in name {
      AfterFirstSlashUnique(name, StripTopDir(name), ExtractMdFiles.StripTopDir(name));
    }
  }

  method GetMdFilesFromZip(entries: seq<ZipEntry>) returns (mdFiles: seq<MdFile>)
    ensures mdFiles == Collect(entries, StripTopDir)
  {
    mdFiles := [];
    for i := 0 to |entries|
      invariant mdFiles == Collect(entries[..i], StripTopDir)
    {
      var info := entries[i];
      if IsMarkdownName(info.name) {
        var parts := SplitOnce(info.name, '/');
        var filename;
        if |parts| == 2 {
          filename := parts[1];
        } else {
          filename := info.name;
        }
        var content := info.content;
        mdFiles := mdFiles + [MdFile(filename, content)];
      }
      assert entries[..i + 1][..i] == entries[..i];
    }
    assert entries[..|entries|] == entries;
  }

  /** Both scripts extract the same records from every archive. */
  lemma SameRecordsAsExtract(entries: seq<ZipEntry>)
    ensures Collect(entries, StripTopDir) == Collect(entries, ExtractMdFiles.StripTopDir)
  {
    forall name ensures StripTopDir(name) == ExtractMdFiles.StripTopDir(name) {
      StripAgrees(name);
    }
    CollectAgrees(entries, StripTopDir, ExtractMdFiles.StripTopDir);
  }
}
