/** The standalone indexer script: collects the markdown files of an archive. */
module ExtractMdFiles {

  import opened MdArchive

  /** Drops everything up to and including the first `/`, when there is one. */
  function StripTopDir(name: string): (r: string)
    ensures '/' in name ==> AfterFirstSlash(name, r)
    ensures '/' !in name ==> r == name
    ensures exists k :: 0 <= k <= |name| && r == name[k..]
  {
    if '/' in name then
      var parts := SplitOnce(name, '/');
      assert name[|parts[0]|] == '/' && name[..|parts[0]|] == parts[0] && parts[1] == name[|parts[0]| + 1..];
      parts[1]
    else
      assert name == name[0..];
      name
  }

  /** The loop over the archive's members: keep `.md`/`.mdx` entries, strip
      the leading directory when the name has one, append a record. */
  method GetMdFilesFromZip(entries: seq<ZipEntry>) returns (mdFiles: seq<MdFile>)
    ensures mdFiles == Collect(entries, StripTopDir)
  {
    mdFiles := [];
    for i := 0 to |entries|
      invariant mdFiles == Collect(entries[..i], StripTopDir)
    {
      var info := entries[i];
      if IsMarkdownName(info.name) {
        var filename := info.name;
        if '/' in filename {
          filename := SplitOnce(filename, '/')[1];
        }
        var content := info.content;
        mdFiles := mdFiles + [MdFile(filename, content)];
      }
      assert entries[..i + 1][..i] == entries[..i];
    }
    assert entries[..|entries|] == entries;
  }
}
