/**
 * What the two documentation indexers share: archive entries, the records
 * they keep, Python's `str.endswith` and `str.split(sep, 1)`, and the
 * specification of the entry loop, parameterised by how a record is named.
 */
module MdArchive {

  import Seqs

  /** An archive member: its path inside the archive and its decoded text. */
  datatype ZipEntry = ZipEntry(name: string, content: string)

  /** A record handed to the search index. */
  datatype MdFile = MdFile(filename: string, content: string)

  predicate EndsWith(s: string, suffix: string) {
    |suffix| <= |s| && s[|s| - |suffix|..] == suffix
  }

  /** `name.endswith(('.md', '.mdx'))`. */
  function IsMarkdownName(name: string): (r: bool)
    ensures r <==> (|name| >= 3 && name[|name| - 3..] == ".md") || (|name| >= 4 && name[|name| - 4..] == ".mdx")
  {
    EndsWith(name, ".md") || EndsWith(name, ".mdx")
  }

  predicate IsMarkdownEntry(e: ZipEntry) {
    IsMarkdownName(e.name)
  }

  /** Python's `s.split(sep, 1)`: the whole string when `sep` does not occur,
      otherwise the parts before and after its first occurrence. */
  function SplitOnce(s: string, sep: char): (parts: seq<string>)
    ensures |parts| == 1 || |parts| == 2
    ensures |parts| == 1 <==> sep !in s
    ensures |parts| == 1 ==> parts[0] == s
    ensures |parts| == 2 ==> s == parts[0] + [sep] + parts[1] && sep !in parts[0]
  {
    if s == [] then [[]]
    else if s[0] == sep then [[], s[1..]]
    else
      var p := SplitOnce(s[1..], sep);
      [[s[0]] + p[0]] + p[1..]
  }

  /** `r` is what follows the first `/` of `name`. */
  ghost predicate AfterFirstSlash(name: string, r: string) {
    exists k :: 0 <= k < |name| && name[k] == '/' && '/' !in name[..k] && r == name[k + 1..]
  }

  /** There is only one first `/`, so at most one string follows it. */
  lemma AfterFirstSlashUnique(name: string, r1: string, r2: string)
    requires AfterFirstSlash(name, r1) && AfterFirstSlash(name, r2)
    ensures r1 == r2
  {
    var k1 :| 0 <= k1 < |name| && name[k1] == '/' && '/' !in name[..k1] && r1 == name[k1 + 1..];
    var k2 :| 0 <= k2 < |name| && name[k2] == '/' && '/' !in name[..k2] && r2 == name[k2 + 1..];
    assert k1 == k2;
  }

  /** The records the entry loop appends, in archive order, each named by `strip`. */
  function Collect(entries: seq<ZipEntry>, strip: string -> string): (r: seq<MdFile>)
    ensures |r| <= |entries|
    decreases |entries|
  {
    if entries == [] then []
    else
      var last := entries[|entries| - 1];
      Collect(entries[..|entries| - 1], strip)
        + (if IsMarkdownName(last.name) then [MdFile(strip(last.name), last.content)] else [])
  }

  /** One record per markdown entry, in archive order: the records are the
      markdown entries (a subsequence of the archive) renamed one by one. */
  lemma {:induction false} CollectIsFilterThenRename(entries: seq<ZipEntry>, strip: string -> string)
    ensures var md := Seqs.Filter(entries, IsMarkdownEntry);
            var r := Collect(entries, strip);
            && |r| == |md|
            && (forall k :: 0 <= k < |r| ==> r[k] == MdFile(strip(md[k].name), md[k].content))
    decreases |entries|
  {
    if entries != [] {
      var init := entries[..|entries| - 1];
      var last := entries[|entries| - 1];
      CollectIsFilterThenRename(init, strip);
      assert entries == init + [last];
      Seqs.FilterAppend(init, [last], IsMarkdownEntry);
      assert Seqs.Filter([last], IsMarkdownEntry) == (if IsMarkdownEntry(last) then [last] else []) + Seqs.Filter([], IsMarkdownEntry);
    }
  }

  /** The markdown entries keep their archive order, and only markdown entries are kept. */
  lemma MarkdownEntriesInOrder(entries: seq<ZipEntry>)
    ensures Seqs.IsSubsequence(Seqs.Filter(entries, IsMarkdownEntry), entries)
    ensures forall e :: e in Seqs.Filter(entries, IsMarkdownEntry) <==> e in entries && IsMarkdownName(e.name)
  {
    Seqs.FilterIsSubsequence(entries, IsMarkdownEntry);
  }

  /** Two naming rules that agree on every name give the same records. */
  lemma {:induction false} CollectAgrees(entries: seq<ZipEntry>, f: string -> string, g: string -> string)
    requires forall name :: f(name) == g(name)
    ensures Collect(entries, f) == Collect(entries, g)
    decreases |entries|
  {
    if entries != [] {
      CollectAgrees(entries[..|entries| - 1], f, g);
    }
  }
}
