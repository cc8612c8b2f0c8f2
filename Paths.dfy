/** The path helpers that derive an index file's name from the text file's
    path: split off the directory, drop the extension, append ".idx". */
module Paths {

  /** `std::string::find_last_of`: the position of the last character of
      `s` that is in `chars`, or -1 (`npos`) when there is none. */
  function FindLastOf(s: string, chars: set<char>): (r: int)
    ensures -1 <= r < |s|
    ensures r >= 0 ==> s[r] in chars
    ensures forall k :: r < k < |s| ==> s[k] !in chars
  {
    if s == [] then -1
    else if s[|s| - 1] in chars then |s| - 1
    else FindLastOf(s[..|s| - 1], chars)
  }

  /** The separators `SplitFilename` looks for: slash and backslash. */
  const Separators: set<char> := {'/', '\\'}

  /** `SplitFilename` (src/utils.cpp:21-26): the file name after the last
      separator, and the directory before it with a "/" appended (the empty
      directory when there is no separator). */
  function SplitFilename(pathname: string): (r: (string, string))
  {
    var index := FindLastOf(pathname, Separators);
    if index == -1 then (pathname, "")
    else (pathname[index + 1..], pathname[..index] + "/")
  }

  /** `GetBasenameFromFilename` (src/utils.cpp:28-31): everything before the
      last '.', or the whole name when it has none. */
  function GetBasenameFromFilename(filename: string): (r: string)
  {
    var index := FindLastOf(filename, {'.'});
    if index == -1 then filename else filename[..index]
  }

  /** The index path of `WriteIndexFile` (src/utils.cpp:240-242): directory,
      base name and the ".idx" extension. */
  function IndexPath(pathname: string): (r: string)
  {
    var (filename, dir) := SplitFilename(pathname);
    dir + GetBasenameFromFilename(filename) + ".idx"
  }

  // ---------------------------------------------------------------------
  // Properties

  /** Without a separator the file name is the whole path and the directory
      is empty; with one, the file name holds no separator, the directory
      ends in "/", and the path is the directory (its "/" standing for the
      original separator) followed by the file name. */
  lemma SplitFilenameParts(pathname: string)
    ensures var (filename, dir) := SplitFilename(pathname);
      && (forall k :: 0 <= k < |filename| ==> filename[k] !in Separators)
      && ((forall k :: 0 <= k < |pathname| ==> pathname[k] !in Separators) <==> dir == "")
      && (dir == "" ==> filename == pathname)
      && (dir != "" ==>
            dir[|dir| - 1] == '/'
            && pathname[|dir| - 1] in Separators
            && pathname == dir[..|dir| - 1] + [pathname[|dir| - 1]] + filename)
  {
    var index := FindLastOf(pathname, Separators);
    if index != -1 {
      var (filename, dir) := SplitFilename(pathname);
      assert pathname == pathname[..index] + [pathname[index]] + pathname[index + 1..];
      assert forall k :: 0 <= k < |filename| ==> filename[k] == pathname[index + 1 + k];
      assert dir[..|dir| - 1] == pathname[..index];
    }
  }

  /** On a path whose separators are all '/', directory and file name
      concatenate back to the path. */
  lemma SplitFilenameJoins(pathname: string)
    requires forall k :: 0 <= k < |pathname| ==> pathname[k] != '\\'
    ensures SplitFilename(pathname).1 + SplitFilename(pathname).0 == pathname
  {
    SplitFilenameParts(pathname);
  }

  /** The base name is a prefix of the name. A name with no '.' is its own
      base name; otherwise the name is the base name, a '.', and an
      extension without '.'. */
  lemma BasenameParts(filename: string)
    ensures var base := GetBasenameFromFilename(filename);
      && base <= filename
      && ((forall k :: 0 <= k < |filename| ==> filename[k] != '.') <==> base == filename)
      && (base != filename ==>
            exists ext :: filename == base + "." + ext && forall k :: 0 <= k < |ext| ==> ext[k] != '.')
  {
    var index := FindLastOf(filename, {'.'});
    if index != -1 {
      var base := filename[..index];
      var ext := filename[index + 1..];
      assert filename == base + "." + ext;
      assert forall k :: 0 <= k < |ext| ==> ext[k] == filename[index + 1 + k];
    }
  }

  /** The index path keeps the directory, ends in ".idx", and holds the base
      name of the file name in between. */
  lemma IndexPathParts(pathname: string)
    ensures var (filename, dir) := SplitFilename(pathname);
      var path := IndexPath(pathname);
      && dir <= path
      && path[|dir|..|path| - 4] == GetBasenameFromFilename(filename)
      && path[|path| - 4..] == ".idx"
  {
    var (filename, dir) := SplitFilename(pathname);
    var base := GetBasenameFromFilename(filename);
    assert IndexPath(pathname) == dir + base + ".idx";
  }

  /** `FindLastOf` is the only position meeting its contract. */
  lemma LastAt(s: string, chars: set<char>, i: int)
    requires -1 <= i < |s| && (i >= 0 ==> s[i] in chars)
    requires forall k :: i < k < |s| ==> s[k] !in chars
    ensures FindLastOf(s, chars) == i
  {
  }

  /** Examples: "docs/a.txt" gives "docs/a.idx", a backslash becomes "/",
      "a.b.txt" keeps "a.b", and a name without extension gets ".idx". */
  lemma IndexPathExamples()
    ensures IndexPath("docs/a.txt") == "docs/a.idx"
    ensures IndexPath("docs\\a.txt") == "docs/a.idx"
    ensures IndexPath("a.b.txt") == "a.b.idx"
    ensures IndexPath("notes") == "notes.idx"
  {
    LastAt("docs/a.txt", Separators, 4);
    LastAt("a.txt", {'.'}, 1);
    LastAt("docs\\a.txt", Separators, 4);
    LastAt("a.b.txt", Separators, -1);
    LastAt("a.b.txt", {'.'}, 3);
    LastAt("notes", Separators, -1);
    LastAt("notes", {'.'}, -1);
  }
}
