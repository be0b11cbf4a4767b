/**
 Which files `zip_cookies_folder` puts into the archive and under which
 names. The file system is an abstract map from paths to files and
 directories; the compression and the zip container are not modelled.
 */
module Archive {

  /** A path as its components; the last one is the path's `name`. */
  type Path = seq<string>

  /** What a path refers to: a regular file, or a directory listing its children's names in `iterdir` order. */
  datatype Node = File | Dir(children: seq<string>)

  type FileSystem = map<Path, Node>

  /** The value a folder name maps to: one path, a list of paths, or anything else. */
  datatype Source = OnePath(path: Path) | PathList(paths: seq<Path>) | Other

  /** One archive member: the folder name it is filed under and the file it is read from. */
  datatype ArchiveEntry = ArchiveEntry(folder: string, source: Path)

  function Name(p: Path): string
  {
    if p == [] then "" else p[|p| - 1]
  }

  predicate IsFile(fs: FileSystem, p: Path)
  {
    p in fs && fs[p].File?
  }

  predicate IsDir(fs: FileSystem, p: Path)
  {
    p in fs && fs[p].Dir?
  }

  /**
   `os.path.join(folder, name)` with POSIX separators: an absolute `name`
   replaces the folder; otherwise a `/` is inserted unless the folder is
   empty or already ends with one.
   */
  function Join(folder: string, name: string): string
  {
    if |name| > 0 && name[0] == '/' then name
    else if folder == [] || folder[|folder| - 1] == '/' then folder + name
    else folder + "/" + name
  }

  /**
   A joined name ends with the file name. An absolute file name is the
   whole result. A relative one follows the folder name, separated from it
   by exactly one `/` when the folder name is non-empty and does not
   already end with one, and by nothing otherwise.
   */
  lemma JoinShape(folder: string, name: string)
    ensures var r := Join(folder, name);
            |r| >= |name| && r[|r| - |name|..] == name
    ensures var r := Join(folder, name);
            |name| > 0 && name[0] == '/' ==> |r| == |name|
    ensures var r := Join(folder, name);
            !(|name| > 0 && name[0] == '/') ==> |r| >= |folder| && r[..|folder|] == folder
    ensures var r := Join(folder, name);
            !(|name| > 0 && name[0] == '/') && (folder == [] || folder[|folder| - 1] == '/') ==>
              |r| == |folder| + |name|
    ensures var r := Join(folder, name);
            !(|name| > 0 && name[0] == '/') && folder != [] && folder[|folder| - 1] != '/' ==>
              |r| == |folder| + 1 + |name| && r[|folder|] == '/'
  {
    var r := Join(folder, name);
    if !(|name| > 0 && name[0] == '/') && folder != [] && folder[|folder| - 1] != '/' {
      assert r == folder + "/" + name;
      assert r[|r| - |name|..] == name;
    }
  }

  /** The member's name inside the archive, `arcname = os.path.join(folder_name, file_path.name)`. */
  function Arcname(e: ArchiveEntry): string
  {
    Join(e.folder, Name(e.source))
  }

  /** The children of `dir`, among `names`, that are files, in listing order. */
  function ChildFiles(fs: FileSystem, dir: Path, names: seq<string>): seq<Path>
  {
    if names == [] then []
    else
      var child := dir + [names[|names| - 1]];
      ChildFiles(fs, dir, names[..|names| - 1]) + (if IsFile(fs, child) then [child] else [])
  }

  /** The files one path contributes: a directory its direct file children, a file itself, anything else nothing. */
  function PathFiles(fs: FileSystem, p: Path): seq<Path>
  {
    if IsDir(fs, p) then ChildFiles(fs, p, fs[p].children)
    else if IsFile(fs, p) then [p]
    else []
  }

  function SourcePaths(v: Source): seq<Path>
  {
    match v
    case OnePath(p) => [p]
    case PathList(ps) => ps
    case Other => []
  }

  /** The files a list of paths contributes, path by path. */
  function SelectFiles(fs: FileSystem, paths: seq<Path>): seq<Path>
  {
    if paths == [] then []
    else SelectFiles(fs, paths[..|paths| - 1]) + PathFiles(fs, paths[|paths| - 1])
  }

  /** Each file stored under `folder/<its name>`. */
  function Named(folder: string, files: seq<Path>): seq<ArchiveEntry>
  {
    if files == [] then []
    else
      var last := files[|files| - 1];
      Named(folder, files[..|files| - 1]) + [ArchiveEntry(folder, last)]
  }

  /** The archive members for a source map given as its (folder name, value) items in order. */
  function Entries(fs: FileSystem, sources: seq<(string, Source)>): seq<ArchiveEntry>
  {
    if sources == [] then []
    else
      var item := sources[|sources| - 1];
      Entries(fs, sources[..|sources| - 1]) + Named(item.0, SelectFiles(fs, SourcePaths(item.1)))
  }

  lemma {:induction false} NamedAppend(folder: string, a: seq<Path>, b: seq<Path>)
    ensures Named(folder, a + b) == Named(folder, a) + Named(folder, b)
  {
    if b != [] {
      var init := b[..|b| - 1];
      assert (a + b)[..|a + b| - 1] == a + init;
      NamedAppend(folder, a, init);
    } else {
      assert a + b == a;
    }
  }

  /** The members one path contributes (the `is_dir` / `is_file` branches). */
  method AddPath(fs: FileSystem, folder: string, p: Path) returns (added: seq<ArchiveEntry>)
    ensures added == Named(folder, PathFiles(fs, p))
  {
    added := [];
    if IsDir(fs, p) {
      var names := fs[p].children;
      for m := 0 to |names|
        invariant added == Named(folder, ChildFiles(fs, p, names[..m]))
      {
        assert names[..m + 1][..m] == names[..m];
        var child := p + [names[m]];
        ghost var prev := ChildFiles(fs, p, names[..m]);
        if IsFile(fs, child) {
          assert ChildFiles(fs, p, names[..m + 1]) == prev + [child];
          assert (prev + [child])[..|prev|] == prev;
          added := added + [ArchiveEntry(folder, child)];
        } else {
          assert ChildFiles(fs, p, names[..m + 1]) == prev;
        }
      }
      assert names[..|names|] == names;
    } else if IsFile(fs, p) {
      added := [ArchiveEntry(folder, p)];
    }
  }

  /** One more path of a list adds exactly that path's members after the earlier ones. */
  lemma SelectFilesStep(fs: FileSystem, folder: string, paths: seq<Path>, m: nat)
    requires m < |paths|
    ensures Named(folder, SelectFiles(fs, paths[..m + 1])) ==
              Named(folder, SelectFiles(fs, paths[..m])) + Named(folder, PathFiles(fs, paths[m]))
  {
    assert paths[..m + 1][..m] == paths[..m];
    NamedAppend(folder, SelectFiles(fs, paths[..m]), PathFiles(fs, paths[m]));
  }

  /** The members each path of a list contributes, in list order (the `list` branch). */
  method AddPaths(fs: FileSystem, folder: string, paths: seq<Path>) returns (added: seq<ArchiveEntry>)
    ensures added == Named(folder, SelectFiles(fs, paths))
  {
    added := [];
    for m := 0 to |paths|
      invariant added == Named(folder, SelectFiles(fs, paths[..m]))
    {
      SelectFilesStep(fs, folder, paths, m);
      var more := AddPath(fs, folder, paths[m]);
      added := added + more;
    }
    assert paths[..|paths|] == paths;
  }

  /** One more item of the source map adds exactly its members after the earlier ones. */
  lemma EntriesStep(fs: FileSystem, sources: seq<(string, Source)>, k: nat)
    requires k < |sources|
    ensures Entries(fs, sources[..k + 1]) ==
              Entries(fs, sources[..k]) + Named(sources[k].0, SelectFiles(fs, SourcePaths(sources[k].1)))
  {
    assert sources[..k + 1][..k] == sources[..k];
  }

  /** A single path selects what that path contributes. */
  lemma SelectOne(fs: FileSystem, p: Path)
    ensures SelectFiles(fs, [p]) == PathFiles(fs, p)
  {
    assert [p][..0] == [];
  }

  /**
   `zip_cookies_folder`, entry selection: for each folder name in order, a
   single path or each path of a list contributes its files; any other
   value contributes nothing. The members written are exactly `Entries`.
   */
  method ZipCookiesFolder(fs: FileSystem, sources: seq<(string, Source)>) returns (entries: seq<ArchiveEntry>)
    ensures entries == Entries(fs, sources)
  {
    entries := [];
    for k := 0 to |sources|
      invariant entries == Entries(fs, sources[..k])
    {
      EntriesStep(fs, sources, k);
      var folder, value := sources[k].0, sources[k].1;
      var added: seq<ArchiveEntry>;
      match value {
        case OnePath(p) =>
          SelectOne(fs, p);
          added := AddPath(fs, folder, p);
        case PathList(paths) =>
          added := AddPaths(fs, folder, paths);
        case Other =>
          added := [];
      }
      entries := entries + added;
    }
    assert sources[..|sources|] == sources;
  }

  /** A directory child selected from `dir`: one level below it, listed by it. */
  ghost predicate ChildOf(q: Path, dir: Path, names: seq<string>)
  {
    |q| == |dir| + 1 && q[..|dir|] == dir && q[|dir|] in names
  }

  /** The selected children are exactly the listed children that are files (nothing deeper). */
  lemma {:induction false} ChildFilesMember(fs: FileSystem, dir: Path, names: seq<string>, q: Path)
    ensures q in ChildFiles(fs, dir, names) <==> IsFile(fs, q) && ChildOf(q, dir, names)
  {
    if names != [] {
      var init, last := names[..|names| - 1], names[|names| - 1];
      var child := dir + [last];
      ChildFilesMember(fs, dir, init, q);
      assert names == init + [last];
      if ChildOf(q, dir, names) && q[|dir|] !in init {
        assert q[|dir|] == last;
        assert q == q[..|dir|] + [q[|dir|]];
      }
      assert child[..|dir|] == dir;
    }
  }

  /**
   The files a path contributes: the path itself when it is a file, its
   listed file children when it is a directory, nothing otherwise.
   */
  lemma PathFilesMember(fs: FileSystem, p: Path, q: Path)
    ensures q in PathFiles(fs, p) <==>
              IsFile(fs, q) && (q == p || (IsDir(fs, p) && ChildOf(q, p, fs[p].children)))
  {
    if IsDir(fs, p) {
      ChildFilesMember(fs, p, fs[p].children, q);
    }
  }

  lemma {:induction false} SelectFilesMember(fs: FileSystem, paths: seq<Path>, q: Path)
    ensures q in SelectFiles(fs, paths) <==> exists p :: p in paths && q in PathFiles(fs, p)
  {
    if paths != [] {
      var init, last := paths[..|paths| - 1], paths[|paths| - 1];
      SelectFilesMember(fs, init, q);
      assert paths == init + [last];
    }
  }

  lemma {:induction false} NamedMember(folder: string, files: seq<Path>, e: ArchiveEntry)
    ensures e in Named(folder, files) <==> e.folder == folder && e.source in files
  {
    if files != [] {
      var init, last := files[..|files| - 1], files[|files| - 1];
      NamedMember(folder, init, e);
      assert files == init + [last];
    }
  }

  /** The file `q` is stored for the item `(folder, value)` of the source map. */
  ghost predicate Contributes(fs: FileSystem, item: (string, Source), e: ArchiveEntry)
  {
    e.folder == item.0 && e.source in SelectFiles(fs, SourcePaths(item.1))
  }

  /** Some item of the source map, at an index below `n`, contributes `e`. */
  ghost predicate ContributedBefore(fs: FileSystem, sources: seq<(string, Source)>, n: nat, e: ArchiveEntry)
    requires n <= |sources|
  {
    n > 0 && (ContributedBefore(fs, sources, n - 1, e) || Contributes(fs, sources[n - 1], e))
  }

  lemma {:induction false} ContributedBeforeIndex(fs: FileSystem, sources: seq<(string, Source)>, n: nat, e: ArchiveEntry)
    requires n <= |sources|
    ensures ContributedBefore(fs, sources, n, e) <==> exists i :: 0 <= i < n && Contributes(fs, sources[i], e)
  {
    if n > 0 {
      ContributedBeforeIndex(fs, sources, n - 1, e);
    }
  }

  lemma {:induction false} EntriesContributed(fs: FileSystem, sources: seq<(string, Source)>, e: ArchiveEntry)
    ensures e in Entries(fs, sources) <==> ContributedBefore(fs, sources, |sources|, e)
  {
    if sources != [] {
      var n := |sources| - 1;
      var init, last := sources[..n], sources[n];
      EntriesContributed(fs, init, e);
      NamedMember(last.0, SelectFiles(fs, SourcePaths(last.1)), e);
      ContributedBeforePrefix(fs, sources, n, e);
    }
  }

  /** Whether an item below `n` contributes depends only on the first `n` items. */
  lemma {:induction false} ContributedBeforePrefix(fs: FileSystem, sources: seq<(string, Source)>, n: nat, e: ArchiveEntry)
    requires n <= |sources|
    ensures ContributedBefore(fs, sources[..n], n, e) <==> ContributedBefore(fs, sources, n, e)
    decreases n
  {
    if n > 0 {
      assert sources[..n][n - 1] == sources[n - 1];
      assert sources[..n][..n - 1] == sources[..n - 1];
      ContributedBeforePrefix(fs, sources, n - 1, e);
      ContributedBeforePrefix(fs, sources[..n], n - 1, e);
    }
  }

  /**
   An archive member is exactly a file selected by some item of the source
   map, filed under that item's folder name.
   */
  lemma EntriesMember(fs: FileSystem, sources: seq<(string, Source)>, e: ArchiveEntry)
    ensures e in Entries(fs, sources) <==>
              exists i :: 0 <= i < |sources| && Contributes(fs, sources[i], e)
  {
    EntriesContributed(fs, sources, e);
    ContributedBeforeIndex(fs, sources, |sources|, e);
  }

  /**
   Every member is a regular file of the file system, named
   `folder/<file name>` for the folder name of an item whose value is a path
   or a list of paths, and it is one of those paths or a direct child of one.
   */
  lemma EntrySoundness(fs: FileSystem, sources: seq<(string, Source)>, e: ArchiveEntry)
    requires e in Entries(fs, sources)
    ensures IsFile(fs, e.source)
    ensures exists i :: 0 <= i < |sources| && !sources[i].1.Other? &&
              Arcname(e) == Join(sources[i].0, Name(e.source)) &&
              exists p :: p in SourcePaths(sources[i].1) &&
                (e.source == p || (IsDir(fs, p) && ChildOf(e.source, p, fs[p].children)))
  {
    EntriesMember(fs, sources, e);
    var i :| 0 <= i < |sources| && Contributes(fs, sources[i], e);
    SelectFilesMember(fs, SourcePaths(sources[i].1), e.source);
    var p :| p in SourcePaths(sources[i].1) && e.source in PathFiles(fs, p);
    PathFilesMember(fs, p, e.source);
  }

  /**
   Every file a listed path selects is a member: a file given directly, or
   a file listed directly in a given directory, named `folder/<file name>`.
   */
  lemma EntryCompleteness(fs: FileSystem, sources: seq<(string, Source)>, i: nat, p: Path, q: Path)
    requires i < |sources| && p in SourcePaths(sources[i].1)
    requires IsFile(fs, q) && (q == p || (IsDir(fs, p) && ChildOf(q, p, fs[p].children)))
    ensures ArchiveEntry(sources[i].0, q) in Entries(fs, sources)
    ensures Arcname(ArchiveEntry(sources[i].0, q)) == Join(sources[i].0, Name(q))
  {
    var e := ArchiveEntry(sources[i].0, q);
    PathFilesMember(fs, p, q);
    SelectFilesMember(fs, SourcePaths(sources[i].1), q);
    assert Contributes(fs, sources[i], e);
    EntriesMember(fs, sources, e);
  }

  /** A home folder with a directory `a` (files f1, f2 and a sub-directory holding a file) and a file f3. */
  function ExampleFs(): FileSystem
  {
    map[["a"] := Dir(["f1", "f2", "sub"]), ["a", "f1"] := File, ["a", "f2"] := File,
        ["a", "sub"] := Dir(["deep"]), ["a", "sub", "deep"] := File, ["f3"] := File]
  }

  lemma ExampleDirectory()
    ensures PathFiles(ExampleFs(), ["a"]) == [["a", "f1"], ["a", "f2"]]
  {
    var fs := ExampleFs();
    assert IsFile(fs, ["a", "f1"]) && IsFile(fs, ["a", "f2"]) && !IsFile(fs, ["a", "sub"]);
    var names := ["f1", "f2", "sub"];
    assert names[..2] == ["f1", "f2"] && ["f1", "f2"][..1] == ["f1"] && ["f1"][..0] == [];
    assert ["a"] + ["f1"] == ["a", "f1"] && ["a"] + ["f2"] == ["a", "f2"] && ["a"] + ["sub"] == ["a", "sub"];
    assert ChildFiles(fs, ["a"], ["f1"]) == [["a", "f1"]];
    assert ChildFiles(fs, ["a"], ["f1", "f2"]) == [["a", "f1"], ["a", "f2"]];
  }

  lemma ExampleItems()
    ensures Named("a", SelectFiles(ExampleFs(), [["a"]])) ==
              [ArchiveEntry("a", ["a", "f1"]), ArchiveEntry("a", ["a", "f2"])]
    ensures Named("b", SelectFiles(ExampleFs(), [["f3"]])) == [ArchiveEntry("b", ["f3"])]
  {
    var fs := ExampleFs();
    ExampleDirectory();
    assert SelectFiles(fs, [["a"]]) == PathFiles(fs, ["a"]) by { assert [["a"]][..0] == []; }
    assert SelectFiles(fs, [["f3"]]) == [["f3"]] by {
      assert [["f3"]][..0] == [];
      assert IsFile(fs, ["f3"]) && !IsDir(fs, ["f3"]);
    }
  }

  /**
   The source map {"a": directory a, "b": file f3, "c": an unsupported
   value}: the archive holds exactly the files a/f1, a/f2 (filed under "a")
   and f3 (filed under "b"), nothing from the sub-directory of a and
   nothing for "c".
   */
  lemma ExampleEntries()
    ensures Entries(ExampleFs(), [("a", OnePath(["a"])), ("b", OnePath(["f3"])), ("c", Other)]) ==
              [ArchiveEntry("a", ["a", "f1"]), ArchiveEntry("a", ["a", "f2"]), ArchiveEntry("b", ["f3"])]
  {
    var fs := ExampleFs();
    ExampleItems();
    var sources := [("a", OnePath(["a"])), ("b", OnePath(["f3"])), ("c", Other)];
    var two, one := sources[..2], sources[..1];
    assert two == [("a", OnePath(["a"])), ("b", OnePath(["f3"]))] && two[..1] == one;
    assert one == [("a", OnePath(["a"]))] && one[..0] == [];
    assert Entries(fs, one) == Named("a", SelectFiles(fs, [["a"]]));
    assert Entries(fs, two) == Entries(fs, one) + Named("b", SelectFiles(fs, [["f3"]]));
    assert Entries(fs, sources) == Entries(fs, two) + Named("c", []);
  }

  /** The members of the example are named a/f1, a/f2 and b/f3 inside the archive. */
  lemma ExampleArcnames()
    ensures Arcname(ArchiveEntry("a", ["a", "f1"])) == "a/f1"
    ensures Arcname(ArchiveEntry("a", ["a", "f2"])) == "a/f2"
    ensures Arcname(ArchiveEntry("b", ["f3"])) == "b/f3"
  {
    assert Name(["a", "f1"]) == "f1" && Name(["a", "f2"]) == "f2" && Name(["f3"]) == "f3";
    assert "a" + "/" + "f1" == "a/f1" && "a" + "/" + "f2" == "a/f2" && "b" + "/" + "f3" == "b/f3";
  }
}
