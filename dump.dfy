/** The project dumper: `generate_tree`, which lists a directory tree with
    ignored directories pruned and ignored files left out, and
    `dump_project`, which writes that listing followed by the contents of
    every listed file. The file system is an input: a tree of directories,
    walked top-down the way `os.walk` walks it. */
module ProjectDump {
  import opened Wrappers
  import opened Text

  // ---------------------------------------------------------------------
  // The file system and its walk

  /** A directory: its name within its parent, its subdirectories and the
      names of its files, each in listing order. */
  datatype Dir = Dir(name: string, subdirs: seq<Dir>, files: seq<string>)

  /** One step of the walk: the path of the directory visited, how many
      directories below the start it lies, and its files. */
  datatype Entry = Entry(root: string, depth: nat, files: seq<string>)

  /** `os.path.join(a, b)` on POSIX. */
  function Join(a: string, b: string): string {
    if StartsWith(b, "/") then b
    else if a == [] || EndsWith(a, "/") then a + b
    else a + "/" + b
  }

  /** `os.path.basename(p)` on POSIX: what follows the last `/`. */
  function Basename(p: string): (r: string)
    ensures |r| <= |p| && '/' !in r
  {
    if p == [] || p[|p| - 1] == '/' then [] else Basename(p[..|p| - 1]) + [p[|p| - 1]]
  }

  /** The walk below the directory `d` found at `path`: `d` itself, then
      each subdirectory in order. */
  function WalkFrom(path: string, d: Dir, depth: nat, ignoreDirs: set<string>): seq<Entry>
    decreases d
  {
    [Entry(path, depth, d.files)] + WalkAll(path, d.subdirs, depth + 1, ignoreDirs)
  }

  /** The walks below the subdirectories `subs` of the directory at `path`,
      in order, skipping those the in-place filter of `dirs` removed: the
      walk descends only into the names left in `dirs`. */
  function WalkAll(path: string, subs: seq<Dir>, depth: nat, ignoreDirs: set<string>): seq<Entry>
    decreases subs
  {
    if subs == [] then []
    else
      (if subs[0].name in ignoreDirs then []
       else WalkFrom(Join(path, subs[0].name), subs[0], depth, ignoreDirs))
      + WalkAll(path, subs[1..], depth, ignoreDirs)
  }

  /** `os.walk(start)` with the pruning of `dirs` applied at every step. The
      start directory itself is never pruned. `top` is the directory found
      at `start`; `None` when it cannot be listed, as for the empty path,
      and then the walk yields nothing. */
  function Walk(start: string, top: Option<Dir>, ignoreDirs: set<string>): (r: seq<Entry>)
    ensures start != [] && top.Some? ==> |r| > 0 && r[0] == Entry(start, 0, top.value.files)
    ensures start == [] || top.None? ==> r == []
  {
    if start == [] || top.None? then [] else WalkFrom(start, top.value, 0, ignoreDirs)
  }

  // ---------------------------------------------------------------------
  // The tree listing

  const Header: string := "PROJECT STRUCTURE:\n"

  /** Four spaces per level. */
  function Indent(level: nat): string {
    seq(4 * level, _ => ' ')
  }

  /** A file is left out when its name is one of `ignoreFiles` or ends with
      one of `ignoreExts`. */
  predicate Excluded(f: string, ignoreFiles: set<string>, ignoreExts: set<string>): (r: bool)
    ensures "" in ignoreExts ==> r
    ensures ignoreFiles == {} && ignoreExts == {} ==> !r
  {
    assert EndsWith(f, "");
    f in ignoreFiles || exists ext | ext in ignoreExts :: EndsWith(f, ext)
  }

  /** The files of `files` that are not excluded, in order. */
  function Listed(files: seq<string>, ignoreFiles: set<string>, ignoreExts: set<string>): (r: seq<string>)
    ensures |r| <= |files|
  {
    if files == [] then []
    else
      var f := files[|files| - 1];
      Listed(files[..|files| - 1], ignoreFiles, ignoreExts) + (if Excluded(f, ignoreFiles, ignoreExts) then [] else [f])
  }

  /** One line per name, each indented to `level`. */
  function FileLines(names: seq<string>, level: nat): string {
    if names == [] then ""
    else FileLines(names[..|names| - 1], level) + Indent(level) + names[|names| - 1] + "\n"
  }

  /** The lines for one directory: its basename followed by `/`, indented
      to its depth, then its listed files one level deeper. */
  function EntryText(e: Entry, ignoreFiles: set<string>, ignoreExts: set<string>): string {
    Indent(e.depth) + Basename(e.root) + "/\n" + FileLines(Listed(e.files, ignoreFiles, ignoreExts), e.depth + 1)
  }

  function EntriesText(walk: seq<Entry>, ignoreFiles: set<string>, ignoreExts: set<string>): string {
    if walk == [] then ""
    else EntriesText(walk[..|walk| - 1], ignoreFiles, ignoreExts) + EntryText(walk[|walk| - 1], ignoreFiles, ignoreExts)
  }

  /** What `generate_tree` returns: the header, then the lines of every
      directory the walk visits, in the order it visits them. */
  function TreeText(start: string, top: Option<Dir>, ignoreDirs: set<string>, ignoreFiles: set<string>,
                    ignoreExts: set<string>): (r: string)
    ensures StartsWith(r, Header)
    ensures start == [] || top.None? ==> r == Header
    ensures start != [] && top.Some? ==> |r| > |Header|
  {
    Header + EntriesText(Walk(start, top, ignoreDirs), ignoreFiles, ignoreExts)
  }

  /** `generate_tree`: the directory loop over the walk, with the file loop
      inside it. Each directory's level is its depth below the start. */
  method GenerateTree(start: string, top: Option<Dir>, ignoreDirs: set<string>, ignoreFiles: set<string>,
                      ignoreExts: set<string>)
    returns (tree: string)
    ensures tree == TreeText(start, top, ignoreDirs, ignoreFiles, ignoreExts)
  {
    tree := Header;
    var walk := Walk(start, top, ignoreDirs);
    var i := 0;
    while i < |walk|
      invariant i <= |walk|
      invariant tree == Header + EntriesText(walk[..i], ignoreFiles, ignoreExts)
    {
      var e := walk[i];
      var level := e.depth;
      var dirLine := Indent(level) + Basename(e.root) + "/\n";
      var fileLines := ListFiles(e.files, level + 1, ignoreFiles, ignoreExts);
      ListingStep(walk, i, ignoreFiles, ignoreExts, dirLine, fileLines);
      tree := tree + (dirLine + fileLines);
      i := i + 1;
    }
    assert walk[..i] == walk;
  }

  lemma ListedStep(files: seq<string>, j: nat, ignoreFiles: set<string>, ignoreExts: set<string>)
    requires j < |files|
    ensures Listed(files[..j + 1], ignoreFiles, ignoreExts)
         == if Excluded(files[j], ignoreFiles, ignoreExts) then Listed(files[..j], ignoreFiles, ignoreExts)
            else Listed(files[..j], ignoreFiles, ignoreExts) + [files[j]]
  {
    assert files[..j + 1][..j] == files[..j];
    assert Listed(files[..j], ignoreFiles, ignoreExts) + [] == Listed(files[..j], ignoreFiles, ignoreExts);
  }

  lemma FileLinesStep(names: seq<string>, f: string, level: nat)
    ensures FileLines(names + [f], level) == FileLines(names, level) + Indent(level) + f + "\n"
  {
    assert (names + [f])[..|names|] == names;
  }

  /** One turn of the directory loop appends the lines of the next entry. */
  lemma ListingStep(walk: seq<Entry>, i: nat, ignoreFiles: set<string>, ignoreExts: set<string>,
                    dirLine: string, fileLines: string)
    requires i < |walk|
    requires dirLine == Indent(walk[i].depth) + Basename(walk[i].root) + "/\n"
    requires fileLines == FileLines(Listed(walk[i].files, ignoreFiles, ignoreExts), walk[i].depth + 1)
    ensures Header + EntriesText(walk[..i + 1], ignoreFiles, ignoreExts)
         == (Header + EntriesText(walk[..i], ignoreFiles, ignoreExts)) + (dirLine + fileLines)
  {
    assert walk[..i + 1][..i] == walk[..i];
    assert EntryText(walk[i], ignoreFiles, ignoreExts) == dirLine + fileLines;
    var before := EntriesText(walk[..i], ignoreFiles, ignoreExts);
    assert EntriesText(walk[..i + 1], ignoreFiles, ignoreExts) == before + (dirLine + fileLines);
    assert Header + (before + (dirLine + fileLines)) == (Header + before) + (dirLine + fileLines);
  }

  /** The file loop of `generate_tree` for one directory: a line for each
      file that is not excluded, indented to `level`. */
  method ListFiles(files: seq<string>, level: nat, ignoreFiles: set<string>, ignoreExts: set<string>)
    returns (lines: string)
    ensures lines == FileLines(Listed(files, ignoreFiles, ignoreExts), level)
  {
    lines := "";
    var j := 0;
    while j < |files|
      invariant j <= |files|
      invariant lines == FileLines(Listed(files[..j], ignoreFiles, ignoreExts), level)
    {
      var f := files[j];
      ListedStep(files, j, ignoreFiles, ignoreExts);
      if !Excluded(f, ignoreFiles, ignoreExts) {
        FileLinesStep(Listed(files[..j], ignoreFiles, ignoreExts), f, level);
        lines := lines + Indent(level) + f + "\n";
      }
      j := j + 1;
    }
    assert files[..j] == files;
  }

  // ---------------------------------------------------------------------
  // Properties of the listing

  /** A file is listed exactly when it is one of the directory's files and
      is not excluded. */
  lemma {:induction false} ListedIff(files: seq<string>, ignoreFiles: set<string>, ignoreExts: set<string>)
    ensures forall f :: f in Listed(files, ignoreFiles, ignoreExts) <==> f in files && !Excluded(f, ignoreFiles, ignoreExts)
    decreases |files|
  {
    if files != [] {
      var init := files[..|files| - 1];
      ListedIff(init, ignoreFiles, ignoreExts);
      assert files == init + [files[|files| - 1]];
    }
  }

  /** A file line is one level deeper than its directory's line: four more
      spaces. */
  lemma IndentDeeper(level: nat)
    ensures Indent(level + 1) == Indent(level) + "    "
  {
    assert |Indent(level + 1)| == |Indent(level) + "    "|;
    forall i | 0 <= i < |Indent(level + 1)| ensures Indent(level + 1)[i] == (Indent(level) + "    ")[i] {
    }
  }

  /** Nothing beneath a pruned subdirectory is visited: replacing it with
      any directory of the same name leaves the walk unchanged. */
  lemma {:induction false} PrunedUnvisited(path: string, subs: seq<Dir>, depth: nat, ignoreDirs: set<string>,
                                           k: nat, other: Dir)
    requires k < |subs| && subs[k].name in ignoreDirs && other.name == subs[k].name
    ensures WalkAll(path, subs[k := other], depth, ignoreDirs) == WalkAll(path, subs, depth, ignoreDirs)
    decreases |subs|
  {
    var subs' := subs[k := other];
    if k > 0 {
      assert subs'[1..] == subs[1..][k - 1 := other];
      PrunedUnvisited(path, subs[1..], depth, ignoreDirs, k - 1, other);
    } else {
      assert subs'[1..] == subs[1..];
    }
  }

  /** The same for the listing: a pruned directory just below the start
      contributes nothing, whatever it holds. */
  lemma PrunedUnlisted(start: string, top: Dir, ignoreDirs: set<string>, ignoreFiles: set<string>,
                       ignoreExts: set<string>, k: nat, other: Dir)
    requires k < |top.subdirs| && top.subdirs[k].name in ignoreDirs && other.name == top.subdirs[k].name
    ensures TreeText(start, Some(top.(subdirs := top.subdirs[k := other])), ignoreDirs, ignoreFiles, ignoreExts)
         == TreeText(start, Some(top), ignoreDirs, ignoreFiles, ignoreExts)
  {
    PrunedUnvisited(start, top.subdirs, 1, ignoreDirs, k, other);
  }

  /** The basename of a path ending in a slash-free name is that name. */
  lemma {:induction false} BasenameOfName(prefix: string, name: string)
    requires prefix == [] || prefix[|prefix| - 1] == '/'
    requires '/' !in name
    ensures Basename(prefix + name) == name
    decreases |name|
  {
    if name == [] {
      assert prefix + name == prefix;
    } else {
      var init := name[..|name| - 1];
      assert (prefix + name)[..|prefix + name| - 1] == prefix + init;
      BasenameOfName(prefix, init);
      assert init + [name[|name| - 1]] == name;
    }
  }

  lemma BasenameOfJoin(path: string, name: string)
    requires name != [] && '/' !in name
    ensures Basename(Join(path, name)) == name
  {
    assert !StartsWith(name, "/") by { assert name[0] != '/'; }
    if path == [] || EndsWith(path, "/") {
      assert path == [] || path[|path| - 1] == '/' by {
        if path != [] { assert path[|path| - 1..][0] == '/'; }
      }
      BasenameOfName(path, name);
    } else {
      BasenameOfName(path + "/", name);
    }
  }

  /** No directory the walk visits below `path` has a name in `ignoreDirs`. */
  lemma {:induction false} WalkFromUnignored(path: string, d: Dir, depth: nat, ignoreDirs: set<string>)
    requires Basename(path) !in ignoreDirs
    requires WellNamed(d.subdirs)
    ensures forall e | e in WalkFrom(path, d, depth, ignoreDirs) :: Basename(e.root) !in ignoreDirs
    decreases d
  {
    WalkAllUnignored(path, d.subdirs, depth + 1, ignoreDirs);
  }

  lemma {:induction false} WalkAllUnignored(path: string, subs: seq<Dir>, depth: nat, ignoreDirs: set<string>)
    requires WellNamed(subs)
    ensures forall e | e in WalkAll(path, subs, depth, ignoreDirs) :: Basename(e.root) !in ignoreDirs
    decreases subs
  {
    if subs != [] {
      assert WellNamed(subs[1..]) by {
        forall i | 0 <= i < |subs[1..]| ensures subs[1..][i] == subs[i + 1] { }
      }
      WalkAllUnignored(path, subs[1..], depth, ignoreDirs);
      if subs[0].name !in ignoreDirs {
        BasenameOfJoin(path, subs[0].name);
        WalkFromUnignored(Join(path, subs[0].name), subs[0], depth, ignoreDirs);
      }
    }
  }

  /** Every directory listed after the start has a name outside
      `ignoreDirs`. */
  lemma ListedDirsUnignored(start: string, top: Dir, ignoreDirs: set<string>)
    requires WellNamed(top.subdirs)
    ensures var walk := Walk(start, Some(top), ignoreDirs);
      forall i | 0 < i < |walk| :: Basename(walk[i].root) !in ignoreDirs
  {
    var walk := Walk(start, Some(top), ignoreDirs);
    if start != [] {
      var rest := WalkAll(start, top.subdirs, 1, ignoreDirs);
      WalkAllUnignored(start, top.subdirs, 1, ignoreDirs);
      forall i | 0 < i < |walk| ensures Basename(walk[i].root) !in ignoreDirs {
        assert walk[i] == rest[i - 1];
      }
    }
  }

  // ---------------------------------------------------------------------
  // The level of a directory

  /** Every directory name is non-empty and holds no `/`, as names listed
      by the file system are. */
  predicate WellNamed(subs: seq<Dir>)
    decreases subs
  {
    forall i | 0 <= i < |subs| :: subs[i].name != [] && '/' !in subs[i].name && WellNamed(subs[i].subdirs)
  }

  /** The level as `generate_tree` computes it: every occurrence of the
      start path removed from the visited path, then its `/` counted. */
  function LevelAsWritten(start: string, root: string): nat
    requires start != []
  {
    Count(Replace(root, start, ""), '/')
  }

  /** With a start path ending in `/`, a subdirectory gets the level of
      the start itself: `a/` is at level 0 and so is its subdirectory
      `a/c`, which the walk visits one level below it. */
  lemma LevelOfTrailingSlash()
    ensures LevelAsWritten("a/", "a/") == 0
    ensures LevelAsWritten("a/", "a/c") == 0
    ensures Walk("a/", Some(Dir("a", [Dir("c", [], [])], [])), {})
         == [Entry("a/", 0, []), Entry("a/c", 1, [])]
  {
    assert Replace("a/c", "a/", "") == "c" by {
      assert "a/c"[..2] == "a/";
      assert "a/c"[2..] == "c";
    }
    assert Replace("a/", "a/", "") == "" by {
      assert "a/"[..2] == "a/";
      assert "a/"[2..] == "";
    }
    assert Count("c", '/') == 0;
    TrailingSlashWalk();
  }

  lemma TrailingSlashWalk()
    ensures Walk("a/", Some(Dir("a", [Dir("c", [], [])], [])), {})
         == [Entry("a/", 0, []), Entry("a/c", 1, [])]
  {
    var c := Dir("c", [], []);
    JoinAfterSlash();
    assert WalkFrom("a/c", c, 1, {}) == [Entry("a/c", 1, [])];
    assert [c][1..] == [];
    assert WalkAll("a/", [c], 1, {}) == [Entry("a/c", 1, [])];
  }

  lemma JoinAfterSlash()
    ensures Join("a/", "c") == "a/c"
  {
    assert "c"[..1][0] == 'c';
    assert !StartsWith("c", "/");
    assert "a/"[|"a/"| - 1..] == "/";
  }

  /** Joining a name to a path that does not end in `/` adds one `/`, and
      the result does not end in `/` either. */
  lemma JoinName(path: string, name: string)
    requires path != [] && path[|path| - 1] != '/'
    requires name != [] && '/' !in name
    ensures var child := Join(path, name);
      child != [] && child[|child| - 1] != '/' && Count(child, '/') == Count(path, '/') + 1
  {
    assert !StartsWith(name, "/") by { assert name[0] != '/'; }
    assert !EndsWith(path, "/") by { assert path[|path| - 1..] == [path[|path| - 1]]; }
    var child := path + "/" + name;
    assert Join(path, name) == child;
    CountAppend(path, "/", '/');
    CountAppend(path + "/", name, '/');
    assert child[|child| - 1] == name[|name| - 1];
  }

  /** A path `depth` steps below `path` has `depth` more `/`. */
  lemma {:induction false} WalkFromSlashes(path: string, d: Dir, depth: nat, ignoreDirs: set<string>)
    requires path != [] && path[|path| - 1] != '/'
    requires WellNamed(d.subdirs)
    ensures forall e | e in WalkFrom(path, d, depth, ignoreDirs) ::
      e.depth >= depth && Count(e.root, '/') == Count(path, '/') + e.depth - depth
    decreases d
  {
    WalkAllSlashes(path, d.subdirs, depth + 1, ignoreDirs);
  }

  lemma {:induction false} WalkAllSlashes(path: string, subs: seq<Dir>, depth: nat, ignoreDirs: set<string>)
    requires path != [] && path[|path| - 1] != '/'
    requires WellNamed(subs)
    ensures forall e | e in WalkAll(path, subs, depth, ignoreDirs) ::
      e.depth >= depth && Count(e.root, '/') == Count(path, '/') + 1 + e.depth - depth
    decreases subs
  {
    if subs != [] {
      var d := subs[0];
      assert WellNamed(subs[1..]) by {
        forall i | 0 <= i < |subs[1..]| ensures subs[1..][i] == subs[i + 1] { }
      }
      WalkAllSlashes(path, subs[1..], depth, ignoreDirs);
      if d.name !in ignoreDirs {
        JoinName(path, d.name);
        WalkFromSlashes(Join(path, d.name), d, depth, ignoreDirs);
      }
    }
  }

  /** The level the listing uses, the depth below the start, is the number
      of `/` the visited path has beyond those of the start, for any start
      that does not end in `/`. */
  lemma DepthCountsSeparators(start: string, top: Dir, ignoreDirs: set<string>)
    requires start != [] && start[|start| - 1] != '/'
    requires WellNamed(top.subdirs)
    ensures forall e | e in Walk(start, Some(top), ignoreDirs) :: e.depth == Count(e.root, '/') - Count(start, '/')
  {
    WalkFromSlashes(start, top, 0, ignoreDirs);
  }

  /** When the start path holds no `/` (as `.` does), the level computed
      as written is the depth of every visited directory. */
  lemma LevelAsWrittenIsDepth(start: string, top: Dir, ignoreDirs: set<string>)
    requires start != [] && '/' !in start
    requires WellNamed(top.subdirs)
    ensures forall e | e in Walk(start, Some(top), ignoreDirs) :: LevelAsWritten(start, e.root) == e.depth
  {
    WalkFromSlashes(start, top, 0, ignoreDirs);
    forall e | e in Walk(start, Some(top), ignoreDirs) ensures LevelAsWritten(start, e.root) == e.depth {
      CountAfterDeletion(e.root, start, '/');
    }
  }

  // ---------------------------------------------------------------------
  // The dump

  /** The `=` rule of 80 characters between sections of the dump. */
  function Rule(): string {
    seq(80, _ => '=')
  }

  const DumpIgnoreDirs: set<string> := {".git", "node_modules", "__pycache__", "dist", "build", ".next", ".venv", "venv"}
  const DumpIgnoreExts: set<string> := {".png", ".jpg", ".jpeg", ".gif", ".ico", ".pdf", ".zip", ".exe", ".dll", ".pyc", ".svg"}

  /** The dump leaves out its own output file and the script itself. */
  function DumpIgnoreFiles(outputFile: string, scriptName: string): set<string> {
    {outputFile, scriptName}
  }

  /** What is written for one file at `root`: a ruled heading naming its
      path, then its text, or the error met in reading it. `read` stands for
      opening and reading the file. */
  function FileBlock(root: string, f: string, read: string -> Result<string, string>): string {
    var path := Join(root, f);
    "\n" + Rule() + "\n" + "FILE: " + path + "\n" + Rule() + "\n\n"
    + (match read(path)
       case Success(text) => text
       case Failure(message) => "ERROR: Could not read " + f + ". " + message)
    + "\n"
  }

  function FileBlocks(root: string, names: seq<string>, read: string -> Result<string, string>): string {
    if names == [] then ""
    else FileBlocks(root, names[..|names| - 1], read) + FileBlock(root, names[|names| - 1], read)
  }

  function ContentsText(walk: seq<Entry>, ignoreFiles: set<string>, ignoreExts: set<string>,
                        read: string -> Result<string, string>): string
  {
    if walk == [] then ""
    else
      var e := walk[|walk| - 1];
      ContentsText(walk[..|walk| - 1], ignoreFiles, ignoreExts, read) + FileBlocks(e.root, Listed(e.files, ignoreFiles, ignoreExts), read)
  }

  /** What `dump_project` writes: the tree of `.`, a ruled heading, then a
      block for every file the tree lists, in the same order. */
  function DumpText(outputFile: string, scriptName: string, top: Option<Dir>,
                    read: string -> Result<string, string>): (r: string)
    ensures StartsWith(r, TreeText(".", top, DumpIgnoreDirs, DumpIgnoreFiles(outputFile, scriptName), DumpIgnoreExts))
    ensures top.None? ==> r == Header + "\n" + Rule() + "\n" + "FILE CONTENTS BELOW\n" + Rule() + "\n"
  {
    var ignoreFiles := DumpIgnoreFiles(outputFile, scriptName);
    TreeText(".", top, DumpIgnoreDirs, ignoreFiles, DumpIgnoreExts)
    + "\n" + Rule() + "\n" + "FILE CONTENTS BELOW\n" + Rule() + "\n"
    + ContentsText(Walk(".", top, DumpIgnoreDirs), ignoreFiles, DumpIgnoreExts, read)
  }

  /** `dump_project`: the writes to the output file, in order, as one
      string. */
  method DumpProject(outputFile: string, scriptName: string, top: Option<Dir>,
                     read: string -> Result<string, string>)
    returns (written: string)
    ensures written == DumpText(outputFile, scriptName, top, read)
  {
    var ignoreDirs, ignoreFiles, ignoreExts := DumpIgnoreDirs, DumpIgnoreFiles(outputFile, scriptName), DumpIgnoreExts;
    written := GenerateTree(".", top, ignoreDirs, ignoreFiles, ignoreExts);
    written := written + "\n" + Rule() + "\n";
    written := written + "FILE CONTENTS BELOW\n";
    written := written + Rule() + "\n";
    written := DumpWalk(written, Walk(".", top, ignoreDirs), ignoreFiles, ignoreExts, read);
  }

  /** The contents part of `dump_project`: after what is already written,
      the blocks of the files of each directory the walk visits. */
  method DumpWalk(heading: string, walk: seq<Entry>, ignoreFiles: set<string>, ignoreExts: set<string>,
                  read: string -> Result<string, string>)
    returns (written: string)
    ensures written == heading + ContentsText(walk, ignoreFiles, ignoreExts, read)
  {
    written := heading;
    var i := 0;
    while i < |walk|
      invariant i <= |walk|
      invariant written == heading + ContentsText(walk[..i], ignoreFiles, ignoreExts, read)
    {
      var e := walk[i];
      var blocks := DumpFiles(e.root, e.files, ignoreFiles, ignoreExts, read);
      ContentsStep(walk, i, ignoreFiles, ignoreExts, read, heading, blocks);
      written := written + blocks;
      i := i + 1;
    }
    assert walk[..i] == walk;
  }

  /** One turn of the directory loop of the dump appends the blocks of the
      next entry's files. */
  lemma ContentsStep(walk: seq<Entry>, i: nat, ignoreFiles: set<string>, ignoreExts: set<string>,
                     read: string -> Result<string, string>, heading: string, blocks: string)
    requires i < |walk|
    requires blocks == FileBlocks(walk[i].root, Listed(walk[i].files, ignoreFiles, ignoreExts), read)
    ensures heading + ContentsText(walk[..i + 1], ignoreFiles, ignoreExts, read)
         == (heading + ContentsText(walk[..i], ignoreFiles, ignoreExts, read)) + blocks
  {
    assert walk[..i + 1][..i] == walk[..i];
    var before := ContentsText(walk[..i], ignoreFiles, ignoreExts, read);
    assert ContentsText(walk[..i + 1], ignoreFiles, ignoreExts, read) == before + blocks;
    assert heading + (before + blocks) == (heading + before) + blocks;
  }

  /** The file loop of `dump_project` for the directory at `root`: excluded
      files are skipped, every other file gets its block. */
  method DumpFiles(root: string, files: seq<string>, ignoreFiles: set<string>, ignoreExts: set<string>,
                   read: string -> Result<string, string>)
    returns (blocks: string)
    ensures blocks == FileBlocks(root, Listed(files, ignoreFiles, ignoreExts), read)
  {
    blocks := "";
    var j := 0;
    while j < |files|
      invariant j <= |files|
      invariant blocks == FileBlocks(root, Listed(files[..j], ignoreFiles, ignoreExts), read)
    {
      var file := files[j];
      ghost var before := Listed(files[..j], ignoreFiles, ignoreExts);
      ListedStep(files, j, ignoreFiles, ignoreExts);
      j := j + 1;
      if Excluded(file, ignoreFiles, ignoreExts) {
        assert Listed(files[..j], ignoreFiles, ignoreExts) == before;
        continue;
      }
      assert Listed(files[..j], ignoreFiles, ignoreExts) == before + [file];
      FileBlocksStep(root, before, file, read);
      blocks := blocks + FileBlock(root, file, read);
    }
    assert files[..j] == files;
  }

  lemma FileBlocksStep(root: string, names: seq<string>, f: string, read: string -> Result<string, string>)
    ensures FileBlocks(root, names + [f], read) == FileBlocks(root, names, read) + FileBlock(root, f, read)
  {
    assert (names + [f])[..|names|] == names;
  }

  /** The dump never writes out its own output file or the script, nor a
      file with an ignored extension. */
  lemma DumpSkipsOwnFiles(outputFile: string, scriptName: string, files: seq<string>)
    ensures forall f | f in Listed(files, DumpIgnoreFiles(outputFile, scriptName), DumpIgnoreExts) ::
      f != outputFile && f != scriptName && forall ext | ext in DumpIgnoreExts :: !EndsWith(f, ext)
  {
    ListedIff(files, DumpIgnoreFiles(outputFile, scriptName), DumpIgnoreExts);
  }
}
