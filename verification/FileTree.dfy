/** An account's flat paths read one folder at a time:
    `crates/itsanas-cli/src/file_tree.rs`. */
module FileTree {
  import opened Sorting
  import opened Text

  datatype Entry = Entry(path: string, size: u64, modifiedUnix: u64, here: bool)

  datatype Folder = Folder(name: string, path: string, files: nat, size: u64, notHere: nat)

  datatype Level = Level(at: string, folders: seq<Folder>, files: seq<Entry>)

  // --------------------------------------------------------- paths

  /** What `path` is below `folder`, or `None` when it is elsewhere. */
  function Below(path: string, folder: string): Option<string> {
    if folder == "" then Some(path)
    else
      match StripPrefix(path, folder)
      case None => None
      case Some(rest) => StripPrefix(rest, "/")
  }

  function TrimSlashStart(s: string): string {
    if s != [] && s[0] == '/' then TrimSlashStart(s[1..]) else s
  }

  function TrimSlashEnd(s: string): string {
    if s != [] && s[|s| - 1] == '/' then TrimSlashEnd(s[..|s| - 1]) else s
  }

  /** `trim_matches('/')`. */
  function TrimSlashes(s: string): string {
    TrimSlashEnd(TrimSlashStart(s))
  }

  /** The last place `/` stands, as `rsplit_once` finds it. */
  function LastSlash(s: string): (k: Option<nat>)
    ensures k.Some? ==> k.value < |s| && s[k.value] == '/' && forall i :: k.value < i < |s| ==> s[i] != '/'
    ensures k.None? ==> '/' !in s
  {
    if s == [] then None
    else if s[|s| - 1] == '/' then Some(|s| - 1)
    else
      assert s == s[..|s| - 1] + [s[|s| - 1]];
      LastSlash(s[..|s| - 1])
  }

  function Parent(folder: string): string {
    match LastSlash(folder)
    case None => ""
    case Some(k) => folder[..k]
  }

  function Join(at: string, name: string): string {
    if at == "" then name else at + "/" + name
  }

  /** At or above: the folder itself, the root, or a prefix that ends before a `/`. */
  predicate Above(p: string, folder: string) {
    p == folder || p == "" || (|p| < |folder| && p == folder[..|p|] && folder[|p|] == '/')
  }

  /** Whether some file's path goes through the folder. */
  predicate Goes(entries: seq<Entry>, folder: string) {
    exists i :: 0 <= i < |entries| && Below(entries[i].path, folder).Some?
  }

  /** The nearest folder at or above the one wanted that some file goes through. */
  ghost predicate IsNearest(entries: seq<Entry>, wanted: string, at: string) {
    var folder := TrimSlashes(wanted);
    Above(at, folder)
    && (at == "" || Goes(entries, at))
    && forall p :: Above(p, folder) && |p| > |at| ==> !Goes(entries, p)
  }

  lemma ParentIsAbove(start: string, folder: string)
    requires Above(folder, start) && folder != ""
    ensures Above(Parent(folder), start) && |Parent(folder)| < |folder|
    ensures forall p :: Above(p, start) && |p| < |folder| ==> |p| <= |Parent(folder)|
  {
    var up := Parent(folder);
    forall p | Above(p, start) && |p| < |folder| ensures |p| <= |up| {
      if p != "" {
        assert folder[|p|] == start[|p|] == '/';
      }
    }
  }

  /** `nearest`. */
  method Nearest(entries: seq<Entry>, wanted: string) returns (at: string)
    ensures IsNearest(entries, wanted, at)
  {
    ghost var start := TrimSlashes(wanted);
    at := TrimSlashes(wanted);
    while at != "" && !Goes(entries, at)
      invariant Above(at, start)
      invariant forall p :: Above(p, start) && |p| > |at| ==> !Goes(entries, p)
      decreases |at|
    {
      ParentIsAbove(start, at);
      forall p | Above(p, start) && |p| > |Parent(at)| ensures !Goes(entries, p) {
        if |p| == |at| {
          assert p == at;
        }
      }
      at := Parent(at);
    }
  }

  /** There is only one. */
  lemma NearestIsUnique(entries: seq<Entry>, wanted: string, a: string, b: string)
    requires IsNearest(entries, wanted, a) && IsNearest(entries, wanted, b)
    ensures a == b
  {
    var folder := TrimSlashes(wanted);
    assert |a| == |b|;
  }

  // --------------------------------------------- what stands where

  /** Where a path stands, seen from a folder. */
  datatype Place = Elsewhere | Here | Under(name: string)

  function PlaceOf(path: string, at: string): Place {
    match Below(path, at)
    case None => Elsewhere
    case Some(rest) =>
      match SplitOnce(rest, '/')
      case None => Here
      case Some((name, _)) => Under(name)
  }

  /** Whether the entry is a file directly in `at` (when `files`), or below one
      of the folders `names` of it. */
  predicate Picked(e: Entry, at: string, files: bool, names: set<string>) {
    var place := PlaceOf(e.path, at);
    (files && place.Here?) || (place.Under? && place.name in names)
  }

  function Pick(entries: seq<Entry>, at: string, files: bool, names: set<string>): seq<Entry> {
    if entries == [] then []
    else
      var rest := Pick(entries[..|entries| - 1], at, files, names);
      var e := entries[|entries| - 1];
      if Picked(e, at, files, names) then rest + [e] else rest
  }

  /** Everything below a folder, at any depth. */
  function Everything(entries: seq<Entry>, at: string): seq<Entry> {
    if entries == [] then []
    else
      var rest := Everything(entries[..|entries| - 1], at);
      var e := entries[|entries| - 1];
      if PlaceOf(e.path, at).Elsewhere? then rest else rest + [e]
  }

  function NamesIn(entries: seq<Entry>, at: string): set<string> {
    set i | 0 <= i < |entries| && PlaceOf(entries[i].path, at).Under? :: PlaceOf(entries[i].path, at).name
  }

  function TotalSize(entries: seq<Entry>): nat {
    if entries == [] then 0 else TotalSize(entries[..|entries| - 1]) + entries[|entries| - 1].size
  }

  function Absent(entries: seq<Entry>): nat {
    if entries == [] then 0 else Absent(entries[..|entries| - 1]) + (if entries[|entries| - 1].here then 0 else 1)
  }

  /** What a folder's line should say: everything below it, counted. */
  function FolderOf(entries: seq<Entry>, at: string, name: string): Folder {
    var below := Pick(entries, at, false, {name});
    Folder(name, Join(at, name), |below|, Saturated(TotalSize(below)), Absent(below))
  }

  /** What an answer for `wanted` must be: the nearest folder, its own files, and
      each folder in it once, counted. */
  ghost predicate IsLevel(entries: seq<Entry>, wanted: string, level: Level) {
    IsNearest(entries, wanted, level.at)
    && multiset(level.files) == multiset(Pick(entries, level.at, true, {}))
    && FoldersRight(entries, level.at, level.folders)
  }

  function NameSet(folders: seq<Folder>): set<string> {
    set f | f in folders :: f.name
  }

  /** As many names as folders, so each folder once; every name that has files
      below it, and no other; every line right. */
  predicate FoldersRight(entries: seq<Entry>, at: string, folders: seq<Folder>) {
    |NameSet(folders)| == |folders|
    && NameSet(folders) == NamesIn(entries, at)
    && forall f :: f in folders ==> f == FolderOf(entries, at, f.name)
  }

  // ------------------------------------------------------ the loop

  /** The counts of the folders of the first entries, as the loop keeps them. */
  ghost predicate Counted(entries: seq<Entry>, at: string, folders: map<string, Folder>) {
    folders.Keys == NamesIn(entries, at)
    && forall name :: name in folders ==> folders[name] == FolderOf(entries, at, name)
  }

  lemma CountOne(entries: seq<Entry>, e: Entry, at: string, name: string)
    ensures var all := entries + [e];
            Pick(all, at, false, {name})
            == if PlaceOf(e.path, at) == Under(name) then Pick(entries, at, false, {name}) + [e]
               else Pick(entries, at, false, {name})
  {
    assert (entries + [e])[..|entries + [e]| - 1] == entries;
  }

  lemma NamesOneMore(entries: seq<Entry>, e: Entry, at: string)
    ensures var place := PlaceOf(e.path, at);
            NamesIn(entries + [e], at) == NamesIn(entries, at) + if place.Under? then {place.name} else {}
  {
    var all := entries + [e];
    forall n | n in NamesIn(entries, at) ensures n in NamesIn(all, at) {
      var i :| 0 <= i < |entries| && PlaceOf(entries[i].path, at).Under? && PlaceOf(entries[i].path, at).name == n;
      assert all[i] == entries[i];
    }
    assert all[|entries|] == e;
  }

  /** A name not met yet has nothing below it. */
  lemma {:induction false} NothingUnder(entries: seq<Entry>, at: string, name: string)
    requires name !in NamesIn(entries, at)
    ensures Pick(entries, at, false, {name}) == []
  {
    if entries != [] {
      var most, e := entries[..|entries| - 1], entries[|entries| - 1];
      assert entries == most + [e];
      NamesOneMore(most, e, at);
      NothingUnder(most, at, name);
    }
  }

  /** One more file below the folder, the size held to 64 bits. */
  function Added(f: Folder, e: Entry): Folder {
    f.(files := f.files + 1, size := Saturated(f.size + e.size), notHere := f.notHere + if e.here then 0 else 1)
  }

  lemma FolderOneMore(entries: seq<Entry>, e: Entry, at: string, name: string)
    requires PlaceOf(e.path, at) == Under(name)
    ensures FolderOf(entries + [e], at, name) == Added(FolderOf(entries, at, name), e)
  {
    CountOne(entries, e, at, name);
    var below := Pick(entries, at, false, {name});
    assert (below + [e])[..|below + [e]| - 1] == below;
  }

  lemma FolderUntouched(entries: seq<Entry>, e: Entry, at: string, name: string)
    requires PlaceOf(e.path, at) != Under(name)
    ensures FolderOf(entries + [e], at, name) == FolderOf(entries, at, name)
  {
    CountOne(entries, e, at, name);
  }

  lemma NewFolder(entries: seq<Entry>, at: string, name: string)
    requires name !in NamesIn(entries, at)
    ensures FolderOf(entries, at, name) == Folder(name, Join(at, name), 0, 0, 0)
  {
    NothingUnder(entries, at, name);
  }

  lemma CountedOneMore(entries: seq<Entry>, e: Entry, at: string, folders: map<string, Folder>)
    requires Counted(entries, at, folders)
    ensures PlaceOf(e.path, at).Under? ==>
              var name := PlaceOf(e.path, at).name;
              FolderOf(entries, at, name)
              == (if name in folders then folders[name] else Folder(name, Join(at, name), 0, 0, 0))
              && Counted(entries + [e], at, folders[name := FolderOf(entries + [e], at, name)])
    ensures !PlaceOf(e.path, at).Under? ==> Counted(entries + [e], at, folders)
  {
    hide FolderOf, NamesIn, PlaceOf, Join;
    NamesOneMore(entries, e, at);
    forall n | n in folders && PlaceOf(e.path, at) != Under(n)
      ensures FolderOf(entries + [e], at, n) == FolderOf(entries, at, n)
    {
      FolderUntouched(entries, e, at, n);
    }
    if PlaceOf(e.path, at).Under? && PlaceOf(e.path, at).name !in folders {
      NewFolder(entries, at, PlaceOf(e.path, at).name);
    }
  }

  lemma FilesOneMore(entries: seq<Entry>, e: Entry, at: string)
    ensures Pick(entries + [e], at, true, {})
         == if PlaceOf(e.path, at).Here? then Pick(entries, at, true, {}) + [e] else Pick(entries, at, true, {})
  {
    assert (entries + [e])[..|entries + [e]| - 1] == entries;
  }

  /** What a file is listed by. */
  function ByPath(lower: string -> string): Entry -> string {
    (e: Entry) => lower(e.path)
  }

  /** What a folder is listed by. */
  function ByName(lower: string -> string): Folder -> string {
    (f: Folder) => lower(f.name)
  }

  /** The name itself, by which the map holds the folders. */
  function OwnName(): Folder -> string {
    (f: Folder) => f.name
  }

  /** The files in order of their lower-cased paths, equals as the account lists
      them; the folders in order of their lower-cased names, equals by name. */
  ghost predicate ListedInOrder(entries: seq<Entry>, level: Level, lower: string -> string) {
    Ordered(level.files, ByPath(lower)) && Ordered(level.folders, ByName(lower))
    && SameByKey(level.files, Pick(entries, level.at, true, {}), ByPath(lower))
    && forall k :: Ordered(WithKey(level.folders, ByName(lower), k), OwnName())
  }

  /** `level`: one pass over the entries, the counters added to in place, the
      folders taken out of the map by name, then both lists sorted by a lower-cased
      name. */
  method LevelAt(entries: seq<Entry>, wanted: string, lower: string -> string) returns (level: Level)
    ensures IsLevel(entries, wanted, level) && ListedInOrder(entries, level, lower)
  {
    var at := Nearest(entries, wanted);
    var folders, files := CountAll(entries, at);
    var listed := IntoValues(entries, at, folders);
    var sorted := SortedBy(listed, ByName(lower));
    StillRight(entries, at, listed, sorted);
    level := Level(at, sorted, SortedBy(files, ByPath(lower)));
    hide FoldersRight, Pick, SortedBy, Ordered, WithKey, ByPath, ByName, OwnName;
    SortedIsStable(files, ByPath(lower), "");
    SortedIsStable(listed, ByName(lower), "");
    assert SameByKey(level.files, files, ByPath(lower)) by {
      forall k ensures WithKey(level.files, ByPath(lower), k) == WithKey(files, ByPath(lower), k) {
        SortedIsStable(files, ByPath(lower), k);
      }
    }
    forall k ensures Ordered(WithKey(level.folders, ByName(lower), k), OwnName()) {
      SortedIsStable(listed, ByName(lower), k);
      WithKeyStaysOrdered(listed, ByName(lower), k, OwnName());
    }
  }

  method CountAll(entries: seq<Entry>, at: string) returns (folders: map<string, Folder>, files: seq<Entry>)
    ensures files == Pick(entries, at, true, {}) && Counted(entries, at, folders)
  {
    folders, files := map[], [];
    for i := 0 to |entries|
      invariant files == Pick(entries[..i], at, true, {})
      invariant Counted(entries[..i], at, folders)
    {
      hide Pick, Counted, FolderOf, PlaceOf, Join, Added;
      var e := entries[i];
      assert entries[..i + 1] == entries[..i] + [e];
      CountedOneMore(entries[..i], e, at, folders);
      FilesOneMore(entries[..i], e, at);
      match PlaceOf(e.path, at) {
        case Elsewhere =>
        case Here =>
          files := files + [e];
        case Under(name) =>
          FolderOneMore(entries[..i], e, at, name);
          var f := if name in folders then folders[name] else Folder(name, Join(at, name), 0, 0, 0);
          folders := folders[name := Added(f, e)];
      }
    }
    assert entries[..|entries|] == entries;
  }

  /** The folders of the map, each once, by name. */
  method IntoValues(ghost entries: seq<Entry>, ghost at: string, folders: map<string, Folder>)
    returns (listed: seq<Folder>)
    requires Counted(entries, at, folders)
    ensures FoldersRight(entries, at, listed) && Ordered(listed, OwnName())
  {
    var drawn := Drawn(entries, at, folders);
    listed := SortedBy(drawn, OwnName());
    StillRight(entries, at, drawn, listed);
    SortedIsStable(drawn, OwnName(), "");
  }

  method Drawn(ghost entries: seq<Entry>, ghost at: string, folders: map<string, Folder>)
    returns (listed: seq<Folder>)
    requires Counted(entries, at, folders)
    ensures FoldersRight(entries, at, listed)
  {
    listed := [];
    NoNames();
    assert DrawnBut(folders, folders.Keys, []);
    hide NameSet, Counted, FoldersRight, DrawnBut;
    var left := folders.Keys;
    while left != {}
      invariant left <= folders.Keys && DrawnBut(folders, left, listed)
      decreases |left|
    {
      var name :| name in left;
      NameOfFolder(entries, at, folders, name);
      DrawOne(folders, left, listed, name);
      listed := listed + [folders[name]];
      left := left - {name};
    }
    AllListed(entries, at, folders, listed);
  }

  /** Those of the map but for these names, each once. */
  predicate DrawnBut(folders: map<string, Folder>, left: set<string>, listed: seq<Folder>) {
    (forall f :: f in listed ==> f.name in folders && f == folders[f.name])
    && NameSet(listed) == folders.Keys - left && |NameSet(listed)| == |listed|
  }

  lemma DrawOne(folders: map<string, Folder>, left: set<string>, listed: seq<Folder>, name: string)
    requires DrawnBut(folders, left, listed) && name in folders && name in left && folders[name].name == name
    ensures DrawnBut(folders, left - {name}, listed + [folders[name]])
  {
    hide NameSet;
    NameSetOneMore(listed, folders[name]);
    assert folders.Keys - (left - {name}) == folders.Keys - left + {name};
  }

  lemma AllListed(entries: seq<Entry>, at: string, folders: map<string, Folder>, listed: seq<Folder>)
    requires Counted(entries, at, folders) && DrawnBut(folders, {}, listed)
    ensures FoldersRight(entries, at, listed)
  {
    hide NamesIn, FolderOf;
    assert folders.Keys - {} == folders.Keys;
  }

  lemma NoNames()
    ensures NameSet([]) == {}
  {
  }

  lemma NameSetOneMore(listed: seq<Folder>, f: Folder)
    ensures NameSet(listed + [f]) == NameSet(listed) + {f.name}
    ensures f.name !in NameSet(listed) ==> |NameSet(listed + [f])| == |NameSet(listed)| + 1
  {
  }

  lemma NameOfFolder(entries: seq<Entry>, at: string, folders: map<string, Folder>, name: string)
    requires Counted(entries, at, folders) && name in folders
    ensures folders[name].name == name
  {
    assert FolderOf(entries, at, name).name == name;
  }

  /** Sorting moves folders about and changes none. */
  lemma StillRight(entries: seq<Entry>, at: string, a: seq<Folder>, b: seq<Folder>)
    requires FoldersRight(entries, at, a) && multiset(a) == multiset(b)
    ensures FoldersRight(entries, at, b)
  {
    hide NamesIn, FolderOf;
    assert |a| == |multiset(a)| == |b|;
    forall f ensures f in a <==> f in b {
      assert f in a <==> f in multiset(a);
      assert f in b <==> f in multiset(b);
    }
    assert NameSet(a) == NameSet(b);
  }

  // ---------------------------------------------- a folder's own path

  /** No slash at either end, so a path asked for as it is. */
  predicate Clean(folder: string) {
    folder == "" || (folder[0] != '/' && folder[|folder| - 1] != '/')
  }

  /** A path with no empty folder on its way: it does not start with a slash and
      no two slashes stand together. */
  predicate TidyPath(path: string) {
    forall k :: 0 <= k < |path| && path[k] == '/' ==> k > 0 && path[k - 1] != '/'
  }

  predicate Tidy(entries: seq<Entry>) {
    forall i :: 0 <= i < |entries| ==> TidyPath(entries[i].path)
  }

  lemma CleanIsTrimmed(folder: string)
    requires Clean(folder)
    ensures TrimSlashes(folder) == folder
  {
  }

  /** In a tidy account the folder answered for has no slash at either end. */
  lemma NearestIsClean(entries: seq<Entry>, wanted: string, at: string)
    requires Tidy(entries) && IsNearest(entries, wanted, at)
    ensures Clean(at)
  {
    if at != "" {
      var i :| 0 <= i < |entries| && Below(entries[i].path, at).Some?;
      var path := entries[i].path;
      BelowSays(path, at);
      assert TidyPath(path) && path[0] == at[0] && path[|at|] == '/' && path[|at| - 1] == at[|at| - 1];
    }
  }

  /** A clean folder that some file goes through is its own nearest. */
  lemma ItsOwnNearest(entries: seq<Entry>, folder: string, at: string)
    requires Clean(folder) && (folder == "" || Goes(entries, folder)) && IsNearest(entries, folder, at)
    ensures at == folder
  {
    CleanIsTrimmed(folder);
    assert Above(folder, folder);
  }

  lemma BelowIs(path: string, folder: string, rest: string)
    requires path == (if folder == "" then rest else folder + "/" + rest)
    ensures Below(path, folder) == Some(rest)
  {
    if folder != "" {
      assert path[|folder|..] == "/" + rest;
      assert ("/" + rest)[1..] == rest;
    }
  }

  lemma BelowSays(path: string, folder: string)
    requires Below(path, folder).Some?
    ensures path == (if folder == "" then Below(path, folder).value else folder + "/" + Below(path, folder).value)
  {
    if folder != "" {
      var tail := path[|folder|..];
      assert path == folder + tail && tail == "/" + tail[1..];
    }
  }

  /** A path under `name` of `at` is exactly one below `at/name`. */
  lemma UnderIsBelow(path: string, at: string, name: string)
    requires name != "" && '/' !in name
    ensures PlaceOf(path, at) == Under(name) <==> Below(path, Join(at, name)).Some?
  {
    if PlaceOf(path, at) == Under(name) {
      UnderGoesBelow(path, at, name);
    }
    if Below(path, Join(at, name)).Some? {
      BelowGoesUnder(path, at, name);
    }
  }

  lemma SplitSays(s: string)
    requires SplitOnce(s, '/').Some?
    ensures var (a, b) := SplitOnce(s, '/').value; s == a + "/" + b
  {
    var k := Find(s, '/');
    assert s == s[..k] + "/" + s[k + 1..];
  }

  lemma UnderGoesBelow(path: string, at: string, name: string)
    requires name != "" && '/' !in name && PlaceOf(path, at) == Under(name)
    ensures Below(path, Join(at, name)).Some?
  {
    hide Below, SplitOnce;
    BelowSays(path, at);
    var rest := Below(path, at).value;
    SplitSays(rest);
    var deep := SplitOnce(rest, '/').value.1;
    if at != "" {
      AppendAssociates(at + "/", name, "/" + deep);
      AppendAssociates(name, "/", deep);
      AppendAssociates(at + "/" + name, "/", deep);
    }
    BelowIs(path, Join(at, name), deep);
  }

  lemma BelowGoesUnder(path: string, at: string, name: string)
    requires name != "" && '/' !in name && Below(path, Join(at, name)).Some?
    ensures PlaceOf(path, at) == Under(name)
  {
    hide Below;
    BelowSays(path, Join(at, name));
    var deep := Below(path, Join(at, name)).value;
    assert path == (if at == "" then name + "/" + deep else at + "/" + (name + "/" + deep));
    BelowIs(path, at, name + "/" + deep);
    SplitOnceAppended(name, '/', deep);
  }

  /** What a name of a folder is, in a tidy account. */
  lemma NameIsAWord(entries: seq<Entry>, at: string, name: string)
    requires Tidy(entries) && Clean(at) && name in NamesIn(entries, at)
    ensures name != "" && '/' !in name && Clean(Join(at, name)) && Goes(entries, Join(at, name))
    ensures |at| < |Join(at, name)|
  {
    var i :| 0 <= i < |entries| && PlaceOf(entries[i].path, at) == Under(name);
    var path := entries[i].path;
    BelowSays(path, at);
    var rest := Below(path, at).value;
    var start := |path| - |rest|;
    assert rest[|name|] == '/' == path[start + |name|];
    assert start == 0 || path[start - 1] == '/';
    assert TidyPath(path);
    UnderIsBelow(path, at, name);
  }

  /** Descending into a folder that a level lists answers for that very folder. */
  lemma DescentAnswersItself(entries: seq<Entry>, level: Level, wanted: string, f: Folder, next: Level)
    requires Tidy(entries) && IsLevel(entries, wanted, level) && f in level.folders
    requires IsLevel(entries, f.path, next)
    ensures next.at == f.path && f.path == Join(level.at, f.name)
  {
    NearestIsClean(entries, wanted, level.at);
    assert f.name in NameSet(level.folders);
    NameIsAWord(entries, level.at, f.name);
    ItsOwnNearest(entries, f.path, next.at);
  }

  // ---------------------------------------------- walking down the tree

  lemma {:induction false} PickIsEverything(entries: seq<Entry>, at: string, name: string)
    requires name != "" && '/' !in name
    ensures Pick(entries, at, false, {name}) == Everything(entries, Join(at, name))
  {
    if entries != [] {
      PickIsEverything(entries[..|entries| - 1], at, name);
      UnderIsBelow(entries[|entries| - 1].path, at, name);
    }
  }

  lemma {:induction false} PickOneMoreName(entries: seq<Entry>, at: string, names: set<string>, name: string)
    requires name !in names
    ensures multiset(Pick(entries, at, true, names + {name}))
         == multiset(Pick(entries, at, true, names)) + multiset(Pick(entries, at, false, {name}))
  {
    if entries != [] {
      PickOneMoreName(entries[..|entries| - 1], at, names, name);
    }
  }

  lemma {:induction false} PickAll(entries: seq<Entry>, at: string, names: set<string>)
    requires NamesIn(entries, at) <= names
    ensures Pick(entries, at, true, names) == Everything(entries, at)
  {
    if entries != [] {
      var most, e := entries[..|entries| - 1], entries[|entries| - 1];
      assert entries == most + [e];
      NamesOneMore(most, e, at);
      PickAll(most, at, names);
    }
  }

  lemma {:induction false} EverythingAtTheRoot(entries: seq<Entry>)
    ensures Everything(entries, "") == entries
  {
    if entries != [] {
      EverythingAtTheRoot(entries[..|entries| - 1]);
    }
  }

  function Longest(entries: seq<Entry>): nat {
    if entries == [] then 0
    else
      var most, last := Longest(entries[..|entries| - 1]), |entries[|entries| - 1].path|;
      if most > last then most else last
  }

  lemma {:induction false} NoneLonger(entries: seq<Entry>, i: nat)
    requires i < |entries|
    ensures |entries[i].path| <= Longest(entries)
  {
    if i < |entries| - 1 {
      NoneLonger(entries[..|entries| - 1], i);
    }
  }

  lemma GoesIsShorter(entries: seq<Entry>, folder: string)
    requires Goes(entries, folder)
    ensures |folder| <= Longest(entries)
  {
    var i :| 0 <= i < |entries| && Below(entries[i].path, folder).Some?;
    BelowSays(entries[i].path, folder);
    NoneLonger(entries, i);
  }

  /** What somebody tapping every folder of every level meets: in a tidy account,
      exactly the files below where they started, each as often as it is listed.
      From the root, the whole account. */
  method Walk(entries: seq<Entry>, wanted: string, lower: string -> string) returns (met: seq<Entry>)
    requires Tidy(entries) && Clean(wanted) && (wanted == "" || Goes(entries, wanted))
    ensures multiset(met) == multiset(Everything(entries, wanted))
    ensures wanted == "" ==> multiset(met) == multiset(entries)
    decreases Longest(entries) - |wanted|
  {
    var level := LevelAt(entries, wanted, lower);
    ItsOwnNearest(entries, wanted, level.at);
    met := level.files;
    var folders := level.folders;
    assert NameSet(folders[..0]) == {};
    for i := 0 to |folders|
      invariant multiset(met) == multiset(Pick(entries, wanted, true, NameSet(folders[..i])))
    {
      hide Pick, NamesIn, FolderOf, Everything;
      ListedFolder(entries, wanted, folders, i);
      var below := Walk(entries, folders[i].path, lower);
      met := met + below;
    }
    assert folders[..|folders|] == folders;
    PickAll(entries, wanted, NameSet(folders));
    EverythingAtTheRoot(entries);
  }

  /** The i-th folder of a level: where it leads, and what it adds. */
  lemma ListedFolder(entries: seq<Entry>, at: string, folders: seq<Folder>, i: nat)
    requires Tidy(entries) && Clean(at) && FoldersRight(entries, at, folders) && i < |folders|
    ensures var f := folders[i];
            Clean(f.path) && Goes(entries, f.path) && |at| < |f.path| <= Longest(entries)
            && multiset(Pick(entries, at, true, NameSet(folders[..i + 1])))
               == multiset(Pick(entries, at, true, NameSet(folders[..i]))) + multiset(Everything(entries, f.path))
            && FolderOf(entries, at, f.name) == f && Pick(entries, at, false, {f.name}) == Everything(entries, f.path)
  {
    var f := folders[i];
    assert f.name in NameSet(folders);
    NameIsAWord(entries, at, f.name);
    GoesIsShorter(entries, f.path);
    PickIsEverything(entries, at, f.name);
    NamesApart(folders, i);
    PickOneMoreName(entries, at, NameSet(folders[..i]), f.name);
  }

  lemma {:induction false} NameSetSize(folders: seq<Folder>)
    ensures |NameSet(folders)| <= |folders|
  {
    if folders != [] {
      var most := folders[..|folders| - 1];
      NameSetSize(most);
      assert folders == most + [folders[|folders| - 1]];
      NameSetOneMore(most, folders[|folders| - 1]);
    }
  }

  /** As many names as folders: each is new where it stands. */
  lemma {:induction false} NamesApart(folders: seq<Folder>, i: nat)
    requires |NameSet(folders)| == |folders| && i < |folders|
    ensures folders[i].name !in NameSet(folders[..i])
    ensures NameSet(folders[..i + 1]) == NameSet(folders[..i]) + {folders[i].name}
  {
    hide NameSet;
    var most := folders[..|folders| - 1];
    LastNameIsNew(folders);
    if i < |folders| - 1 {
      NamesApart(most, i);
      assert most[..i] == folders[..i] && most[..i + 1] == folders[..i + 1];
    } else {
      assert folders[..i + 1] == folders && folders[..i] == most;
    }
  }

  // -------------------------------------------------- the figures agree

  function FilesOf(folders: seq<Folder>): nat {
    if folders == [] then 0 else FilesOf(folders[..|folders| - 1]) + folders[|folders| - 1].files
  }

  function SizesOf(folders: seq<Folder>): nat {
    if folders == [] then 0 else SizesOf(folders[..|folders| - 1]) + folders[|folders| - 1].size
  }

  function NotHereOf(folders: seq<Folder>): nat {
    if folders == [] then 0 else NotHereOf(folders[..|folders| - 1]) + folders[|folders| - 1].notHere
  }

  lemma TakeOut(s: seq<Entry>, k: nat)
    requires k < |s|
    ensures TotalSize(s) == TotalSize(s[..k] + s[k + 1..]) + s[k].size
    ensures Absent(s) == Absent(s[..k] + s[k + 1..]) + if s[k].here then 0 else 1
  {
    hide TotalSize, Absent;
    var front, back := s[..k], s[k + 1..];
    assert s == front + [s[k]] + back;
    TotalsOfOne(s[k]);
    TotalsAppend(front, [s[k]]);
    TotalsAppend(front + [s[k]], back);
    TotalsAppend(front, back);
  }

  lemma TotalsOfOne(e: Entry)
    ensures TotalSize([e]) == e.size && Absent([e]) == if e.here then 0 else 1
  {
    assert [e][..0] == [];
  }

  /** Where the last of one listing stands in another of the same files. */
  lemma FindLast(a: seq<Entry>, b: seq<Entry>) returns (k: nat)
    requires multiset(a) == multiset(b) && a != []
    ensures |a| == |b| && k < |b| && b[k] == a[|a| - 1]
    ensures multiset(a[..|a| - 1]) == multiset(b[..k] + b[k + 1..])
    ensures b == b[..k] + [b[k]] + b[k + 1..]
  {
    assert |a| == |multiset(a)| == |multiset(b)| == |b|;
    var n := |a| - 1;
    assert a[n] in multiset(a) && a[n] in multiset(b);
    k :| 0 <= k < |b| && b[k] == a[n];
    WithoutOne(a, n);
    WithoutOne(b, k);
    assert a[..n] + a[n + 1..] == a[..n];
  }

  lemma WithoutOne(s: seq<Entry>, k: nat)
    requires k < |s|
    ensures s == s[..k] + [s[k]] + s[k + 1..]
    ensures multiset(s[..k] + s[k + 1..]) == multiset(s) - multiset{s[k]}
  {
    assert s == s[..k] + [s[k]] + s[k + 1..];
    assert multiset(s) == multiset(s[..k] + s[k + 1..]) + multiset{s[k]};
  }

  /** Totals depend on which files there are, not on their order. */
  lemma {:induction false} TotalsOfSameFiles(a: seq<Entry>, b: seq<Entry>)
    requires multiset(a) == multiset(b)
    ensures |a| == |b| && TotalSize(a) == TotalSize(b) && Absent(a) == Absent(b)
  {
    if a == [] {
      assert |multiset(b)| == 0 && b == [];
    } else {
      var k := FindLast(a, b);
      TotalsOfSameFiles(a[..|a| - 1], b[..k] + b[k + 1..]);
      TakeOut(b, k);
    }
  }

  lemma {:induction false} TotalsAppend(a: seq<Entry>, b: seq<Entry>)
    ensures TotalSize(a + b) == TotalSize(a) + TotalSize(b) && Absent(a + b) == Absent(a) + Absent(b)
  {
    if b == [] {
      assert a + b == a;
    } else {
      assert (a + b)[..|a + b| - 1] == a + b[..|b| - 1];
      TotalsAppend(a, b[..|b| - 1]);
    }
  }

  /** Capping on the way changes nothing the last cap does not. */
  lemma CapOfCaps(a: nat, b: nat, c: nat)
    requires Saturated(a) == Saturated(b)
    ensures Saturated(a + c) == Saturated(b + Saturated(c))
  {
  }

  lemma {:induction false} PartialTotals(entries: seq<Entry>, at: string, folders: seq<Folder>, i: nat)
    requires Tidy(entries) && Clean(at) && FoldersRight(entries, at, folders) && i <= |folders|
    ensures var below, files := Pick(entries, at, true, NameSet(folders[..i])), Pick(entries, at, true, {});
            |below| == |files| + FilesOf(folders[..i])
            && Saturated(TotalSize(below)) == Saturated(TotalSize(files) + SizesOf(folders[..i]))
            && Absent(below) == Absent(files) + NotHereOf(folders[..i])
  {
    hide FoldersRight, Pick, NamesIn, Everything, Saturated;
    if i == 0 {
      assert folders[..0] == [];
      NoNames();
    } else {
      PartialTotals(entries, at, folders, i - 1);
      AddFolder(entries, at, folders, i - 1);
      var before, files := Pick(entries, at, true, NameSet(folders[..i - 1])), Pick(entries, at, true, {});
      var own := Everything(entries, folders[i - 1].path);
      assert folders[..i][..|folders[..i]| - 1] == folders[..i - 1];
      CapOfCaps(TotalSize(before), TotalSize(files) + SizesOf(folders[..i - 1]), TotalSize(own));
    }
  }

  lemma AddFolder(entries: seq<Entry>, at: string, folders: seq<Folder>, i: nat)
    requires Tidy(entries) && Clean(at) && FoldersRight(entries, at, folders) && i < |folders|
    ensures var before := Pick(entries, at, true, NameSet(folders[..i]));
            var after := Pick(entries, at, true, NameSet(folders[..i + 1]));
            var f, own := folders[i], Everything(entries, folders[i].path);
            |after| == |before| + f.files && f.files == |own|
            && TotalSize(after) == TotalSize(before) + TotalSize(own) && f.size == Saturated(TotalSize(own))
            && Absent(after) == Absent(before) + f.notHere && f.notHere == Absent(own)
  {
    hide Pick, NamesIn, Everything;
    ListedFolder(entries, at, folders, i);
    var before := Pick(entries, at, true, NameSet(folders[..i]));
    var after := Pick(entries, at, true, NameSet(folders[..i + 1]));
    var own := Everything(entries, folders[i].path);
    TotalsOfSameFiles(after, before + own);
    TotalsAppend(before, own);
  }

  /** At every depth of a tidy account, a folder's line counts everything below
      it, and equals what its own level shows: the files there and the lines of
      the folders there, sizes held to 64 bits. */
  lemma FiguresAgree(entries: seq<Entry>, wanted: string, level: Level, f: Folder, next: Level)
    requires Tidy(entries) && IsLevel(entries, wanted, level) && f in level.folders
    requires IsLevel(entries, f.path, next)
    ensures var all := Everything(entries, f.path);
            f.files == |all| && f.size == Saturated(TotalSize(all)) && f.notHere == Absent(all)
    ensures f.files == |next.files| + FilesOf(next.folders)
    ensures f.size == Saturated(TotalSize(next.files) + SizesOf(next.folders))
    ensures f.notHere == Absent(next.files) + NotHereOf(next.folders)
  {
    hide FoldersRight, IsNearest, Pick, NamesIn, Everything, Saturated, Tidy;
    NearestIsClean(entries, wanted, level.at);
    DescentAnswersItself(entries, level, wanted, f, next);
    var i :| 0 <= i < |level.folders| && level.folders[i] == f;
    ListedFolder(entries, level.at, level.folders, i);
    AddFolder(entries, level.at, level.folders, i);
    LevelTotals(entries, f.path, next);
  }

  /** What a level shows adds up to everything below it. */
  lemma LevelTotals(entries: seq<Entry>, wanted: string, level: Level)
    requires Tidy(entries) && IsLevel(entries, wanted, level)
    ensures var all := Everything(entries, level.at);
            |all| == |level.files| + FilesOf(level.folders)
            && Saturated(TotalSize(all)) == Saturated(TotalSize(level.files) + SizesOf(level.folders))
            && Absent(all) == Absent(level.files) + NotHereOf(level.folders)
  {
    hide IsNearest, Pick, NamesIn, Everything, Saturated, Tidy, FolderOf;
    NearestIsClean(entries, wanted, level.at);
    PartialTotals(entries, level.at, level.folders, |level.folders|);
    assert level.folders[..|level.folders|] == level.folders;
    PickAll(entries, level.at, NameSet(level.folders));
    TotalsOfSameFiles(level.files, Pick(entries, level.at, true, {}));
  }

  lemma {:induction false} PickAppend(a: seq<Entry>, b: seq<Entry>, at: string, files: bool, names: set<string>)
    ensures Pick(a + b, at, files, names) == Pick(a, at, files, names) + Pick(b, at, files, names)
  {
    if b == [] {
      assert a + b == a;
    } else {
      assert (a + b)[..|a + b| - 1] == a + b[..|b| - 1];
      PickAppend(a, b[..|b| - 1], at, files, names);
    }
  }

  lemma {:induction false} PickOfSameFiles(a: seq<Entry>, b: seq<Entry>, at: string, files: bool, names: set<string>)
    requires multiset(a) == multiset(b)
    ensures multiset(Pick(a, at, files, names)) == multiset(Pick(b, at, files, names))
  {
    hide Pick;
    if a == [] {
      assert |multiset(b)| == 0 && b == [];
    } else {
      var k := FindLast(a, b);
      var most, last := a[..|a| - 1], a[|a| - 1];
      PickOfSameFiles(most, b[..k] + b[k + 1..], at, files, names);
      PickAppend(b[..k], b[k + 1..], at, files, names);
      PickAppend(b[..k], [last], at, files, names);
      PickAppend(b[..k] + [last], b[k + 1..], at, files, names);
      PickAppend(most, [last], at, files, names);
      assert a == most + [last];
    }
  }

  lemma SameLine(a: seq<Entry>, b: seq<Entry>, at: string, name: string)
    requires multiset(a) == multiset(b)
    ensures FolderOf(a, at, name) == FolderOf(b, at, name)
  {
    PickOfSameFiles(a, b, at, false, {name});
    TotalsOfSameFiles(Pick(a, at, false, {name}), Pick(b, at, false, {name}));
  }

  lemma SameEntries(a: seq<Entry>, b: seq<Entry>, i: nat) returns (j: nat)
    requires multiset(a) == multiset(b) && i < |a|
    ensures j < |b| && b[j] == a[i]
  {
    assert a[i] in multiset(a) && a[i] in multiset(b);
    j :| 0 <= j < |b| && b[j] == a[i];
  }

  lemma SameFolders(a: seq<Entry>, b: seq<Entry>, folder: string)
    requires multiset(a) == multiset(b)
    ensures Goes(a, folder) ==> Goes(b, folder)
    ensures NamesIn(a, folder) <= NamesIn(b, folder)
  {
    if i :| 0 <= i < |a| && Below(a[i].path, folder).Some? {
      var j := SameEntries(a, b, i);
    }
    forall name | name in NamesIn(a, folder) ensures name in NamesIn(b, folder) {
      var i :| 0 <= i < |a| && PlaceOf(a[i].path, folder).Under? && PlaceOf(a[i].path, folder).name == name;
      var j := SameEntries(a, b, i);
    }
  }

  lemma SameLevel(a: seq<Entry>, b: seq<Entry>, wanted: string, level: Level)
    requires multiset(a) == multiset(b) && IsLevel(a, wanted, level)
    ensures IsLevel(b, wanted, level)
  {
    forall folder ensures Goes(a, folder) == Goes(b, folder) && NamesIn(a, folder) == NamesIn(b, folder) {
      SameFolders(a, b, folder);
      SameFolders(b, a, folder);
    }
    PickOfSameFiles(a, b, level.at, true, {});
    forall f | f in level.folders ensures FolderOf(a, level.at, f.name) == FolderOf(b, level.at, f.name) {
      SameLine(a, b, level.at, f.name);
    }
    hide Goes, NamesIn, Pick, FolderOf, Above, TrimSlashes;
  }

  /** The order the account is listed in changes nothing of the answer: the folder
      answered for, its files, its folders and their figures. */
  lemma OrderChangesNothing(a: seq<Entry>, b: seq<Entry>, wanted: string, level: Level)
    requires multiset(a) == multiset(b)
    ensures IsLevel(a, wanted, level) <==> IsLevel(b, wanted, level)
  {
    hide IsLevel;
    if IsLevel(a, wanted, level) {
      SameLevel(a, b, wanted, level);
    }
    if IsLevel(b, wanted, level) {
      SameLevel(b, a, wanted, level);
    }
  }

  // ------------------------------------------ one answer for an account

  /** The folder of a name, in a list of an account's folders, is there once. */
  lemma {:induction false} OneOfName(entries: seq<Entry>, at: string, folders: seq<Folder>, name: string)
    requires |NameSet(folders)| == |folders|
    requires forall f :: f in folders ==> f == FolderOf(entries, at, f.name)
    ensures WithKey(folders, OwnName(), name)
         == if name in NameSet(folders) then [FolderOf(entries, at, name)] else []
  {
    if folders == [] {
      NoNames();
    } else {
      var most, last := folders[..|folders| - 1], folders[|folders| - 1];
      assert folders == most + [last] && OwnName()(last) == last.name;
      hide FolderOf, NameSet, WithKey, OwnName;
      LastNameIsNew(folders);
      assert forall f :: f in most ==> f in folders;
      OneOfName(entries, at, most, name);
      WithKeyOneMore(most, last, OwnName(), name);
    }
  }

  lemma LastNameIsNew(folders: seq<Folder>)
    requires folders != [] && |NameSet(folders)| == |folders|
    ensures var most, last := folders[..|folders| - 1], folders[|folders| - 1];
            |NameSet(most)| == |most| && last.name !in NameSet(most) && NameSet(folders) == NameSet(most) + {last.name}
  {
    hide NameSet;
    var most, last := folders[..|folders| - 1], folders[|folders| - 1];
    assert folders == most + [last];
    NameSetOneMore(most, last);
    NameSetSize(most);
    assert last.name in NameSet(most) ==> NameSet(most) + {last.name} == NameSet(most);
  }

  /** The folders of one account, in two lists of them each in order, are listed
      alike. */
  lemma SameFolderLists(entries: seq<Entry>, at: string, a: seq<Folder>, b: seq<Folder>, lower: string -> string)
    requires FoldersRight(entries, at, a) && FoldersRight(entries, at, b)
    requires Ordered(a, ByName(lower)) && forall k :: Ordered(WithKey(a, ByName(lower), k), OwnName())
    requires Ordered(b, ByName(lower)) && forall k :: Ordered(WithKey(b, ByName(lower), k), OwnName())
    ensures a == b
  {
    var key, own := ByName(lower), OwnName();
    hide FolderOf, NamesIn, NameSet, ByName, OwnName, Ordered;
    forall k ensures WithKey(a, key, k) == WithKey(b, key, k) {
      forall name ensures WithKey(WithKey(a, key, k), own, name) == WithKey(WithKey(b, key, k), own, name) {
        KeysCommute(a, key, k, own, name);
        KeysCommute(b, key, k, own, name);
        OneOfName(entries, at, a, name);
        OneOfName(entries, at, b, name);
      }
      OneOrderedList(WithKey(a, key, k), WithKey(b, key, k), own);
    }
    OneOrderedList(a, b, key);
  }

  /** Two accounts of the same files are answered alike but for one thing: where
      files directly in the folder have equal lower-cased paths, they are listed as
      the account lists them. */
  lemma OrderMattersAmongEqualsOnly(a: seq<Entry>, b: seq<Entry>, wanted: string, lower: string -> string,
                                    x: Level, y: Level)
    requires multiset(a) == multiset(b)
    requires IsLevel(a, wanted, x) && ListedInOrder(a, x, lower)
    requires IsLevel(b, wanted, y) && ListedInOrder(b, y, lower)
    ensures x.at == y.at && x.folders == y.folders && multiset(x.files) == multiset(y.files)
    ensures x == y <==> SameByKey(Pick(a, x.at, true, {}), Pick(b, x.at, true, {}), ByPath(lower))
  {
    OrderChangesNothing(a, b, wanted, y);
    NearestIsUnique(a, wanted, x.at, y.at);
    SameFolderLists(a, x.at, x.folders, y.folders, lower);
    hide FoldersRight, IsNearest, Pick, Ordered, WithKey, ByPath, ByName, OwnName;
    if SameByKey(Pick(a, x.at, true, {}), Pick(b, x.at, true, {}), ByPath(lower)) {
      OneOrderedList(x.files, y.files, ByPath(lower));
    }
  }

  /** So the answer for an account is one. */
  lemma OneAnswer(entries: seq<Entry>, wanted: string, lower: string -> string, x: Level, y: Level)
    requires IsLevel(entries, wanted, x) && ListedInOrder(entries, x, lower)
    requires IsLevel(entries, wanted, y) && ListedInOrder(entries, y, lower)
    ensures x == y
  {
    hide IsLevel, ListedInOrder, Pick, WithKey, ByPath;
    OrderMattersAmongEqualsOnly(entries, entries, wanted, lower, x, y);
  }

  // --------------------------------------------- when the walk comes to an end

  /** The folders answered to somebody who starts at the root and taps, each
      time, one of the folders listed. */
  ghost predicate Trail(entries: seq<Entry>, trail: seq<string>) {
    trail != [] && trail[0] == ""
    && forall i :: 0 <= i < |trail| - 1 ==> Taps(entries, trail[i], trail[i + 1])
  }

  ghost predicate Taps(entries: seq<Entry>, at: string, next: string) {
    exists name :: name in NamesIn(entries, at) && IsNearest(entries, Join(at, name), next)
  }

  lemma {:induction false} TidyTrail(entries: seq<Entry>, trail: seq<string>)
    requires Tidy(entries) && Trail(entries, trail)
    ensures var last := trail[|trail| - 1];
            Clean(last) && (last == "" || Goes(entries, last)) && |trail| <= |last| + 1
  {
    hide Taps, Tidy, Clean, Goes;
    if |trail| == 1 {
      RootIsClean();
    } else {
      var before := trail[..|trail| - 1];
      var at, next := trail[|trail| - 2], trail[|trail| - 1];
      assert forall i :: 0 <= i < |before| ==> before[i] == trail[i];
      forall i | 0 <= i < |before| - 1 ensures Taps(entries, before[i], before[i + 1]) {
        assert Taps(entries, trail[i], trail[i + 1]);
      }
      TidyTrail(entries, before);
      assert Taps(entries, trail[|trail| - 2], trail[|trail| - 2 + 1]);
      TapGoesDown(entries, at, next);
    }
  }

  lemma TapGoesDown(entries: seq<Entry>, at: string, next: string)
    requires Tidy(entries) && Clean(at) && Taps(entries, at, next)
    ensures Clean(next) && Goes(entries, next) && |at| < |next|
  {
    hide NamesIn, IsNearest, Goes, Tidy, Clean;
    var name :| name in NamesIn(entries, at) && IsNearest(entries, Join(at, name), next);
    NameIsAWord(entries, at, name);
    ItsOwnNearest(entries, Join(at, name), next);
  }

  lemma TrailOneMore(entries: seq<Entry>, trail: seq<string>, next: string)
    requires Trail(entries, trail) && Taps(entries, trail[|trail| - 1], next)
    ensures Trail(entries, trail + [next])
  {
    var longer := trail + [next];
    forall i | 0 <= i < |longer| - 1 ensures Taps(entries, longer[i], longer[i + 1]) {
      if i < |trail| - 1 {
        assert Taps(entries, trail[i], trail[i + 1]);
      }
    }
  }

  /** A clean prefix of a path, cut before a slash, is reached from the root. */
  lemma {:induction false} TrailTo(entries: seq<Entry>, e: nat, k: nat) returns (trail: seq<string>)
    requires e < |entries| && 0 < k < |entries[e].path| && entries[e].path[k] == '/'
    requires TidyPath(entries[e].path[..k]) && entries[e].path[k - 1] != '/'
    ensures Trail(entries, trail) && trail[|trail| - 1] == entries[e].path[..k] && Goes(entries, entries[e].path[..k])
    decreases k
  {
    var path := entries[e].path;
    var folder := path[..k];
    var cut := LastSlash(folder);
    if cut.Some? {
      var c := cut.value;
      assert TidyPath(folder) && folder[c] == path[c] && folder[c - 1] == path[c - 1];
      assert path[..c] == folder[..c];
      trail := TrailTo(entries, e, c);
      assert folder == path[..c] + "/" + folder[c + 1..];
      LastStep(entries, e, path[..c], folder[c + 1..], k);
    } else {
      trail := [""];
      LastStep(entries, e, "", folder, k);
    }
    TrailOneMore(entries, trail, folder);
    trail := trail + [folder];
  }

  lemma LastStep(entries: seq<Entry>, e: nat, up: string, name: string, k: nat)
    requires e < |entries| && 0 < k < |entries[e].path| && entries[e].path[k] == '/'
    requires entries[e].path[..k] == Join(up, name) && '/' !in name && name != "" && Clean(Join(up, name))
    ensures Taps(entries, up, Join(up, name)) && Goes(entries, Join(up, name))
  {
    var path, folder := entries[e].path, Join(up, name);
    assert path == folder + "/" + path[k + 1..];
    BelowIs(path, folder, path[k + 1..]);
    UnderIsBelow(path, up, name);
    assert name in NamesIn(entries, up) by {
      assert PlaceOf(entries[e].path, up) == Under(name);
    }
    CleanIsTrimmed(folder);
    StepDown(entries, up, name, folder);
  }

  lemma StepDown(entries: seq<Entry>, at: string, name: string, folder: string)
    requires name in NamesIn(entries, at) && TrimSlashes(Join(at, name)) == folder
    requires folder == "" || Goes(entries, folder)
    ensures Taps(entries, at, folder)
  {
    assert IsNearest(entries, Join(at, name), folder);
  }

  /** The first empty folder of an untidy path. */
  lemma {:induction false} FirstEmptyFolder(path: string) returns (k: nat)
    requires !TidyPath(path)
    ensures k < |path| && path[k] == '/' && (k == 0 || path[k - 1] == '/') && TidyPath(path[..k])
  {
    k := 0;
    while !(path[k] == '/' && (k == 0 || path[k - 1] == '/'))
      invariant k < |path| && TidyPath(path[..k])
      invariant exists j :: k <= j < |path| && path[j] == '/' && (j == 0 || path[j - 1] == '/')
      decreases |path| - k
    {
      k := k + 1;
    }
  }

  /** An empty folder on a path is answered for by the folder above it, so it can
      be tapped for ever. */
  lemma EmptyFolderLoops(entries: seq<Entry>) returns (trail: seq<string>)
    requires !Tidy(entries)
    ensures Trail(entries, trail) && Taps(entries, trail[|trail| - 1], trail[|trail| - 1])
  {
    var e :| 0 <= e < |entries| && !TidyPath(entries[e].path);
    hide TidyPath, Goes, Clean, Taps;
    var path := entries[e].path;
    var k := FirstEmptyFolder(path);
    if k == 0 {
      trail := [""];
      RootIsClean();
      EmptyStep(entries, e, "", 0);
    } else {
      BeforeTheEmpty(path, k);
      trail := TrailTo(entries, e, k - 1);
      EmptyStep(entries, e, path[..k - 1], k);
    }
  }

  lemma RootIsClean()
    ensures Clean("")
  {
  }

  lemma BeforeTheEmpty(path: string, k: nat)
    requires 0 < k < |path| && path[k - 1] == '/' && TidyPath(path[..k])
    ensures k >= 2 && path[k - 2] != '/' && TidyPath(path[..k - 1])
    ensures Clean(path[..k - 1]) && path[..k - 1] + "/" == path[..k]
  {
    var s := path[..k];
    assert s[k - 1] == '/';
    assert forall i :: 0 <= i < k - 1 ==> path[..k - 1][i] == s[i];
  }

  lemma EmptyStep(entries: seq<Entry>, e: nat, at: string, k: nat)
    requires e < |entries| && k < |entries[e].path| && entries[e].path[k] == '/'
    requires if k == 0 then at == "" else at != "" && at + "/" == entries[e].path[..k]
    requires Clean(at) && (at == "" || Goes(entries, at))
    ensures Taps(entries, at, at)
  {
    var path := entries[e].path;
    assert path == (if k == 0 then path[k..] else at + "/" + path[k..]);
    BelowIs(path, at, path[k..]);
    SplitOnceAppended("", '/', path[k + 1..]);
    assert path[k..] == "" + "/" + path[k + 1..];
    assert PlaceOf(entries[e].path, at) == Under("");
    EmptyJoin(at);
    StepDown(entries, at, "", at);
  }

  lemma EmptyJoin(at: string)
    requires Clean(at)
    ensures TrimSlashes(Join(at, "")) == at
  {
    if at != "" {
      var s := at + "/" + "";
      assert s[..|s| - 1] == at;
      assert TrimSlashStart(s) == s;
      assert TrimSlashEnd(s) == TrimSlashEnd(at);
      CleanIsTrimmed(at);
    }
  }

  lemma {:induction false} TappedForEver(entries: seq<Entry>, trail: seq<string>, n: nat) returns (longer: seq<string>)
    requires Trail(entries, trail) && Taps(entries, trail[|trail| - 1], trail[|trail| - 1])
    ensures Trail(entries, longer) && |longer| == |trail| + n
    ensures longer[|longer| - 1] == trail[|trail| - 1]
  {
    longer := trail;
    if n > 0 {
      longer := TappedForEver(entries, trail, n - 1);
      TrailOneMore(entries, longer, trail[|trail| - 1]);
      longer := longer + [trail[|trail| - 1]];
    }
  }

  ghost predicate NoTrailLonger(entries: seq<Entry>, n: nat) {
    forall trail :: Trail(entries, trail) ==> |trail| <= n
  }

  /** Tapping down comes to an end exactly in the tidy accounts: with a path that
      starts with a slash or holds two together, it can go on for ever. */
  lemma WalkEndsIffTidy(entries: seq<Entry>)
    ensures Tidy(entries) <==> exists n: nat :: NoTrailLonger(entries, n)
  {
    hide Trail, Tidy;
    if Tidy(entries) {
      TidyTrailsAreShort(entries);
    } else {
      var loop := EmptyFolderLoops(entries);
      forall n: nat ensures !NoTrailLonger(entries, n) {
        var longer := TappedForEver(entries, loop, n + 1);
      }
    }
  }

  lemma TidyTrailsAreShort(entries: seq<Entry>)
    requires Tidy(entries)
    ensures NoTrailLonger(entries, Longest(entries) + 1)
  {
    forall trail | Trail(entries, trail) ensures |trail| <= Longest(entries) + 1 {
      TidyTrail(entries, trail);
      if trail[|trail| - 1] != "" {
        GoesIsShorter(entries, trail[|trail| - 1]);
      }
    }
  }

  /** One such account: the root lists a folder with no name, and tapping it answers
      the root. */
  lemma LeadingSlashLoops(n: nat) returns (trail: seq<string>)
    ensures var entries := [Entry("/a", 0, 0, true)];
            Taps(entries, "", "") && Trail(entries, trail) && |trail| == n + 1 && forall at :: at in trail ==> at == ""
  {
    var entries := [Entry("/a", 0, 0, true)];
    RootIsClean();
    assert entries[0].path[0] == '/';
    EmptyStep(entries, 0, "", 0);
    trail := [""];
    for i := 0 to n
      invariant Trail(entries, trail) && |trail| == i + 1 && forall at :: at in trail ==> at == ""
    {
      assert trail[|trail| - 1] in trail;
      TrailOneMore(entries, trail, "");
      trail := trail + [""];
    }
  }
}
