/** One folder of an account on the paths alone: what `level` of
    `crates/itsanas-cli/src/file_tree.rs` answers, written out with prefixes. */
module TreeRules {
  import opened FileTree
  import opened Sorting
  import opened Text

  /** What every path in the folder starts with. */
  function Front(folder: string): string {
    if folder == "" then "" else folder + "/"
  }

  // --------------------------------------------- the folder answered for

  /** The text without the slashes at its ends. */
  predicate Trimmed(text: string, inner: string) {
    exists i, j :: 0 <= i <= j <= |text| && inner == text[i..j] && AllSlashes(text[..i]) && AllSlashes(text[j..])
                   && (inner == "" || (inner[0] != '/' && inner[|inner| - 1] != '/'))
  }

  predicate AllSlashes(s: string) {
    forall k :: 0 <= k < |s| ==> s[k] == '/'
  }

  lemma {:induction false} StartTrimmed(s: string) returns (i: nat)
    ensures i <= |s| && TrimSlashStart(s) == s[i..] && AllSlashes(s[..i])
    ensures i < |s| ==> s[i] != '/'
  {
    i := 0;
    if s != [] && s[0] == '/' {
      var k := StartTrimmed(s[1..]);
      i := k + 1;
      assert s[..i] == [s[0]] + s[1..][..k] && s[i..] == s[1..][k..];
    }
  }

  lemma {:induction false} EndTrimmed(s: string) returns (j: nat)
    ensures j <= |s| && TrimSlashEnd(s) == s[..j] && AllSlashes(s[j..])
    ensures j > 0 ==> s[j - 1] != '/'
  {
    j := |s|;
    if s != [] && s[|s| - 1] == '/' {
      j := EndTrimmed(s[..|s| - 1]);
      assert s[j..] == s[..|s| - 1][j..] + [s[|s| - 1]];
      assert s[..|s| - 1][..j] == s[..j];
    }
  }

  lemma SlashesAreTrimmed(text: string)
    ensures Trimmed(text, TrimSlashes(text))
  {
    var i := StartTrimmed(text);
    var rest := text[i..];
    var j := EndTrimmed(rest);
    assert rest[..j] == text[i..i + j] && text[i + j..] == rest[j..];
    hide TrimSlashStart, TrimSlashEnd, AllSlashes;
    assert TrimSlashes(text) == text[i..i + j];
    if j > 0 {
      assert rest[..j][0] == rest[0] == text[i] && rest[..j][j - 1] == rest[j - 1];
    }
  }

  lemma BelowMeans(path: string, folder: string)
    ensures Below(path, folder).Some? <==> Front(folder) <= path
    ensures Front(folder) <= path ==> Below(path, folder) == Some(path[|Front(folder)|..])
  {
    if Below(path, folder).Some? {
      BelowSays(path, folder);
    }
    if Front(folder) <= path {
      BelowIs(path, folder, path[|Front(folder)|..]);
    }
  }

  /** Some file's path is in the folder. */
  predicate HasFiles(entries: seq<Entry>, folder: string) {
    exists i :: 0 <= i < |entries| && Front(folder) <= entries[i].path
  }

  lemma GoesMeans(entries: seq<Entry>, folder: string)
    ensures Goes(entries, folder) <==> HasFiles(entries, folder)
  {
    forall i | 0 <= i < |entries| ensures Below(entries[i].path, folder).Some? <==> Front(folder) <= entries[i].path {
      BelowMeans(entries[i].path, folder);
    }
    hide Below, Front;
    if i :| 0 <= i < |entries| && Below(entries[i].path, folder).Some? {
      assert Front(folder) <= entries[i].path;
    }
    if i :| 0 <= i < |entries| && Front(folder) <= entries[i].path {
      assert Below(entries[i].path, folder).Some?;
    }
  }

  /** The folder, or one it is in. */
  predicate AtOrOver(p: string, folder: string) {
    p == folder || Front(p) <= folder
  }

  lemma AboveMeans(p: string, folder: string)
    ensures Above(p, folder) <==> AtOrOver(p, folder)
  {
  }

  /** The answer is for the folder asked for, slashes at its ends aside, or the
      nearest one over it that a file's path is in; the root when there is none. */
  lemma LevelStands(entries: seq<Entry>, wanted: string, level: Level) returns (folder: string)
    requires IsLevel(entries, wanted, level)
    ensures Trimmed(wanted, folder)
    ensures AtOrOver(level.at, folder) && (level.at == "" || HasFiles(entries, level.at))
    ensures forall p :: AtOrOver(p, folder) && |p| > |level.at| ==> !HasFiles(entries, p)
  {
    folder := TrimSlashes(wanted);
    SlashesAreTrimmed(wanted);
    AboveMeans(level.at, folder);
    GoesMeans(entries, level.at);
    hide Trimmed, Goes, HasFiles;
    forall p | AtOrOver(p, folder) && |p| > |level.at| ensures !HasFiles(entries, p) {
      AboveMeans(p, folder);
      GoesMeans(entries, p);
    }
  }

  // ----------------------------------------------------------- the files

  /** A path directly in the folder: nothing after the folder's front is a slash. */
  predicate DirectlyIn(path: string, at: string) {
    Front(at) <= path && '/' !in path[|Front(at)|..]
  }

  lemma HereMeans(path: string, at: string)
    ensures PlaceOf(path, at) == Here <==> DirectlyIn(path, at)
  {
    BelowMeans(path, at);
    if Front(at) <= path {
      FindMeans(path[|Front(at)|..]);
    }
    hide Below, Front;
  }

  lemma FindMeans(s: string)
    ensures SplitOnce(s, '/').None? <==> '/' !in s
    ensures SplitOnce(s, '/').Some? ==>
              var (name, _) := SplitOnce(s, '/').value; '/' !in name && name + "/" <= s
  {
    if SplitOnce(s, '/').Some? {
      SplitSays(s);
    }
  }

  /** The files listed are those directly in the folder, each as often as the
      account lists it. */
  lemma LevelFiles(entries: seq<Entry>, wanted: string, level: Level, e: Entry)
    requires IsLevel(entries, wanted, level)
    ensures multiset(level.files)[e] == if DirectlyIn(e.path, level.at) then multiset(entries)[e] else 0
  {
    HereMeans(e.path, level.at);
    PickCopies(entries, level.at, e);
    hide DirectlyIn, Pick, FoldersRight, IsNearest;
  }

  lemma {:induction false} PickCopies(entries: seq<Entry>, at: string, e: Entry)
    ensures multiset(Pick(entries, at, true, {}))[e] == if PlaceOf(e.path, at).Here? then multiset(entries)[e] else 0
  {
    if entries != [] {
      var most, last := entries[..|entries| - 1], entries[|entries| - 1];
      assert entries == most + [last];
      hide PlaceOf;
      PickCopies(most, at, e);
    }
  }

  // --------------------------------------------------------- the folders

  lemma UnderMeans(path: string, at: string, name: string)
    ensures PlaceOf(path, at) == Under(name) <==> '/' !in name && Front(at) + name + "/" <= path
  {
    BelowMeans(path, at);
    var front := Front(at);
    hide Below, Front;
    if PlaceOf(path, at) == Under(name) {
      var rest := path[|front|..];
      FindMeans(rest);
      assert path == front + rest && rest == name + "/" + rest[|name| + 1..];
      AppendAssociates(front, name + "/", rest[|name| + 1..]);
      AppendAssociates(front, name, "/");
    }
    if '/' !in name && front + name + "/" <= path {
      var deep := path[|front + name + "/"|..];
      assert path == front + name + "/" + deep;
      assert front <= path && path[|front|..] == name + "/" + deep;
      SplitOnceAppended(name, '/', deep);
    }
  }

  /** How many of the paths start so. */
  function FilesStarting(entries: seq<Entry>, front: string): nat {
    if entries == [] then 0
    else FilesStarting(entries[..|entries| - 1], front) + if front <= entries[|entries| - 1].path then 1 else 0
  }

  /** Their sizes together. */
  function SizeStarting(entries: seq<Entry>, front: string): nat {
    if entries == [] then 0
    else
      SizeStarting(entries[..|entries| - 1], front)
      + if front <= entries[|entries| - 1].path then entries[|entries| - 1].size else 0
  }

  /** How many of them this device does not hold. */
  function MissingStarting(entries: seq<Entry>, front: string): nat {
    if entries == [] then 0
    else
      MissingStarting(entries[..|entries| - 1], front)
      + if front <= entries[|entries| - 1].path && !entries[|entries| - 1].here then 1 else 0
  }

  lemma {:induction false} CountsMean(entries: seq<Entry>, at: string, name: string)
    requires '/' !in name
    ensures var below, front := Pick(entries, at, false, {name}), Front(at) + name + "/";
            |below| == FilesStarting(entries, front) && TotalSize(below) == SizeStarting(entries, front)
            && Absent(below) == MissingStarting(entries, front)
  {
    if entries != [] {
      var most, e := entries[..|entries| - 1], entries[|entries| - 1];
      CountsMean(most, at, name);
      UnderMeans(e.path, at, name);
      hide PlaceOf, Front;
      var below := Pick(most, at, false, {name});
      assert (below + [e])[..|below + [e]| - 1] == below;
    }
  }

  /** A folder of that name is in the folder. */
  predicate FolderNamed(entries: seq<Entry>, at: string, name: string) {
    '/' !in name && exists i :: 0 <= i < |entries| && Front(at) + name + "/" <= entries[i].path
  }

  lemma NamesMean(entries: seq<Entry>, at: string, name: string)
    ensures name in NamesIn(entries, at) <==> FolderNamed(entries, at, name)
  {
    forall i | 0 <= i < |entries|
      ensures PlaceOf(entries[i].path, at) == Under(name)
              <==> '/' !in name && Front(at) + name + "/" <= entries[i].path
    {
      UnderMeans(entries[i].path, at, name);
    }
    hide PlaceOf, Front;
  }

  /** Every folder in the one answered for is listed, once, and no other; each with
      its path, the files below it at any depth, their sizes held to 64 bits, and
      how many of them are not here. */
  lemma LevelFolders(entries: seq<Entry>, wanted: string, level: Level)
    requires IsLevel(entries, wanted, level)
    ensures forall i, j :: 0 <= i < j < |level.folders| ==> level.folders[i].name != level.folders[j].name
    ensures forall name :: FolderNamed(entries, level.at, name) <==> exists f :: f in level.folders && f.name == name
    ensures forall f :: f in level.folders ==>
              f.path == Front(level.at) + f.name
              && f.files == FilesStarting(entries, f.path + "/")
              && f.size == Lesser(SizeStarting(entries, f.path + "/"), 0xFFFF_FFFF_FFFF_FFFF)
              && f.notHere == MissingStarting(entries, f.path + "/")
  {
    hide IsNearest, Pick, FolderOf, NamesIn, FolderNamed, FilesStarting, SizeStarting, MissingStarting;
    forall i, j | 0 <= i < j < |level.folders| ensures level.folders[i].name != level.folders[j].name {
      AllApart(level.folders, i, j);
    }
    forall name ensures FolderNamed(entries, level.at, name) <==> exists f :: f in level.folders && f.name == name {
      NamesMean(entries, level.at, name);
    }
    forall f | f in level.folders
      ensures f.path == Front(level.at) + f.name
              && f.files == FilesStarting(entries, f.path + "/")
              && f.size == Lesser(SizeStarting(entries, f.path + "/"), 0xFFFF_FFFF_FFFF_FFFF)
              && f.notHere == MissingStarting(entries, f.path + "/")
    {
      assert f.name in NameSet(level.folders);
      NamesMean(entries, level.at, f.name);
      LineMeans(entries, level.at, f.name);
    }
  }

  function Lesser(a: nat, b: nat): nat {
    if a <= b then a else b
  }

  lemma LineMeans(entries: seq<Entry>, at: string, name: string)
    requires FolderNamed(entries, at, name)
    ensures var f := FolderOf(entries, at, name);
            f.path == Front(at) + f.name
            && f.files == FilesStarting(entries, f.path + "/")
            && f.size == Lesser(SizeStarting(entries, f.path + "/"), 0xFFFF_FFFF_FFFF_FFFF)
            && f.notHere == MissingStarting(entries, f.path + "/")
  {
    CountsMean(entries, at, name);
    hide Pick, TotalSize, Absent, FilesStarting, SizeStarting, MissingStarting;
  }

  lemma AllApart(folders: seq<Folder>, i: nat, j: nat)
    requires |NameSet(folders)| == |folders| && i < j < |folders|
    ensures folders[i].name != folders[j].name
  {
    NamesApart(folders, j);
  }

  // ----------------------------------------------------------- the order

  /** In the order of a dictionary: the shorter first, or the smaller character
      where they first differ. */
  predicate NotLater(a: string, b: string) {
    a <= b || exists k :: 0 <= k < |a| && k < |b| && a[..k] == b[..k] && a[k] < b[k]
  }

  lemma {:induction false} NotAfterMeans(a: string, b: string)
    ensures NotAfter(a, b) <==> NotLater(a, b)
  {
    if a != "" && b != "" && a[0] == b[0] {
      NotAfterMeans(a[1..], b[1..]);
      hide NotLater;
      if NotLater(a[1..], b[1..]) {
        LaterByOneMore(a, b);
      }
      if NotLater(a, b) {
        LaterByOneLess(a, b);
      }
    } else if a != "" && b != "" {
      assert a[..0] == b[..0];
      assert forall k :: 0 < k < |a| && k < |b| && a[..k] == b[..k] ==> a[..k][0] == b[..k][0];
    }
  }

  lemma LaterByOneMore(a: string, b: string)
    requires a != "" && b != "" && a[0] == b[0] && NotLater(a[1..], b[1..])
    ensures NotLater(a, b)
  {
    assert a == [a[0]] + a[1..] && b == [b[0]] + b[1..];
    if k :| 0 <= k < |a[1..]| && k < |b[1..]| && a[1..][..k] == b[1..][..k] && a[1..][k] < b[1..][k] {
      assert a[..k + 1] == [a[0]] + a[1..][..k] && b[..k + 1] == [b[0]] + b[1..][..k];
      assert a[k + 1] < b[k + 1];
    }
  }

  lemma LaterByOneLess(a: string, b: string)
    requires a != "" && b != "" && a[0] == b[0] && NotLater(a, b)
    ensures NotLater(a[1..], b[1..])
  {
    if a <= b {
      assert b[1..][..|a| - 1] == b[..|a|][1..] == a[1..];
    } else {
      var k :| 0 <= k < |a| && k < |b| && a[..k] == b[..k] && a[k] < b[k];
      assert a[1..][..k - 1] == a[..k][1..] && b[1..][..k - 1] == b[..k][1..];
      assert a[1..][k - 1] < b[1..][k - 1];
    }
  }

  /** Files stand in the order of their lower-cased paths, folders in that of their
      lower-cased names, and by name among those that are the same in lower case. */
  lemma LevelOrder(entries: seq<Entry>, level: Level, lower: string -> string, i: nat, j: nat)
    requires ListedInOrder(entries, level, lower) && i < j
    ensures j < |level.files| ==> NotLater(lower(level.files[i].path), lower(level.files[j].path))
    ensures j < |level.folders| ==>
              NotLater(lower(level.folders[i].name), lower(level.folders[j].name))
              && (lower(level.folders[i].name) == lower(level.folders[j].name) ==>
                    NotLater(level.folders[i].name, level.folders[j].name))
  {
    hide NotLater, NotAfter, WithKey;
    if j < |level.files| {
      NotAfterMeans(lower(level.files[i].path), lower(level.files[j].path));
      assert ByPath(lower)(level.files[i]) == lower(level.files[i].path);
    }
    if j < |level.folders| {
      var a, b := level.folders[i], level.folders[j];
      NotAfterMeans(lower(a.name), lower(b.name));
      assert ByName(lower)(a) == lower(a.name) && ByName(lower)(b) == lower(b.name);
      if lower(a.name) == lower(b.name) {
        var k := lower(a.name);
        assert Ordered(WithKey(level.folders, ByName(lower), k), OwnName());
        var x, y := PlacesWithKey(level.folders, ByName(lower), k, i, j);
        assert OwnName()(a) == a.name && OwnName()(b) == b.name;
        NotAfterMeans(a.name, b.name);
      }
    }
  }

  /** Two of one key stand in the same order among those of that key. */
  lemma {:induction false} PlacesWithKey<T>(s: seq<T>, key: T -> string, k: string, i: nat, j: nat)
    returns (x: nat, y: nat)
    requires i < j < |s| && key(s[i]) == k && key(s[j]) == k
    ensures x < y < |WithKey(s, key, k)| && WithKey(s, key, k)[x] == s[i] && WithKey(s, key, k)[y] == s[j]
    decreases |s|
  {
    var most, n := s[..|s| - 1], |s| - 1;
    if j < n {
      x, y := PlacesWithKey(most, key, k, i, j);
    } else {
      x := PlaceWithKey(most, key, k, i);
      y := |WithKey(most, key, k)|;
    }
  }

  lemma {:induction false} PlaceWithKey<T>(s: seq<T>, key: T -> string, k: string, i: nat) returns (x: nat)
    requires i < |s| && key(s[i]) == k
    ensures x < |WithKey(s, key, k)| && WithKey(s, key, k)[x] == s[i]
    decreases |s|
  {
    var most, n := s[..|s| - 1], |s| - 1;
    if i < n {
      x := PlaceWithKey(most, key, k, i);
    } else {
      x := |WithKey(most, key, k)|;
    }
  }
}
