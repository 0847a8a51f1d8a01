/** The paths a store takes, from `crates/itsanas-store/src/path.rs`, and why every
    account read from a store is one the folder view can walk. */
module StorePath {
  import opened Text
  import opened Utf8
  import opened FileTree

  const MAX_PATH_LEN: nat := 1024
  const MAX_COMPONENT_LEN: nat := 255
  const COLON: byte := 58
  const WINDOWS_RESERVED: set<string> :=
    {"con", "prn", "aux", "nul", "com1", "com2", "com3", "com4", "com5", "com6", "com7", "com8",
     "com9", "lpt1", "lpt2", "lpt3", "lpt4", "lpt5", "lpt6", "lpt7", "lpt8", "lpt9"}

  datatype Refusal =
    | Empty
    | TooLong
    | Backslash
    | Absolute
    | TrailingSlash
    | ControlCharacter
    | DriveLetter
    | EmptyComponent
    | LongComponent
    | RelativeComponent
    | SpaceOrDotAtEnd
    | ReservedName

  /** The control characters of Unicode. */
  predicate IsControl(c: char) {
    c as int < 0x20 || 0x7F <= c as int < 0xA0
  }

  /** `str::split`: one more part than there are separators. */
  function Split(s: string, c: char): (parts: seq<string>)
    ensures parts != []
    decreases |s|
  {
    var k := Find(s, c);
    if k == |s| then [s] else [s[..k]] + Split(s[k + 1..], c)
  }

  function Lowercase(s: string): string {
    seq(|s|, i requires 0 <= i < |s| => Lower(s[i]))
  }

  /** Why the component is refused, if it is. */
  function ComponentRefused(part: string): Option<Refusal> {
    if part == "" then Some(EmptyComponent)
    else if |Encode(part)| > MAX_COMPONENT_LEN then Some(LongComponent)
    else if part == "." || part == ".." then Some(RelativeComponent)
    else if part[|part| - 1] == ' ' || part[|part| - 1] == '.' then Some(SpaceOrDotAtEnd)
    else if Lowercase(Split(part, '.')[0]) in WINDOWS_RESERVED then Some(ReservedName)
    else None
  }

  /** Why the path as a whole is refused, if it is. */
  function WholeRefused(path: string): Option<Refusal> {
    if path == "" then Some(Empty)
    else if |Encode(path)| > MAX_PATH_LEN then Some(TooLong)
    else if '\\' in path then Some(Backslash)
    else if path[0] == '/' then Some(Absolute)
    else if path[|path| - 1] == '/' then Some(TrailingSlash)
    else if exists i :: 0 <= i < |path| && IsControl(path[i]) then Some(ControlCharacter)
    else if |Encode(path)| > 1 && Encode(path)[1] == COLON then Some(DriveLetter)
    else None
  }

  /** A path a store takes: nothing is wrong with it, nor with any part of it. */
  predicate Accepted(path: string) {
    WholeRefused(path).None?
    && forall i :: 0 <= i < |Split(path, '/')| ==> ComponentRefused(Split(path, '/')[i]).None?
  }

  /** `validate`: the first thing wrong, if anything is. */
  method Validate(path: string) returns (refused: Option<Refusal>)
    ensures refused.None? <==> Accepted(path)
    ensures WholeRefused(path).Some? ==> refused == WholeRefused(path)
    ensures WholeRefused(path).None? && refused.Some? ==>
              exists i :: 0 <= i < |Split(path, '/')| && refused == ComponentRefused(Split(path, '/')[i])
                          && forall j :: 0 <= j < i ==> ComponentRefused(Split(path, '/')[j]).None?
  {
    hide ComponentRefused, WholeRefused;
    refused := WholeRefused(path);
    if refused.Some? {
      return;
    }
    var parts := Split(path, '/');
    for i := 0 to |parts|
      invariant forall j :: 0 <= j < i ==> ComponentRefused(parts[j]).None?
    {
      refused := ComponentRefused(parts[i]);
      if refused.Some? {
        return;
      }
    }
    refused := None;
  }

  predicate NoneEmpty(parts: seq<string>) {
    forall i :: 0 <= i < |parts| ==> parts[i] != ""
  }

  lemma NoneEmptyFirst(parts: seq<string>)
    requires parts != []
    ensures NoneEmpty(parts) <==> parts[0] != "" && NoneEmpty(parts[1..])
  {
    if parts[0] != "" && NoneEmpty(parts[1..]) {
      forall i | 0 <= i < |parts| ensures parts[i] != "" {
        assert i > 0 ==> parts[i] == parts[1..][i - 1];
      }
    }
  }

  /** No part between the slashes is empty exactly when the path is tidy, is not
      empty and does not end in a slash. */
  lemma {:induction false} PartsNonEmptyIffTidy(path: string)
    ensures NoneEmpty(Split(path, '/')) <==> path != "" && TidyPath(path) && path[|path| - 1] != '/'
    decreases |path|
  {
    hide Find, Split, TidyPath;
    var k, parts := Find(path, '/'), Split(path, '/');
    SplitAt(path);
    NoneEmptyFirst(parts);
    if k < |path| {
      var rest := path[k + 1..];
      PartsNonEmptyIffTidy(rest);
      TidyAfter(path, k);
      assert rest != "" ==> rest[|rest| - 1] == path[|path| - 1];
      assert rest == "" ==> path[|path| - 1] == '/';
    } else {
      assert path[..k] == path == path[0..k] && parts[1..] == [];
      NoSlashIsTidy(path);
    }
  }

  lemma NoSlashIsTidy(path: string)
    requires '/' !in path
    ensures TidyPath(path) && (path != "" ==> path[|path| - 1] != '/')
  {
  }

  lemma TidyAfter(path: string, k: nat)
    requires k < |path| && path[k] == '/' && '/' !in path[..k]
    ensures TidyPath(path) <==> k > 0 && TidyPath(path[k + 1..])
  {
    var rest := path[k + 1..];
    assert forall i :: 0 <= i < |rest| ==> rest[i] == path[k + 1 + i];
    assert forall i :: 0 <= i < k ==> path[i] == path[..k][i] != '/';
    if TidyPath(path) {
      assert k > 0;
      forall i | 0 <= i < |rest| && rest[i] == '/' ensures i > 0 && rest[i - 1] != '/' {
        assert path[k + 1 + i] == '/';
      }
    }
    if k > 0 && TidyPath(rest) {
      forall i | 0 <= i < |path| && path[i] == '/' ensures i > 0 && path[i - 1] != '/' {
        if i > k {
          assert rest[i - k - 1] == '/';
        }
      }
    }
  }

  /** A path a store takes is tidy. */
  lemma AcceptedIsTidy(path: string)
    requires Accepted(path)
    ensures TidyPath(path)
  {
    var parts := Split(path, '/');
    forall i | 0 <= i < |parts| ensures parts[i] != "" {
      assert ComponentRefused(parts[i]).None?;
    }
    PartsNonEmptyIffTidy(path);
  }

  /** So `Walk` takes every account of paths a store took, and meets it whole. */
  lemma StoredIsTidy(entries: seq<Entry>)
    requires forall i :: 0 <= i < |entries| ==> Accepted(entries[i].path)
    ensures Tidy(entries)
  {
    forall i | 0 <= i < |entries| ensures TidyPath(entries[i].path) {
      AcceptedIsTidy(entries[i].path);
    }
  }

  // ---------------------------------------------------- written out

  /** A part of the path: between two slashes, or a slash and an end. */
  predicate IsPart(path: string, a: nat, b: nat) {
    a <= b <= |path| && (a == 0 || path[a - 1] == '/') && (b == |path| || path[b] == '/') && '/' !in path[a..b]
  }

  /** The parts after the first slash are those of what follows it. */
  lemma PartAfter(path: string, k: nat, a: nat, b: nat)
    requires k < |path| && path[k] == '/' && a <= b <= |path| - k - 1
    ensures path[k + 1..][a..b] == path[k + 1 + a..k + 1 + b]
    ensures IsPart(path[k + 1..], a, b) <==> IsPart(path, k + 1 + a, k + 1 + b)
  {
    var rest := path[k + 1..];
    assert rest[a..b] == path[k + 1 + a..k + 1 + b];
    assert a > 0 ==> rest[a - 1] == path[k + a];
    assert b < |rest| ==> rest[b] == path[k + 1 + b];
  }

  lemma LaterPart(path: string, k: nat, a: nat, b: nat)
    requires k < a <= b <= |path| && path[k] == '/' && IsPart(path, a, b)
    ensures IsPart(path[k + 1..], a - k - 1, b - k - 1) && path[k + 1..][a - k - 1..b - k - 1] == path[a..b]
  {
    PartAfter(path, k, a - k - 1, b - k - 1);
  }

  lemma FirstPart(path: string, a: nat, b: nat)
    requires IsPart(path, a, b) && a <= Find(path, '/')
    ensures a == 0 && b == Find(path, '/')
  {
    var k := Find(path, '/');
    assert forall j :: 0 <= j < k ==> path[j] == path[..k][j] != '/';
    assert forall j :: a <= j < b ==> path[j] == path[a..b][j - a] != '/';
  }

  lemma SplitAt(path: string)
    ensures var k, parts := Find(path, '/'), Split(path, '/');
            k <= |path| && parts[0] == path[0..k] && IsPart(path, 0, k)
            && (k == |path| ==> |parts| == 1)
            && (k < |path| ==> path[k] == '/' && parts[1..] == Split(path[k + 1..], '/'))
  {
    hide Find;
    var k := Find(path, '/');
    assert path[..k] == path[0..k];
    if k < |path| {
      var rest := Split(path[k + 1..], '/');
      hide Split;
      SplitUnfolds(path);
      assert ([path[..k]] + rest)[1..] == rest;
    }
  }

  lemma SplitUnfolds(path: string)
    ensures var k := Find(path, '/');
            Split(path, '/') == if k == |path| then [path] else [path[..k]] + Split(path[k + 1..], '/')
  {
    hide Find;
  }

  lemma {:induction false} SplitIsParts(path: string, i: nat) returns (a: nat, b: nat)
    requires i < |Split(path, '/')|
    ensures IsPart(path, a, b) && Split(path, '/')[i] == path[a..b]
    decreases |path|
  {
    hide Split, IsPart, Find;
    var k := Find(path, '/');
    SplitAt(path);
    if i == 0 {
      a, b := 0, k;
    } else {
      var parts := Split(path, '/');
      assert parts[i] == parts[1..][i - 1];
      a, b := SplitIsParts(path[k + 1..], i - 1);
      PartIn(path[k + 1..], a, b);
      PartAfter(path, k, a, b);
      a, b := k + 1 + a, k + 1 + b;
    }
  }

  lemma PartIn(path: string, a: nat, b: nat)
    requires IsPart(path, a, b)
    ensures a <= b <= |path|
  {
  }

  lemma {:induction false} PartIsSplit(path: string, a: nat, b: nat) returns (i: nat)
    requires IsPart(path, a, b)
    ensures i < |Split(path, '/')| && Split(path, '/')[i] == path[a..b]
    decreases |path|
  {
    hide Split, IsPart, Find;
    PartIn(path, a, b);
    var k, parts := Find(path, '/'), Split(path, '/');
    SplitAt(path);
    if a <= k {
      FirstPart(path, a, b);
      i := 0;
    } else {
      LaterPart(path, k, a, b);
      i := PartIsSplit(path[k + 1..], a - k - 1, b - k - 1);
      assert parts[i + 1] == parts[1..][i];
      i := i + 1;
    }
  }

  /** A name Windows keeps for itself, in either case, whatever extensions follow. */
  predicate KeptByWindows(part: string) {
    exists k :: 0 <= k <= |part| && '.' !in part[..k] && (k == |part| || part[k] == '.')
                && Lowercase(part[..k]) in
                     {"con", "prn", "aux", "nul", "com1", "com2", "com3", "com4", "com5", "com6", "com7", "com8",
                      "com9", "lpt1", "lpt2", "lpt3", "lpt4", "lpt5", "lpt6", "lpt7", "lpt8", "lpt9"}
  }

  /** A part that can stand in a store on every system. */
  predicate PartFine(part: string) {
    part != "" && |Encode(part)| <= 255 && part != "." && part != ".."
    && part[|part| - 1] != ' ' && part[|part| - 1] != '.' && !KeptByWindows(part)
  }

  lemma StemMeans(part: string)
    ensures KeptByWindows(part) <==> Lowercase(Split(part, '.')[0]) in WINDOWS_RESERVED
  {
    hide Lowercase;
    var at := Find(part, '.');
    assert Split(part, '.')[0] == part[..at];
    forall k | 0 <= k <= |part| && '.' !in part[..k] && (k == |part| || part[k] == '.') ensures k == at {
      assert forall j :: 0 <= j < at ==> part[j] == part[..at][j] != '.';
      assert forall j :: 0 <= j < k ==> part[j] == part[..k][j] != '.';
    }
  }

  lemma PartMeans(part: string)
    ensures ComponentRefused(part).None? <==> PartFine(part)
  {
    StemMeans(part);
    hide KeptByWindows, Lowercase, Split;
  }

  /** A path that can be one on every system: not empty, at most 1024 bytes, no
      backslash, no slash at either end, no control character, no drive letter. */
  predicate WholeFine(path: string) {
    path != "" && |Encode(path)| <= 1024 && '\\' !in path && path[0] != '/' && path[|path| - 1] != '/'
    && (forall i :: 0 <= i < |path| ==> path[i] as int >= 0x20 && !(0x7F <= path[i] as int < 0xA0))
    && !(|Encode(path)| > 1 && Encode(path)[1] == 0x3A)
  }

  /** What a store takes, written out: a fine path of fine parts. */
  lemma AcceptedMeans(path: string)
    ensures Accepted(path) <==> WholeFine(path) && forall a: nat, b: nat :: IsPart(path, a, b) ==> PartFine(path[a..b])
  {
    assert WholeRefused(path).None? <==> WholeFine(path);
    hide WholeRefused, WholeFine, ComponentRefused, PartFine, Split;
    if Accepted(path) {
      forall a: nat, b: nat | IsPart(path, a, b) ensures PartFine(path[a..b]) {
        var i := PartIsSplit(path, a, b);
        PartMeans(path[a..b]);
      }
    }
    if WholeFine(path) && forall a: nat, b: nat :: IsPart(path, a, b) ==> PartFine(path[a..b]) {
      forall i | 0 <= i < |Split(path, '/')| ensures ComponentRefused(Split(path, '/')[i]).None? {
        var a, b := SplitIsParts(path, i);
        PartMeans(path[a..b]);
      }
    }
  }
}
