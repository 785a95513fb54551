/** Finding the file of a program by its name: fixed places, the PATH, and then the same places
    for the name with ".bin" added. */
module ProgramLookup {
  import opened Wrappers
  import opened ShellGrammar
  import opened Texts

  const SLASH: text := [47]
  const COLON: tchar := 58
  const DOT_DIRECTORY: text := [46]
  /** ".bin" */
  const BIN: text := [46, 98, 105, 110]
  /** "/applications/" */
  const APPLICATIONS: text := [47, 97, 112, 112, 108, 105, 99, 97, 116, 105, 111, 110, 115, 47]
  /** "/system/bin/" */
  const SYSTEM_BIN: text := [47, 115, 121, 115, 116, 101, 109, 47, 98, 105, 110, 47]
  /** "/system/sbin/" */
  const SYSTEM_SBIN: text := [47, 115, 121, 115, 116, 101, 109, 47, 115, 98, 105, 110, 47]

  /** "/system/bin:/system/sbin:/applications" */
  const DEFAULT_PATH: text :=
    SYSTEM_BIN[..11] + [COLON] + SYSTEM_SBIN[..12] + [COLON] + APPLICATIONS[..13]

  /** The environment variable, if it is set and not empty. */
  function PathValue(env: Option<text>): text {
    if env.None? || env.value == [] then DEFAULT_PATH else env.value
  }

  // ----- The directories of a path

  /** The position of the next colon at or behind `start`, or the end. */
  function NextColon(path: text, start: nat): (p: nat)
    requires start <= |path|
    ensures start <= p <= |path|
    ensures COLON !in path[start..p]
    ensures p < |path| ==> path[p] == COLON
    decreases |path| - start
  {
    if start < |path| && path[start] != COLON then NextColon(path, start + 1) else start
  }

  function RawDirectories(path: text, start: nat): (d: seq<text>)
    requires start <= |path|
    ensures |d| >= 1
    decreases |path| - start
  {
    var sep := NextColon(path, start);
    if sep == |path| then [path[start..]] else [path[start..sep]] + RawDirectories(path, sep + 1)
  }

  function JoinedByColons(dirs: seq<text>): text {
    if dirs == [] then []
    else if |dirs| == 1 then dirs[0]
    else dirs[0] + ([COLON] + JoinedByColons(dirs[1..]))
  }

  /** The directories are the path cut at its colons. */
  lemma {:induction false} DirectoriesSplitPath(path: text, start: nat)
    requires start <= |path|
    ensures JoinedByColons(RawDirectories(path, start)) == path[start..]
    ensures forall i :: 0 <= i < |RawDirectories(path, start)| ==> COLON !in RawDirectories(path, start)[i]
    decreases |path| - start
  {
    hide NextColon;
    var sep := NextColon(path, start);
    if sep < |path| {
      DirectoriesSplitPath(path, sep + 1);
      var rest := RawDirectories(path, sep + 1);
      assert ([path[start..sep]] + rest)[1..] == rest;
      assert path[start..] == path[start..sep] + ([COLON] + path[sep + 1..]);
    }
  }

  /** An empty directory means the current one. */
  function InDirectory(dir: text, name: text): text {
    (if dir == [] then DOT_DIRECTORY else dir) + SLASH + name
  }

  function InDirectories(dirs: seq<text>, name: text): seq<text> {
    if dirs == [] then [] else [InDirectory(dirs[0], name)] + InDirectories(dirs[1..], name)
  }

  // ----- The candidates

  function FixedPlaces(cwd: text, name: text): seq<text> {
    [cwd + SLASH + name, name, APPLICATIONS + name, SYSTEM_BIN + name, SYSTEM_SBIN + name]
  }

  function Places(cwd: text, name: text, path: text): seq<text> {
    FixedPlaces(cwd, name) + InDirectories(RawDirectories(path, 0), name)
  }

  predicate HasBin(name: text) {
    |name| >= 4 && name[|name| - 4..] == BIN
  }

  /** All candidates in order; the extension is tried once, and only if it is missing. */
  function Candidates(cwd: text, name: text, path: text): seq<text> {
    Places(cwd, name, path) + if HasBin(name) then [] else Places(cwd, name + BIN, path)
  }

  function FirstExisting(onDisk: text -> bool, c: seq<text>): (r: Option<text>) {
    if c == [] then None else if onDisk(c[0]) then Some(c[0]) else FirstExisting(onDisk, c[1..])
  }

  /** What the lookup answers: the first candidate that exists, or else the name with the
      extension. */
  function Found(onDisk: text -> bool, cwd: text, name: text, path: text): text {
    match FirstExisting(onDisk, Candidates(cwd, name, path))
    case Some(file) => file
    case None => if HasBin(name) then name else name + BIN
  }

  lemma {:induction false} FirstOfTwo(onDisk: text -> bool, a: seq<text>, b: seq<text>)
    ensures FirstExisting(onDisk, a + b)
         == if FirstExisting(onDisk, a).Some? then FirstExisting(onDisk, a) else FirstExisting(onDisk, b)
  {
    if a == [] {
      assert a + b == b;
    } else {
      assert (a + b)[1..] == a[1..] + b;
      FirstOfTwo(onDisk, a[1..], b);
    }
  }

  /** Nothing in front of the answer exists, and the answer does. */
  lemma {:induction false} FirstExistingIff(onDisk: text -> bool, c: seq<text>, i: nat)
    requires i < |c| && onDisk(c[i]) && forall j :: 0 <= j < i ==> !onDisk(c[j])
    ensures FirstExisting(onDisk, c) == Some(c[i])
  {
    if i > 0 {
      assert !onDisk(c[0]);
      assert forall j :: 0 <= j < i - 1 ==> c[1..][j] == c[j + 1];
      FirstExistingIff(onDisk, c[1..], i - 1);
    }
  }

  lemma {:induction false} NoneExisting(onDisk: text -> bool, c: seq<text>)
    ensures FirstExisting(onDisk, c).None? <==> forall j :: 0 <= j < |c| ==> !onDisk(c[j])
  {
    if c != [] {
      NoneExisting(onDisk, c[1..]);
      assert forall j :: 0 < j < |c| ==> c[j] == c[1..][j - 1];
    }
  }

  /** If any candidate exists, the lookup returns the first that does; if none exists, it
      returns the name with the extension, once. */
  lemma FoundIsFirst(onDisk: text -> bool, cwd: text, name: text, path: text)
    ensures var c := Candidates(cwd, name, path);
      if exists i :: 0 <= i < |c| && onDisk(c[i])
      then exists i :: 0 <= i < |c| && onDisk(c[i]) && (forall j :: 0 <= j < i ==> !onDisk(c[j]))
             && Found(onDisk, cwd, name, path) == c[i]
      else Found(onDisk, cwd, name, path) == if HasBin(name) then name else name + BIN
  {
    hide Candidates;
    var c := Candidates(cwd, name, path);
    NoneExisting(onDisk, c);
    if FirstExisting(onDisk, c).Some? {
      var i := FirstIndex(onDisk, c);
      FirstExistingIff(onDisk, c, i);
    }
  }

  lemma {:induction false} FirstIndex(onDisk: text -> bool, c: seq<text>) returns (i: nat)
    requires FirstExisting(onDisk, c).Some?
    ensures i < |c| && onDisk(c[i]) && forall j :: 0 <= j < i ==> !onDisk(c[j])
  {
    if onDisk(c[0]) {
      i := 0;
    } else {
      var k := FirstIndex(onDisk, c[1..]);
      i := k + 1;
      assert forall j :: 0 < j < |c| ==> c[j] == c[1..][j - 1];
    }
  }

  lemma BinOnlyOnce(name: text)
    ensures HasBin(name + BIN)
  {
  }

  // ----- The candidates by name

  /** The directories the names below come from. */
  lemma PlacesSpelled()
    ensures APPLICATIONS == Codes("/applications/")
    ensures SYSTEM_BIN == Codes("/system/bin/")
    ensures SYSTEM_SBIN == Codes("/system/sbin/")
    ensures BIN == Codes(".bin") && SLASH == Codes("/") && COLON == ':' as int && DOT_DIRECTORY == Codes(".")
  {
  }

  /** Without a PATH, or with an empty one, the default one is used. */
  lemma PathUsed(env: Option<text>)
    ensures env.None? || env.value == [] ==> PathValue(env) == Codes("/system/bin:/system/sbin:/applications")
    ensures env.Some? && env.value != [] ==> PathValue(env) == env.value
  {
  }

  lemma {:induction false} InEachDirectory(dirs: seq<text>, name: text)
    ensures |InDirectories(dirs, name)| == |dirs|
    ensures forall i :: 0 <= i < |dirs| ==>
      InDirectories(dirs, name)[i] == (if dirs[i] == [] then Codes(".") else dirs[i]) + Codes("/") + name
  {
    assert DOT_DIRECTORY == Codes(".") && SLASH == Codes("/");
    hide Codes;
    if dirs != [] {
      InEachDirectory(dirs[1..], name);
      assert forall i :: 0 < i < |dirs| ==> dirs[i] == dirs[1..][i - 1];
    }
  }

  /** Whatever directories the PATH joins with colons, the candidates are the current directory,
      the bare name, three fixed directories and then those of the PATH, in this order, an empty
      one meaning the current one; and then the same once more for the name with ".bin". */
  lemma CandidatesAre(cwd: text, name: text, path: text)
    ensures var dirs := RawDirectories(path, 0);
      var c := Candidates(cwd, name, path);
      var d := 5 + |dirs|;
      && JoinedByColons(dirs) == path
      && (forall i :: 0 <= i < |dirs| ==> COLON !in dirs[i])
      && |c| == (if |name| >= 4 && name[|name| - 4..] == Codes(".bin") then d else 2 * d)
      && ListsPlaces(c[..d], cwd, name, dirs)
      && (|c| > d ==> ListsPlaces(c[d..], cwd, name + Codes(".bin"), dirs))
  {
    PlacesSpelled();
    hide Codes;
    DirectoriesSplitPath(path, 0);
    assert path[0..] == path;
    PlacesListed(cwd, name, path);
    PlacesListed(cwd, name + BIN, path);
    var first, second := Places(cwd, name, path), Places(cwd, name + BIN, path);
    hide Places;
    hide ListsPlaces;
    assert (first + second)[..|first|] == first && (first + second)[|first|..] == second;
    assert (first + [])[..|first|] == first;
  }

  predicate ListsPlaces(c: seq<text>, cwd: text, name: text, dirs: seq<text>) {
    && |c| == 5 + |dirs|
    && c[0] == cwd + Codes("/") + name
    && c[1] == name
    && c[2] == Codes("/applications/") + name
    && c[3] == Codes("/system/bin/") + name
    && c[4] == Codes("/system/sbin/") + name
    && forall i :: 0 <= i < |dirs| ==> c[5 + i] == (if dirs[i] == [] then Codes(".") else dirs[i]) + Codes("/") + name
  }

  lemma PlacesListed(cwd: text, name: text, path: text)
    ensures ListsPlaces(Places(cwd, name, path), cwd, name, RawDirectories(path, 0))
  {
    PlacesSpelled();
    hide Codes;
    var dirs := RawDirectories(path, 0);
    InEachDirectory(dirs, name);
    hide InDirectories;
    var c := Places(cwd, name, path);
    assert forall i :: 0 <= i < |dirs| ==> c[5 + i] == InDirectories(dirs, name)[i];
  }

  /** The loop over the PATH. */
  method SearchPath(onDisk: text -> bool, path: text, name: text) returns (r: Option<text>)
    ensures r == FirstExisting(onDisk, InDirectories(RawDirectories(path, 0), name))
  {
    hide InDirectory;
    var start := 0;
    while start <= |path|
      invariant 0 <= start <= |path|
      invariant FirstExisting(onDisk, InDirectories(RawDirectories(path, 0), name))
             == FirstExisting(onDisk, InDirectories(RawDirectories(path, start), name))
      decreases |path| - start
    {
      var sep := NextColon(path, start);
      var dir := path[start..sep];
      var candidate := InDirectory(dir, name);
      OneDirectory(onDisk, path, name, start);
      if onDisk(candidate) {
        return Some(candidate);
      }
      if sep == |path| {
        break;
      }
      start := sep + 1;
    }
    r := None;
  }

  lemma OneDirectory(onDisk: text -> bool, path: text, name: text, start: nat)
    requires start <= |path|
    ensures var sep := NextColon(path, start);
      var here := InDirectory(path[start..sep], name);
      FirstExisting(onDisk, InDirectories(RawDirectories(path, start), name))
        == if onDisk(here) then Some(here)
           else if sep == |path| then None
           else FirstExisting(onDisk, InDirectories(RawDirectories(path, sep + 1), name))
  {
    hide InDirectory;
    var sep := NextColon(path, start);
    if sep == |path| {
      assert path[start..] == path[start..sep];
      assert InDirectories([path[start..]], name) == [InDirectory(path[start..], name)];
    } else {
      var rest := RawDirectories(path, sep + 1);
      assert ([path[start..sep]] + rest)[1..] == rest;
      assert InDirectories([path[start..sep]] + rest, name) == [InDirectory(path[start..sep], name)] + InDirectories(rest, name);
    }
  }

  method FindProgram(onDisk: text -> bool, cwd: text, name: text, env: Option<text>) returns (r: text)
    ensures r == Found(onDisk, cwd, name, PathValue(env))
    decreases if HasBin(name) then 0 else 1
  {
    hide PathValue;
    ghost var pathValue := PathValue(env);
    FirstOfTwo(onDisk, FixedPlaces(cwd, name), InDirectories(RawDirectories(pathValue, 0), name));
    FirstOfTwo(onDisk, Places(cwd, name, pathValue), Places(cwd, name + BIN, pathValue));
    FixedInOrder(onDisk, cwd, name);
    assert Places(cwd, name, pathValue) + [] == Places(cwd, name, pathValue);
    hide FirstExisting;
    hide InDirectories;

    var path := cwd + SLASH + name;
    if onDisk(path) {
      return path;
    }
    if onDisk(name) {
      return name;
    }
    path := APPLICATIONS + name;
    if onDisk(path) {
      return path;
    }
    path := SYSTEM_BIN + name;
    if onDisk(path) {
      return path;
    }
    path := SYSTEM_SBIN + name;
    if onDisk(path) {
      return path;
    }
    var found := SearchPath(onDisk, PathValue(env), name);
    if found.Some? {
      return found.value;
    }
    if |name| < 4 || name[|name| - 4..] != BIN {
      BinOnlyOnce(name);
      BinCandidates(cwd, name, pathValue);
      r := FindProgram(onDisk, cwd, name + BIN, env);
      return;
    }
    r := name;
  }

  lemma FixedInOrder(onDisk: text -> bool, cwd: text, name: text)
    ensures FirstExisting(onDisk, FixedPlaces(cwd, name))
         == if onDisk(cwd + SLASH + name) then Some(cwd + SLASH + name)
            else if onDisk(name) then Some(name)
            else if onDisk(APPLICATIONS + name) then Some(APPLICATIONS + name)
            else if onDisk(SYSTEM_BIN + name) then Some(SYSTEM_BIN + name)
            else if onDisk(SYSTEM_SBIN + name) then Some(SYSTEM_SBIN + name)
            else None
  {
    var e := SYSTEM_SBIN + name;
    var d := SYSTEM_BIN + name;
    var c := APPLICATIONS + name;
    var a := cwd + SLASH + name;
    assert FirstExisting(onDisk, [e]) == if onDisk(e) then Some(e) else None;
    assert [d, e][1..] == [e];
    assert [c, d, e][1..] == [d, e];
    assert [name, c, d, e][1..] == [c, d, e];
    assert [a, name, c, d, e][1..] == [name, c, d, e];
    assert FirstExisting(onDisk, [d, e]) == if onDisk(d) then Some(d) else FirstExisting(onDisk, [e]);
    assert FirstExisting(onDisk, [c, d, e]) == if onDisk(c) then Some(c) else FirstExisting(onDisk, [d, e]);
  }

  lemma BinCandidates(cwd: text, name: text, path: text)
    requires HasBin(name + BIN)
    ensures Candidates(cwd, name + BIN, path) == Places(cwd, name + BIN, path)
  {
  }
}
