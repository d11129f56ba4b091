/** `get_top_level_dir` and `outermost_folder_name` of src/archive.cpp. */
module Archive {
  import opened Prelude

  const SLASH: byte := 0x2F

  // --- std::filesystem::path::parent_path on POSIX ---

  /** The length without the trailing slashes. */
  function StripSlashes(p: Bytes): (r: Bytes)
    ensures r <= p
    ensures r != [] ==> r[|r| - 1] != SLASH
    ensures forall k | |r| <= k < |p| :: p[k] == SLASH
  {
    if p != [] && p[|p| - 1] == SLASH then StripSlashes(p[..|p| - 1]) else p
  }

  /** What is left when the last component is taken off. */
  function DropFileName(p: Bytes): (r: Bytes)
    ensures r <= p
    ensures SLASH !in p[|r|..]
    ensures r != [] ==> r[|r| - 1] == SLASH
  {
    if p == [] || p[|p| - 1] == SLASH then p else DropFileName(p[..|p| - 1])
  }

  /** The empty path when there is no parent; the root is its own parent. */
  function ParentPath(p: Bytes): Bytes {
    var d := DropFileName(p);
    if d != [] && StripSlashes(d) == [] then [SLASH] else StripSlashes(d)
  }

  predicate HasParentPath(p: Bytes) {
    ParentPath(p) != []
  }

  predicate IsRelative(p: Bytes) {
    p == [] || p[0] != SLASH
  }

  /** The parent is what stands before the last run of slashes; if nothing does, it is the root, and without a slash
      there is none. */
  lemma ParentPathExactly(front: Bytes, slashes: Bytes, name: Bytes)
    requires front != [] ==> front[|front| - 1] != 0x2F
    requires forall k | 0 <= k < |slashes| :: slashes[k] == 0x2F
    requires 0x2F !in name && (slashes == [] ==> front == [])
    ensures ParentPath(front + slashes + name) ==
            if slashes == [] then [] else if front == [] then [0x2F] else front
  {
    hide DropFileName, StripSlashes;
    DropFileNameOf(front + slashes, name);
    StripSlashesOf(front, slashes);
  }

  lemma {:induction false} DropFileNameOf(d: Bytes, name: Bytes)
    requires SLASH !in name && (d != [] ==> d[|d| - 1] == SLASH)
    ensures DropFileName(d + name) == d
  {
    if name == [] {
      assert d + name == d;
    } else {
      DropFileNameOf(d, name[..|name| - 1]);
      assert (d + name)[..|d + name| - 1] == d + name[..|name| - 1];
    }
  }

  lemma {:induction false} StripSlashesOf(front: Bytes, slashes: Bytes)
    requires front != [] ==> front[|front| - 1] != SLASH
    requires forall k | 0 <= k < |slashes| :: slashes[k] == SLASH
    ensures StripSlashes(front + slashes) == front
  {
    if slashes == [] {
      assert front + slashes == front;
    } else {
      StripSlashesOf(front, slashes[..|slashes| - 1]);
      assert (front + slashes)[..|front + slashes| - 1] == front + slashes[..|slashes| - 1];
    }
  }

  // --- the recursion ---

  lemma RelativeParent(p: Bytes)
    requires IsRelative(p)
    ensures IsRelative(ParentPath(p))
    ensures HasParentPath(p) <==> SLASH in p
    ensures HasParentPath(p) ==> |ParentPath(p)| < |p| && ParentPath(p) < p && p[|ParentPath(p)|] == SLASH
  {
  }

  /** `get_top_level_dir`, which ends on relative paths only. */
  function TopLevelDir(p: Bytes): (r: Bytes)
    requires IsRelative(p)
    decreases |p|
  {
    RelativeParent(p);
    if HasParentPath(p) then TopLevelDir(ParentPath(p)) else p
  }

  /** The recursion finds the text before the first slash. */
  lemma {:induction false} TopLevelDirExactly(p: Bytes, r: Bytes)
    requires IsRelative(p)
    ensures TopLevelDir(p) == r <==> r <= p && SLASH !in r && (|r| < |p| ==> p[|r|] == SLASH)
    decreases |p|
  {
    hide ParentPath;
    RelativeParent(p);
    if HasParentPath(p) {
      var parent := ParentPath(p);
      TopLevelDirExactly(parent, r);
      if r <= p && SLASH !in r && |r| < |p| && p[|r|] == SLASH {
        assert forall k | 0 <= k < |r| :: r[k] == p[k];
      }
      assert r <= parent && |r| < |parent| ==> p[|r|] == parent[|r|];
    } else if r <= p && |r| < |p| {
      assert p[|r|] in p;
    }
  }

  function Ancestor(p: Bytes, n: nat): Bytes {
    if n == 0 then p else ParentPath(Ancestor(p, n - 1))
  }

  /** On an absolute path there is always one more parent to visit, so the recursion never ends; on a relative path
      a parent without parent is reached. */
  lemma RecursionEndsExactly(p: Bytes)
    ensures (exists n: nat :: !HasParentPath(Ancestor(p, n))) <==> IsRelative(p)
  {
    if IsRelative(p) {
      var n := StepsToTop(p);
      assert !HasParentPath(Ancestor(p, n));
    } else {
      forall n: nat ensures HasParentPath(Ancestor(p, n)) {
        AbsoluteAncestor(p, n);
      }
    }
  }

  lemma {:induction false} AbsoluteAncestor(p: Bytes, n: nat)
    requires !IsRelative(p)
    ensures !IsRelative(Ancestor(p, n)) && HasParentPath(Ancestor(p, n))
  {
    if n > 0 {
      AbsoluteAncestor(p, n - 1);
    }
    var a := Ancestor(p, n);
    AbsoluteParent(a);
    if n > 0 {
      AbsoluteParent(Ancestor(p, n - 1));
    }
  }

  lemma AbsoluteParent(p: Bytes)
    requires !IsRelative(p)
    ensures !IsRelative(ParentPath(p))
  {
  }

  lemma {:induction false} StepsToTop(p: Bytes) returns (n: nat)
    requires IsRelative(p)
    ensures !HasParentPath(Ancestor(p, n))
    decreases |p|
  {
    RelativeParent(p);
    if HasParentPath(p) {
      n := StepsToTop(ParentPath(p));
      AncestorOfParent(p, n);
      n := n + 1;
    } else {
      n := 0;
    }
  }

  lemma {:induction false} AncestorOfParent(p: Bytes, n: nat)
    ensures Ancestor(p, n + 1) == Ancestor(ParentPath(p), n)
  {
    if n > 0 {
      AncestorOfParent(p, n - 1);
    }
  }

  // --- the entries of an archive ---

  datatype Entry = Entry(path: Bytes, isDir: bool)

  /** The folder that holds everything in the archive: all entries are below it or are it, and the first of them shows
      that it is a folder and not a file. */
  predicate IsOutermostFolder(entries: seq<Entry>, name: Bytes)
    requires forall e <- entries :: IsRelative(e.path)
  {
    && entries != []
    && (forall i | 0 <= i < |entries| :: TopLevelDir(entries[i].path) == name)
    && (entries[0].path != name || entries[0].isDir)
  }

  /** Said with the paths alone: every one is the name, or the name, a slash and more; and the first one is longer than
      the name or a directory. */
  lemma OutermostFolderExactly(entries: seq<Entry>, name: Bytes)
    requires forall e <- entries :: IsRelative(e.path)
    ensures IsOutermostFolder(entries, name) <==>
            && entries != [] && 0x2F !in name
            && (forall i | 0 <= i < |entries| :: entries[i].path == name || name + [0x2F] <= entries[i].path)
            && (name + [0x2F] <= entries[0].path || entries[0].isDir)
  {
    hide TopLevelDir;
    forall i | 0 <= i < |entries|
      ensures IsRelative(entries[i].path)
      ensures TopLevelDir(entries[i].path) == name <==>
              SLASH !in name && (entries[i].path == name || name + [SLASH] <= entries[i].path)
    {
      assert entries[i] in entries;
      TopLevelDirExactly(entries[i].path, name);
      BelowOrSame(entries[i].path, name);
    }
  }

  lemma BelowOrSame(p: Bytes, name: Bytes)
    ensures p == name || name + [SLASH] <= p <==> name <= p && (|name| < |p| ==> p[|name|] == SLASH)
  {
  }

  /** `outermost_folder_name`, where `readable` says whether the headers end with the end of the archive rather than
      with an error. */
  method OutermostFolderName(entries: seq<Entry>, readable: bool) returns (r: Result<Option<Bytes>>)
    requires forall e <- entries :: IsRelative(e.path)
    ensures !readable ==> r == RuntimeError
    ensures readable ==> r.Ok?
    ensures readable ==> forall name :: r.value == Some(name) <==> IsOutermostFolder(entries, name)
  {
    hide TopLevelDir, IsRelative, IsOutermostFolder, Collected;
    var dirs: map<Bytes, bool> := map[];
    NothingCollected(entries);
    var k := 0;
    while k < |entries|
      invariant k <= |entries|
      invariant Collected(dirs, entries, k)
    {
      CollectedNext(dirs, entries, k);
      var path := entries[k].path;
      var topLevelDir := TopLevelDir(path);
      if topLevelDir !in dirs {
        dirs := dirs[topLevelDir := if path != topLevelDir then true else entries[k].isDir];
      }
      k := k + 1;
    }
    if !readable {
      return RuntimeError;
    }
    if |dirs| == 1 {
      var name :| name in dirs;
      OnlyKey(dirs, name);
      OneFolder(dirs, entries, name);
      if dirs[name] {
        return Ok(Some(name));
      }
    } else {
      ManyKeys(dirs);
      NoOneFolder(dirs, entries);
    }
    return Ok(None);
  }

  /** The map after the first `k` entries: their top-level directories, the first of them with its flag. */
  ghost predicate Collected(dirs: map<Bytes, bool>, entries: seq<Entry>, k: nat)
    requires k <= |entries| && forall e <- entries :: IsRelative(e.path)
  {
    && (forall i | 0 <= i < k :: TopLevelDir(entries[i].path) in dirs)
    && (forall name | name in dirs :: exists i :: 0 <= i < k && TopLevelDir(entries[i].path) == name)
    && (k > 0 ==>
          var first := TopLevelDir(entries[0].path);
          dirs[first] == (entries[0].path != first || entries[0].isDir))
  }

  lemma NothingCollected(entries: seq<Entry>)
    requires forall e <- entries :: IsRelative(e.path)
    ensures Collected(map[], entries, 0)
  {
  }

  lemma OneFolder(dirs: map<Bytes, bool>, entries: seq<Entry>, name: Bytes)
    requires forall e <- entries :: IsRelative(e.path)
    requires Collected(dirs, entries, |entries|) && name in dirs && forall other | other in dirs :: other == name
    ensures forall other :: IsOutermostFolder(entries, other) <==> other == name && dirs[name]
  {
    hide TopLevelDir, IsRelative;
  }

  lemma NoOneFolder(dirs: map<Bytes, bool>, entries: seq<Entry>)
    requires forall e <- entries :: IsRelative(e.path)
    requires Collected(dirs, entries, |entries|)
    requires forall name | name in dirs :: exists other :: other in dirs && other != name
    ensures forall name :: !IsOutermostFolder(entries, name)
  {
    hide TopLevelDir, IsRelative;
  }

  /** `emplace` of one more entry. */
  lemma CollectedNext(dirs: map<Bytes, bool>, entries: seq<Entry>, k: nat)
    requires k < |entries| && forall e <- entries :: IsRelative(e.path)
    requires Collected(dirs, entries, k)
    ensures IsRelative(entries[k].path)
    ensures var e := entries[k];
            var name := TopLevelDir(e.path);
            Collected(if name in dirs then dirs else dirs[name := e.path != name || e.isDir], entries, k + 1)
  {
    hide TopLevelDir, IsRelative;
    assert entries[k] in entries;
  }

  lemma OnlyKey(dirs: map<Bytes, bool>, name: Bytes)
    requires |dirs| == 1 && name in dirs
    ensures forall other | other in dirs :: other == name
  {
    assert |dirs.Keys - {name}| == 0;
    forall other | other in dirs ensures other == name {
      assert other == name || other in dirs.Keys - {name};
    }
  }

  /** A map with no key or with two has no only key. */
  lemma ManyKeys(dirs: map<Bytes, bool>)
    requires |dirs| != 1
    ensures forall name | name in dirs :: exists other :: other in dirs && other != name
  {
    forall name | name in dirs ensures exists other :: other in dirs && other != name {
      assert |dirs.Keys| == |dirs| && dirs.Keys != {name};
    }
  }
}
