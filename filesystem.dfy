/**
 * The sticker directory on disk: one sub-directory per package, named by the
 * package id as printed, holding files by name. Only the operations the
 * server uses are modelled, and only the failures that follow from the
 * directory's contents (a missing file or directory, or a name that reaches
 * into a sub-directory); failures of the operating system itself are not.
 */
module FileSystem {
  import opened Wrappers
  import opened Text
  import opened Sorting

  /** File name to file contents. */
  type Directory = map<string, string>

  class Disk {
    /** Package directory name to its files. */
    var dirs: map<string, Directory>

    constructor (dirs: map<string, Directory>)
      ensures this.dirs == dirs
    {
      this.dirs := dirs;
    }

    /** os.Open followed by a full read: the contents, or None when the file or its directory is missing. */
    function ReadFile(dir: string, name: string): (r: Option<string>)
      reads this
      ensures r.Some? <==> dir in dirs && name in dirs[dir]
      ensures r.Some? ==> r.value == dirs[dir][name]
    {
      FileIn(dirs, dir, name)
    }

    /** os.MkdirAll: the directory exists afterwards, and an existing one keeps its files. */
    method MkdirAll(dir: string)
      modifies this
      ensures dirs == old(dirs)[dir := if dir in old(dirs) then old(dirs)[dir] else map[]]
    {
      if dir !in dirs {
        dirs := dirs[dir := map[]];
      }
    }

    /**
     * os.Create and a full write: fails when the directory is missing or the
     * name reaches into a sub-directory, which package directories never
     * have; replaces an existing file.
     */
    method WriteFile(dir: string, name: string, contents: string) returns (ok: bool)
      modifies this
      ensures ok <==> dir in old(dirs) && FlatName(name)
      ensures dirs == if ok then old(dirs)[dir := old(dirs)[dir][name := contents]] else old(dirs)
    {
      ok := dir in dirs && FlatName(name);
      if ok {
        dirs := dirs[dir := dirs[dir][name := contents]];
      }
    }

    /** os.Rename within one directory: fails when the source is missing; replaces an existing target. */
    method Rename(dir: string, from: string, to: string) returns (ok: bool)
      modifies this
      ensures ok <==> dir in old(dirs) && from in old(dirs)[dir]
      ensures ok ==> dirs == old(dirs)[dir := Renamed(old(dirs)[dir], from, to)]
      ensures !ok ==> dirs == old(dirs)
    {
      ok := dir in dirs && from in dirs[dir];
      if ok {
        dirs := dirs[dir := Renamed(dirs[dir], from, to)];
      }
    }

    /** os.Remove: fails when the file is missing. */
    method Remove(dir: string, name: string) returns (ok: bool)
      modifies this
      ensures ok <==> dir in old(dirs) && name in old(dirs)[dir]
      ensures dirs == if ok then old(dirs)[dir := old(dirs)[dir] - {name}] else old(dirs)
    {
      ok := dir in dirs && name in dirs[dir];
      if ok {
        dirs := dirs[dir := dirs[dir] - {name}];
      }
    }

    /** ioutil.ReadDir: the names in the directory, sorted by name; None when it is missing. */
    method ReadDir(dir: string) returns (names: Option<seq<string>>)
      ensures names.Some? <==> dir in dirs
      ensures names.Some? ==> Listing(dirs[dir], names.value) && names.value == SortedNames(dirs[dir])
    {
      if dir !in dirs {
        return None;
      }
      LexLessIsStrictTotalOrder();
      var sorted := SortSet(dirs[dir].Keys, LexLess);
      names := Some(sorted);
      ListingUnique(dirs[dir], sorted, SortedNames(dirs[dir]));
    }
  }

  /** The contents of a file in a set of directories, or None when the file or its directory is missing. */
  function FileIn(dirs: map<string, Directory>, dir: string, name: string): Option<string>
  {
    if dir in dirs && name in dirs[dir] then Some(dirs[dir][name]) else None
  }

  /** A file name without a path separator: it names a file directly inside its directory. */
  predicate FlatName(name: string)
  {
    '/' !in name
  }

  /** A second write to the same package directory is all that remains of the first. */
  lemma Overwritten<K, V>(m: map<K, V>, k: K, x: V, y: V)
    ensures m[k := x][k := y] == m[k := y]
  {
  }

  /** A directory after renaming `from` to `to`; `to` loses whatever it held. */
  function Renamed(d: Directory, from: string, to: string): (r: Directory)
    requires from in d
    ensures to in r && r[to] == d[from]
    ensures forall n :: n != from && n != to ==> (n in r <==> n in d)
    ensures forall n :: n in r && n != to ==> r[n] == d[n]
    ensures from != to ==> from !in r
  {
    (d - {from})[to := d[from]]
  }

  /** `names` is what ReadDir returns for `d`: every file once, in increasing name order. */
  ghost predicate Listing(d: Directory, names: seq<string>)
  {
    && |names| == |d|
    && (forall n :: n in d <==> n in names)
    && (forall i, j :: 0 <= i < j < |names| ==> LexLess(names[i], names[j]))
  }

  lemma LexLessIsStrictTotalOrder()
    ensures StrictTotalOrder(LexLess)
  {
    forall a | true ensures !LexLess(a, a) {
      LexLessIrreflexive(a);
    }
    forall a, b, c | LexLess(a, b) && LexLess(b, c) ensures LexLess(a, c) {
      LexLessTransitive(a, b, c);
    }
    forall a, b | a != b ensures LexLess(a, b) || LexLess(b, a) {
      LexLessTotal(a, b);
    }
  }

  /** A listing has no repeated name. */
  lemma ListingDistinct(d: Directory, names: seq<string>, i: nat, j: nat)
    requires Listing(d, names) && i < j < |names|
    ensures names[i] != names[j]
  {
    LexLessIrreflexive(names[i]);
  }

  /** A non-empty directory has a name that sorts before all others. */
  lemma LeastName(d: Directory) returns (m: string)
    requires |d| > 0
    ensures m in d && forall x :: x in d && x != m ==> LexLess(m, x)
  {
    LexLessIsStrictTotalOrder();
    assert d.Keys != {} by {
      var k :| k in d;
    }
    HasLeast(d.Keys, LexLess);
    m :| m in d.Keys && forall x :: x in d.Keys && x != m ==> LexLess(m, x);
  }

  /** A name before every name of an increasing sequence can be put in front of it. */
  lemma {:induction false} SortedCons(m: string, names: seq<string>)
    requires forall i, j :: 0 <= i < j < |names| ==> LexLess(names[i], names[j])
    requires forall k :: 0 <= k < |names| ==> LexLess(m, names[k])
    ensures forall i, j :: 0 <= i < j < |[m] + names| ==> LexLess(([m] + names)[i], ([m] + names)[j])
  {
    var all := [m] + names;
    forall i, j | 0 <= i < j < |all| ensures LexLess(all[i], all[j]) {
      if i > 0 {
        assert all[i] == names[i - 1] && all[j] == names[j - 1];
      } else {
        assert all[j] == names[j - 1];
      }
    }
  }

  /** The least name of a directory followed by a listing of the rest lists the directory. */
  lemma {:induction false} ListingCons(d: Directory, m: string, names: seq<string>)
    requires m in d && forall x :: x in d && x != m ==> LexLess(m, x)
    requires Listing(d - {m}, names)
    ensures Listing(d, [m] + names)
  {
    forall k | 0 <= k < |names| ensures LexLess(m, names[k]) {
      assert names[k] in d - {m};
    }
    SortedCons(m, names);
    assert |d - {m}| == |d| - 1;
    forall n ensures n in d <==> n in [m] + names {
      assert n in [m] + names <==> n == m || n in names;
    }
  }

  /** Every directory has a listing. */
  lemma {:induction false} ListingExists(d: Directory)
    ensures exists names :: Listing(d, names)
    decreases |d|
  {
    if |d| == 0 {
      assert Listing(d, []);
    } else {
      var m := LeastName(d);
      ListingExists(d - {m});
      var names :| Listing(d - {m}, names);
      ListingCons(d, m, names);
    }
  }

  /** A directory has only one listing: ReadDir is deterministic. */
  lemma ListingUnique(d: Directory, a: seq<string>, b: seq<string>)
    requires Listing(d, a) && Listing(d, b)
    ensures a == b
  {
    LexLessIsStrictTotalOrder();
    forall x ensures x in a <==> x in b {
      assert x in a <==> x in d;
    }
    SortedUnique(a, b, LexLess);
  }

  /** The names of a directory in the order ReadDir returns them. */
  ghost function SortedNames(d: Directory): (names: seq<string>)
    ensures Listing(d, names)
  {
    ListingExists(d);
    var names :| Listing(d, names);
    names
  }
}
