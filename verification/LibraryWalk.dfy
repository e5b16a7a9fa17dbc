/** Walking the output directory and its game directories reaches every file a scan or a cleanup is for. */
module LibraryWalk {
  import opened ClipIndex
  import opened LibraryScan
  import opened LibraryCleanup

  function Leftovers(disk: Disk): set<Path> {
    set p | p in disk && IsLeftover(disk, p)
  }

  /** No look at a file and no directory listing fails. */
  ghost predicate Readable(disk: Disk, env: Env) {
    && ([] in disk ==> disk[[]].Directory?)
    && forall p :: !env.statFails(p) && !env.readDirFails(p)
  }

  /** Listings name what is there, once. */
  ghost predicate ExactListings(disk: Disk, env: Env) {
    forall dir | dir in disk && disk[dir].Directory? ::
      && (forall i | 0 <= i < |env.listing(dir)| :: dir + [env.listing(dir)[i]] in disk)
      && (forall i, j | 0 <= i < j < |env.listing(dir)| :: env.listing(dir)[i] != env.listing(dir)[j])
  }

  /** The files wanted from one directory, among the listed names, are dealt with. */
  predicate ChildrenDone(wanted: set<Path>, done: set<Path>, dir: Path, names: seq<string>) {
    forall name | name in names && dir + [name] in wanted :: dir + [name] in done
  }

  predicate NameDone(wanted: set<Path>, done: set<Path>, name: string) {
    forall p | p in wanted && p != [] && p[0] == name :: p in done
  }

  predicate NamesDone(wanted: set<Path>, done: set<Path>, names: seq<string>) {
    forall name | name in names :: NameDone(wanted, done, name)
  }

  lemma NoChildren(wanted: set<Path>, done: set<Path>, dir: Path)
    ensures ChildrenDone(wanted, done, dir, [])
  {
  }

  lemma NoNames(wanted: set<Path>, done: set<Path>)
    ensures NamesDone(wanted, done, [])
  {
  }

  lemma OneMoreChild(wanted: set<Path>, done: set<Path>, more: set<Path>, dir: Path, names: seq<string>, j: nat)
    requires j < |names| && ChildrenDone(wanted, done, dir, names[..j]) && done <= more
    requires dir + [names[j]] in wanted ==> dir + [names[j]] in more
    ensures ChildrenDone(wanted, more, dir, names[..j + 1])
  {
    assert names[..j + 1] == names[..j] + [names[j]];
  }

  lemma OneMoreName(wanted: set<Path>, done: set<Path>, more: set<Path>, names: seq<string>, i: nat)
    requires i < |names| && NamesDone(wanted, done, names[..i]) && done <= more
    requires NameDone(wanted, more, names[i])
    ensures NamesDone(wanted, more, names[..i + 1])
  {
    forall name | name in names[..i + 1] ensures NameDone(wanted, more, name) {
      assert names[..i + 1] == names[..i] + [names[i]];
      if name != names[i] { assert NameDone(wanted, done, name); }
    }
  }

  /** A name is dealt with when its own file is and, if it is a directory, all its listed files are. */
  lemma NameIsDone(disk: Disk, env: Env, wanted: set<Path>, done: set<Path>, name: string)
    requires DiskShape(disk, env) && forall p | p in wanted :: Present(disk, p)
    requires [name] in wanted ==> [name] in done
    requires [name] in disk && disk[[name]].Directory? ==> ChildrenDone(wanted, done, [name], env.listing([name]))
    ensures NameDone(wanted, done, name)
  {
    hide DiskShape;
    forall p | p in wanted && p != [] && p[0] == name ensures p in done {
      assert Present(disk, p);
      if |p| == 1 {
        assert p == [name];
      } else {
        ListedInDirectory(disk, env, p);
        assert p[..1] == [name] && p == [name] + [p[1]];
      }
    }
  }

  lemma ListedInDirectory(disk: Disk, env: Env, p: Path)
    requires DiskShape(disk, env) && Present(disk, p) && |p| == 2
    ensures p[..1] in disk && disk[p[..1]].Directory? && p[1] in env.listing(p[..1])
  {
    assert p[|p| - 1] in env.listing(p[..|p| - 1]);
  }

  lemma AllDone(disk: Disk, env: Env, wanted: set<Path>, done: set<Path>)
    requires DiskShape(disk, env) && forall p | p in wanted :: Present(disk, p)
    requires NamesDone(wanted, done, env.listing([]))
    ensures wanted <= done
  {
    forall p | p in wanted ensures p in done {
      assert Present(disk, p);
      FirstIsListed(disk, env, p);
      assert NameDone(wanted, done, p[0]);
    }
  }

  lemma FirstIsListed(disk: Disk, env: Env, p: Path)
    requires DiskShape(disk, env) && Present(disk, p)
    ensures p[0] in env.listing([])
  {
    var first := p[..1];
    assert |p| == 1 ==> first == p;
    assert first in disk && first[..|first| - 1] == [] && first[|first| - 1] == p[0];
  }
}
