/**
 * internal/cache/cache.go: the package-level cache of checked-out
 * repositories. The package variables `dir` and `cache` are the fields of
 * one `Cache` object; Go's nil map is `None`. Each path maps to a `Repo`
 * whose reference set is shared between the copies Go makes of the struct,
 * hence a class. The SHA-1 hex digest and `filepath.Join` are
 * collaborators given to the constructor, and every file-system call is
 * replaced by the outcome the caller passes in.
 */
module Cache {
  import opened Wrappers

  /** The error constants of the package, and an error the file system returned. */
  datatype Error =
    | PathIsAlreadyCached
    | PathIsNotCached
    | CacheIsAlreadySetup
    | CacheIsNotSetup
    | FailedAtSettingUpCache
    | RepoNotInCache
    | RefNotInCache
    | OsError

  /** `Error()` of the package's own constants. */
  function Message(e: Error): (s: string)
    requires !e.OsError?
    ensures |s| > 0
  {
    match e
    case PathIsAlreadyCached => "path is already cached"
    case PathIsNotCached => "path is not cached"
    case CacheIsAlreadySetup => "cache is already setup"
    case CacheIsNotSetup => "cache is not setup"
    case FailedAtSettingUpCache => "failed at setting up cache"
    case RepoNotInCache => "repository not in cache"
    case RefNotInCache => "reference not in cache"
  }

  /** The messages tell the constants apart. */
  lemma MessagesDistinct(a: Error, b: Error)
    requires !a.OsError? && !b.OsError?
    ensures Message(a) == Message(b) ==> a == b
  {
  }

  /** `repo`: the directory name of a repository and the references checked out under it. */
  class Repo {
    const hash: string
    var references: set<string>

    constructor (hash: string)
      ensures this.hash == hash && references == {}
    {
      this.hash := hash;
      references := {};
    }

    /** `r.Add(reference)`. */
    method Add(reference: string)
      modifies this
      ensures references == old(references) + {reference}
      ensures Has(reference)
    {
      references := references + {reference};
    }

    /** `r.Has(reference)`. */
    predicate Has(reference: string)
      reads this
    {
      reference in references
    }
  }

  /** The references recorded for `path` in `refs`, none when the path is unknown. */
  function Known(refs: map<string, set<string>>, path: string): set<string> {
    if path in refs then refs[path] else {}
  }

  class Cache {
    /** `fmt.Sprintf("%x", sha1(path))`. */
    const hash: string -> string
    /** `filepath.Join`. */
    const join: seq<string> -> string
    var dir: string
    var table: Option<map<string, Repo>>

    /** The package's zero state: no directory and a nil table. */
    constructor (hash: string -> string, join: seq<string> -> string)
      ensures this.hash == hash && this.join == join
      ensures dir == "" && table.None?
      ensures Valid()
    {
      this.hash := hash;
      this.join := join;
      dir := "";
      table := None;
    }

    /** Each path's repository is named by the path's hash, and no two paths share one. */
    ghost predicate Valid()
      reads this
    {
      table.Some? ==>
        && (forall p :: p in table.value ==> table.value[p].hash == hash(p))
        && (forall p, q :: p in table.value && q in table.value && p != q ==> table.value[p] != table.value[q])
    }

    /** The repository objects of the table. */
    function Repos(): set<Repo>
      reads this
    {
      if table.None? then {} else set p | p in table.value :: table.value[p]
    }

    /** The table as a map from path to references; a nil table holds nothing. */
    function Refs(): (m: map<string, set<string>>)
      reads this, Repos()
      ensures m.Keys == if table.None? then {} else table.value.Keys
      ensures table.Some? ==> forall p :: p in table.value ==> m[p] == table.value[p].references
    {
      if table.None? then map[] else map p | p in table.value :: table.value[p].references
    }

    /** `Has(path, reference)`: the repository is known and holds the reference (`repo.Has`). */
    function Has(path: string, reference: string): (b: bool)
      reads this, Repos()
      ensures b <==> reference in Known(Refs(), path)
    {
      if table.None? || path !in table.value then false
      else table.value[path].Has(reference)
    }

    /**
     * `Get(path, reference)`: RepoNotInCache for an unknown path (also
     * when the cache is not set up), RefNotInCache for an unknown
     * reference, otherwise `dir/hash(path)/reference`.
     */
    function Get(path: string, reference: string): (r: Result<string, Error>)
      requires Valid()
      reads this, Repos()
      ensures path !in Refs() ==> r == Err(RepoNotInCache)
      ensures path in Refs() && reference !in Refs()[path] ==> r == Err(RefNotInCache)
      ensures path in Refs() && reference in Refs()[path] ==> r == Ok(join([dir, hash(path), reference]))
      ensures r.Ok? <==> Has(path, reference)
    {
      if table.None? || path !in table.value then Err(RepoNotInCache)
      else if !table.value[path].Has(reference) then Err(RefNotInCache)
      else Ok(join([dir, table.value[path].hash, reference]))
    }

    /**
     * `Setup(path)`: refused on a set-up cache, which is left as it was.
     * Otherwise the directory and an empty table are installed before the
     * `os.Mkdir`, so a failing mkdir reports FailedAtSettingUpCache with
     * the cache already set up.
     */
    method Setup(path: string, mkdirOk: bool) returns (err: Option<Error>)
      requires Valid()
      modifies this
      ensures Valid()
      ensures old(table).Some? ==> err == Some(CacheIsAlreadySetup) && table == old(table) && dir == old(dir)
      ensures old(table).None? ==> dir == path && table == Some(map[])
      ensures old(table).None? ==> err == if mkdirOk then None else Some(FailedAtSettingUpCache)
    {
      if table.Some? {
        return Some(CacheIsAlreadySetup);
      }
      dir := path;
      table := Some(map[]);
      if !mkdirOk {
        return Some(FailedAtSettingUpCache);
      }
      return None;
    }

    /**
     * `Add(path, reference)`: refused on a cache that is not set up. An
     * unknown path gets an empty repository before its directory is made;
     * if that mkdir fails the error is returned and the reference is not
     * recorded. Otherwise an unknown reference is recorded before its
     * directory is made, and the result is `dir/hash(path)/reference`
     * unless that mkdir fails.
     */
    method Add(path: string, reference: string, repoDirOk: bool, refDirOk: bool) returns (r: Result<string, Error>)
      requires Valid()
      modifies this, Repos()
      ensures Valid() && dir == old(dir) && table.Some? == old(table).Some?
      ensures old(table).None? ==> r == Err(CacheIsNotSetup)
      ensures old(table).Some? && path !in old(Refs()) && !repoDirOk ==>
                Refs() == old(Refs())[path := {}] && r == Err(OsError)
      ensures old(table).Some? && (path in old(Refs()) || repoDirOk) ==>
                && Refs() == old(Refs())[path := Known(old(Refs()), path) + {reference}]
                && r == if reference !in Known(old(Refs()), path) && !refDirOk then Err(OsError)
                        else Ok(join([dir, hash(path), reference]))
      ensures old(Has(path, reference)) ==> Refs() == old(Refs()) && r == Ok(join([dir, hash(path), reference]))
      ensures r.Ok? ==> Has(path, reference) && Get(path, reference) == r
    {
      if table.None? {
        return Err(CacheIsNotSetup);
      }
      ghost var before := Refs();
      if path !in table.value {
        Register(path);
        if !repoDirOk {
          return Err(OsError);
        }
      }
      assert Refs() == before[path := Known(before, path)];
      r := Attach(path, reference, refDirOk);
      if reference in Known(before, path) {
        assert Known(before, path) + {reference} == Known(before, path);
        assert before[path := before[path]] == before;
      }
    }

    /**
     * The tail of `Add` once the path has a repository: an unknown
     * reference is recorded before its directory is made.
     */
    method Attach(path: string, reference: string, refDirOk: bool) returns (r: Result<string, Error>)
      requires Valid() && table.Some? && path in table.value
      modifies table.value[path]
      ensures Refs() == old(Refs())[path := old(Refs())[path] + {reference}]
      ensures r == if reference !in old(Refs())[path] && !refDirOk then Err(OsError)
                   else Ok(join([dir, hash(path), reference]))
    {
      if !table.value[path].Has(reference) {
        Record(path, reference);
        if !refDirOk {
          return Err(OsError);
        }
      } else {
        assert old(Refs())[path] + {reference} == old(Refs())[path];
      }
      return Ok(join([dir, table.value[path].hash, reference]));
    }

    /** `cache[path] = repo{hash, map[string]struct{}{}}` in `Add`: a fresh, empty repository for a new path. */
    method Register(path: string)
      requires Valid() && table.Some? && path !in table.value
      modifies this
      ensures Valid() && dir == old(dir) && table.Some? && path in table.value
      ensures table.value == old(table.value)[path := table.value[path]] && fresh(table.value[path])
      ensures Refs() == old(Refs())[path := {}]
    {
      var repo := new Repo(hash(path));
      table := Some(table.value[path := repo]);
    }

    /** `cache[path].Add(reference)` in `Add`: the reference joins the path's repository and no other. */
    method Record(path: string, reference: string)
      requires Valid() && table.Some? && path in table.value
      modifies table.value[path]
      ensures Refs() == old(Refs())[path := old(Refs())[path] + {reference}]
    {
      table.value[path].Add(reference);
    }

    /** `Clean()`: CacheIsNotSetup on a cache that is not set up, otherwise nothing. */
    method Clean() returns (err: Option<Error>)
      ensures err == if table.None? then Some(CacheIsNotSetup) else None
    {
      if table.None? {
        return Some(CacheIsNotSetup);
      }
      return None;
    }

    /**
     * `Destroy()`: CacheIsNotSetup on a cache that is not set up;
     * otherwise the table is dropped and the result is that of
     * `os.RemoveAll(dir)`.
     */
    method Destroy(removeOk: bool) returns (err: Option<Error>)
      requires Valid()
      modifies this
      ensures Valid() && dir == old(dir)
      ensures old(table).None? ==> err == Some(CacheIsNotSetup) && table.None?
      ensures old(table).Some? ==> table.None? && err == if removeOk then None else Some(OsError)
    {
      if table.None? {
        return Some(CacheIsNotSetup);
      }
      table := None;
      if !removeOk {
        return Some(OsError);
      }
      return None;
    }
  }

  /**
   * The life cycle the package's own test walks through: a set-up cache
   * refuses a second `Setup`, `Destroy` makes it accept one again, and a
   * failed mkdir still leaves it set up, so the next `Destroy` succeeds.
   */
  method Lifecycle(c: Cache, path: string)
    requires c.Valid() && c.table.None?
    modifies c
    ensures c.Valid() && c.table.None?
  {
    var err := c.Setup(path, true);
    assert err == None;
    err := c.Setup(path, true);
    assert err == Some(CacheIsAlreadySetup);
    err := c.Destroy(true);
    assert err == None;
    err := c.Setup(path, false);
    assert err == Some(FailedAtSettingUpCache) && c.table == Some(map[]);
    err := c.Destroy(true);
    assert err == None;
  }
}
