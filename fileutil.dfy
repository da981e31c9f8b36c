/**
 * The directory helpers of `src/utils/fileutil.ts` over an abstract file
 * system: the set of directory paths that exist. The working directory `.`
 * and the root `/` always exist, and so does the parent (`Dirname`) of every
 * directory that exists.
 */
module FileUtil {
  import opened Wrappers
  import opened Paths

  /** The errors the file-system calls of the source can throw. */
  datatype FsError =
    | ENOENT(path: string)      // `fs.mkdirSync` on "" or below a missing directory
    | EEXIST(path: string)      // `fs.mkdirSync` on a directory that exists
    | NoSuchPath(path: string)  // the error `getFiles` throws for a missing path

  /**
   * `dirname.replace(/\/[^\/]*$/, '')`: drops the last `/` and everything
   * after it; a path without `/` is left as it is.
   */
  function TrimLastSegment(s: string): (r: string)
    ensures ('/' in s) == (|r| < |s|)
    ensures |r| <= |s| && r == s[..|r|]
    ensures |r| < |s| ==> s[|r|] == '/' && '/' !in s[|r| + 1..]
  {
    match LastSlash(s)
    case None => s
    case Some(k) => s[..k]
  }

  /** A path is the trimmed path, a `/` and its last segment (when it has a `/`). */
  lemma TrimAndLastSegment(s: string)
    ensures '/' in s ==> s == TrimLastSegment(s) + "/" + LastSegment(s)
    ensures '/' !in s ==> TrimLastSegment(s) == s == LastSegment(s)
  {
  }

  /** Appending `/` to a path and trimming gives the path back. */
  lemma TrimAppendedSlash(d: string)
    ensures TrimLastSegment(d + "/") == d
  {
  }

  /** Trimming `t + "/" + n`, for `n` without `/`, gives `t`. */
  lemma TrimBeforeSegment(t: string, n: string)
    requires '/' !in n
    ensures TrimLastSegment(t + "/" + n) == t
  {
    LastSlashBeforeSegment(t, n);
    assert (t + "/" + n)[..|t|] == t;
  }

  lemma TrimExamples()
    ensures TrimLastSegment("a/b/c.jpg") == "a/b"
    ensures TrimLastSegment("a/b/") == "a/b"
    ensures TrimLastSegment("abc") == "abc"
  {
  }

  /** A set of directories in which every directory's parent exists. */
  ghost predicate Closed(dirs: set<string>) {
    forall p {:trigger Dirname(p)} :: p in dirs ==> Dirname(p) in dirs
  }

  /**
   * The directories `mkdir` creates for the target `t`, in the order it
   * creates them: the ancestors of `t` that are missing from `dirs`, up to
   * the first one that exists, outermost first. This is what `mkdir` creates
   * only for a target other than "": `fs.mkdirSync("")` throws instead.
   */
  function Missing(t: string, dirs: set<string>): seq<string>
    decreases Rank(t)
  {
    if t in dirs || IsRoot(t) then []
    else
      DirnameDecreasesRank(t);
      Missing(Dirname(t), dirs) + [t]
  }

  function Elements(s: seq<string>): set<string> {
    set x | x in s
  }

  /** `mkdir` creates only the target and its ancestors, none of which existed. */
  lemma {:induction false} MissingAreNewAncestors(t: string, dirs: set<string>)
    decreases Rank(t)
    ensures forall x :: x in Missing(t, dirs) ==> x in Ancestry(t) && x !in dirs
  {
    if !(t in dirs || IsRoot(t)) {
      DirnameDecreasesRank(t);
      MissingAreNewAncestors(Dirname(t), dirs);
    }
  }

  /** Each created directory's parent exists before it or was created just before it. */
  lemma {:induction false} MissingParentsFirst(t: string, dirs: set<string>)
    decreases Rank(t)
    ensures var m := Missing(t, dirs);
      |m| > 0 ==> Dirname(m[0]) in dirs || IsRoot(Dirname(m[0]))
    ensures var m := Missing(t, dirs);
      forall i :: 0 < i < |m| ==> Dirname(m[i]) == m[i - 1]
  {
    if !(t in dirs || IsRoot(t)) {
      DirnameDecreasesRank(t);
      var p := Dirname(t);
      MissingParentsFirst(p, dirs);
      var m := Missing(t, dirs);
      assert m == Missing(p, dirs) + [t];
      if Missing(p, dirs) != [] {
        MissingEndsAtTarget(p, dirs);
      } else {
        assert p in dirs || IsRoot(p);
      }
    }
  }

  /** When `mkdir` creates anything, the target is created last. */
  lemma MissingEndsAtTarget(t: string, dirs: set<string>)
    requires Missing(t, dirs) != []
    ensures Missing(t, dirs)[|Missing(t, dirs)| - 1] == t
  {
  }

  /** Once the missing directories are added, the target and all its ancestors exist. */
  lemma {:induction false} MissingCompletesAncestry(t: string, dirs: set<string>)
    requires Closed(dirs) && "." in dirs && "/" in dirs
    decreases Rank(t)
    ensures forall a :: a in Ancestry(t) ==> a in dirs + Elements(Missing(t, dirs))
  {
    if t in dirs {
      AncestryExists(t, dirs);
    } else if !IsRoot(t) {
      DirnameDecreasesRank(t);
      MissingCompletesAncestry(Dirname(t), dirs);
    }
  }

  /** In a closed set, an existing directory's ancestors all exist. */
  lemma {:induction false} AncestryExists(t: string, dirs: set<string>)
    requires Closed(dirs) && t in dirs
    decreases Rank(t)
    ensures forall a :: a in Ancestry(t) ==> a in dirs
  {
    if !IsRoot(t) {
      DirnameDecreasesRank(t);
      AncestryExists(Dirname(t), dirs);
    }
  }

  /** Repeating `mkdir` after it has created what was missing creates nothing. */
  lemma MkdirIdempotent(t: string, dirs: set<string>)
    ensures Missing(t, dirs + Elements(Missing(t, dirs))) == []
  {
  }

  /** The directory entries `readdirSync` lists: the last segments of `p`'s children. */
  function Entries(dirs: set<string>, p: string): (r: set<string>)
    ensures forall n :: n in r ==> '/' !in n
    ensures forall q :: q in dirs && q != p && Dirname(q) == p ==> LastSegment(q) in r
  {
    set q | q in dirs && q != p && Dirname(q) == p :: LastSegment(q)
  }

  /** After `mkdir` of a target that is neither a root nor "", its parent lists it. */
  lemma MkdirListsTarget(t: string, dirs: set<string>)
    requires Closed(dirs) && "." in dirs && "/" in dirs && !IsRoot(t) && t != ""
    ensures LastSegment(t) in Entries(dirs + Elements(Missing(t, dirs)), Dirname(t))
  {
  }

  /**
   * What `mkdir` knows between its recursive call on the parent of a missing
   * target `d` and its own `fs.mkdirSync(d)`.
   */
  lemma MkdirStep(d: string, before: set<string>, after: set<string>)
    requires !IsRoot(d) && d !in before
    requires after == before + Elements(Missing(Dirname(d), before))
    requires forall a :: a in Ancestry(Dirname(d)) ==> a in after
    ensures Dirname(d) in after && d !in after
    ensures Missing(d, before) == Missing(Dirname(d), before) + [d]
  {
    var parent := Dirname(d);
    assert parent in Ancestry(parent);
    DirnameDecreasesRank(d);
    MissingAreNewAncestors(parent, before);
    if d in Ancestry(parent) {
      AncestryRank(parent, d);
    }
  }

  /** A directory whose parent's ancestry exists has its own ancestry exist once it is created. */
  lemma AncestryStep(d: string, dirs: set<string>)
    requires !IsRoot(d) && d in dirs
    requires forall a :: a in Ancestry(Dirname(d)) ==> a in dirs
    ensures forall a :: a in Ancestry(d) ==> a in dirs
  {
  }

  /** `mkdir`'s own `fs.mkdirSync(d)` after its recursive call completes the missing ancestors of `d`. */
  lemma MkdirCreatesMissing(d: string, dirs0: set<string>, dirs1: set<string>, dirs2: set<string>,
                            created0: seq<string>, created1: seq<string>, created2: seq<string>)
    requires !IsRoot(d) && d !in dirs0
    requires dirs1 == dirs0 + Elements(Missing(Dirname(d), dirs0))
    requires created1 == created0 + Missing(Dirname(d), dirs0)
    requires forall a :: a in Ancestry(Dirname(d)) ==> a in dirs1
    requires dirs2 == dirs1 + {d} && created2 == created1 + [d]
    ensures created2 == created0 + Missing(d, dirs0)
    ensures dirs2 == dirs0 + Elements(Missing(d, dirs0))
    ensures forall a :: a in Ancestry(d) ==> a in dirs2
  {
  }

  /** The file system the helpers act on. */
  class FileSystem {
    /** The directories that exist. */
    var dirs: set<string>
    /** Every directory `fs.mkdirSync` created, in order. */
    var created: seq<string>

    ghost predicate Valid()
      reads this
    {
      "." in dirs && "/" in dirs && "" !in dirs && Closed(dirs)
    }

    /** A file system holding only the working directory and the root. */
    constructor ()
      ensures Valid() && dirs == {".", "/"} && created == []
    {
      dirs, created := {".", "/"}, [];
      DirnameOfRoot(".");
      DirnameOfRoot("/");
    }

    /** `isExist(dirname)`: `fs.accessSync` succeeds exactly on existing paths. */
    function IsExist(dirname: string): (b: bool)
      reads this
      requires Valid()
      ensures b <==> dirname in dirs
      ensures dirname == "" ==> !b
      ensures IsRoot(dirname) ==> b
    {
      dirname in dirs
    }

    /** `getFiles(dirname)`: throws for a missing path, otherwise lists its entries. */
    function GetFiles(dirname: string): (r: Result<set<string>, FsError>)
      reads this
      requires Valid()
      ensures r.Err? <==> !IsExist(dirname)
      ensures r.Err? ==> r.error == NoSuchPath(dirname)
      ensures r.Ok? ==> r.value == Entries(dirs, dirname)
    {
      if !IsExist(dirname) then Err(NoSuchPath(dirname))
      else Ok(Entries(dirs, dirname))
    }

    /** `fs.mkdirSync(p)` without the recursive option. */
    method MkdirSync(p: string) returns (res: Outcome<FsError>)
      requires Valid()
      modifies this
      ensures Valid()
      ensures (p == "" || Dirname(p) !in old(dirs)) ==>
        res == Fail(ENOENT(p)) && dirs == old(dirs) && created == old(created)
      ensures p != "" && Dirname(p) in old(dirs) && p in old(dirs) ==>
        res == Fail(EEXIST(p)) && dirs == old(dirs) && created == old(created)
      ensures p != "" && Dirname(p) in old(dirs) && p !in old(dirs) ==>
        res == Pass && dirs == old(dirs) + {p} && created == old(created) + [p]
    {
      if p == "" || Dirname(p) !in dirs {
        res := Fail(ENOENT(p));
      } else if p in dirs {
        res := Fail(EEXIST(p));
      } else {
        dirs, created := dirs + {p}, created + [p];
        res := Pass;
      }
    }

    /**
     * `mkdir(dirname)`: trims the last segment off `dirname` and, when that
     * directory is missing, first ensures its parent the same way and then
     * creates it. The only target it cannot create is "", the trim of a path
     * such as "/x" whose one `/` comes first.
     */
    method Mkdir(dirname: string) returns (res: Outcome<FsError>)
      requires Valid()
      modifies this
      decreases Rank(TrimLastSegment(dirname))
      ensures Valid()
      ensures var t := TrimLastSegment(dirname);
        t == "" ==> res == Fail(ENOENT("")) && dirs == old(dirs) && created == old(created)
      ensures var t := TrimLastSegment(dirname);
        t != "" ==> (res == Pass
          && created == old(created) + Missing(t, old(dirs))
          && dirs == old(dirs) + Elements(Missing(t, old(dirs))))
      ensures var t := TrimLastSegment(dirname);
        t != "" ==> forall a :: a in Ancestry(t) ==> a in dirs
    {
      var d := TrimLastSegment(dirname);
      var exist := IsExist(d);
      if !exist {
        var parent := Dirname(d);
        TrimAppendedSlash(parent);
        DirnameDecreasesRank(d);
        ghost var dirs0, created0 := dirs, created;
        res := Mkdir(parent + "/");
        MkdirStep(d, dirs0, dirs);
        ghost var dirs1, created1 := dirs, created;
        res := MkdirSync(d);
        if d != "" {
          MkdirCreatesMissing(d, dirs0, dirs1, dirs, created0, created1, created);
        } else {
          assert Missing(".", dirs0) == [];
        }
      } else {
        res := Pass;
        AncestryExists(d, dirs);
      }
    }
  }
}
