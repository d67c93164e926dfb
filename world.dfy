/**
  The environment the sync command works against: the filesystem, the
  `lium` library functions whose source is not part of this model, and a
  `Host` object that performs the effectful calls and records them, in order,
  in a trace.
 */
module World {
  import opened Outcomes

  type Path = string

  /** One effectful call made against the filesystem or the repo tooling. */
  datatype Call =
    | ProbeDir(path: Path)                                     // Path::is_dir
    | CreateDir(path: Path)                                    // fs::create_dir_all
    | ProbeAndroidBp(path: Path)                               // Path::exists on <path>/Android.bp
    | ReadArcVersion(path: Path)                               // get_current_synced_arc_version
    | ReadCrosVersion(path: Path)                              // get_current_synced_version
    | ListDir(path: Path)                                      // Path::read_dir
    | SetupArc(path: Path, version: string)                    // setup_arc_repo
    | SetupCros(path: Path, version: string, reference: Option<Path>)  // setup_cros_repo
    | Sync(path: Path, force: bool, verbose: bool)             // repo_sync
  {
    /** The call changes what is on disk (as opposed to only looking at it). */
    predicate Mutates() {
      CreateDir? || SetupArc? || SetupCros? || Sync?
    }

    predicate IsSetup() {
      SetupArc? || SetupCros?
    }
  }

  /** Why a run stopped. `Failed(c)` is a failure reported by the traced call `c`. */
  datatype Error =
    | KindNotSelected
    | UnknownCrosVersion(version: string)
    | UnknownArcVersion(version: string)
    | NoRepoDir(dir: Option<string>)
    | NoReference(reference: Option<string>)
    | NotARepo(path: Path)
    | Failed(call: Call)

  /** What listing a directory yields: `read_dir` fails, or it yields a first entry or not. */
  datatype Listing = Unlistable | Listed(hasEntry: bool)

  /** A directory as far as the sync command can observe it. */
  datatype DirState = DirState(
    androidBp: bool,              // <dir>/Android.bp exists
    arcVersion: Option<string>,   // what get_current_synced_arc_version reads, if it can
    crosVersion: Option<string>,  // what get_current_synced_version reads, if it can
    listing: Listing)

  /** The state of a directory that create_dir_all has just made. */
  const FreshDir := DirState(false, None, None, Listed(false))

  datatype Node = Directory(dir: DirState) | OtherFile

  /**
    The filesystem: what lies at each path, and the paths below which
    directories cannot be created (permissions, read-only mounts).
   */
  datatype Fs = Fs(nodes: map<Path, Node>, unwritable: set<Path>) {

    predicate IsDir(p: Path) {
      p in nodes && nodes[p].Directory?
    }

    predicate HasAndroidBp(p: Path) {
      IsDir(p) && nodes[p].dir.androidBp
    }

    function SyncedArcVersion(p: Path): Option<string> {
      if IsDir(p) then nodes[p].dir.arcVersion else None
    }

    function SyncedCrosVersion(p: Path): Option<string> {
      if IsDir(p) then nodes[p].dir.crosVersion else None
    }

    function Listing(p: Path): Listing {
      if IsDir(p) then nodes[p].dir.listing else Unlistable
    }

    /** create_dir_all succeeds on an existing directory and on a free, writable path. */
    predicate CanCreate(p: Path) {
      IsDir(p) || (p !in nodes && p !in unwritable)
    }

    function Created(p: Path): (fs: Fs)
      requires CanCreate(p)
      ensures fs.IsDir(p) && fs.unwritable == unwritable
      ensures forall q | q != p :: q in fs.nodes <==> q in nodes
      ensures forall q | q != p && q in nodes :: fs.nodes[q] == nodes[q]
      ensures fs.nodes[p] == if IsDir(p) then nodes[p] else Directory(FreshDir)
    {
      if IsDir(p) then this else this.(nodes := nodes[p := Directory(FreshDir)])
    }
  }

  /**
    The answers of the library functions the command relies on: the two
    version lookups, the repo-directory and reference resolvers, and which
    setup and sync calls fail. They depend only on their arguments, so a
    second invocation with the same `Services` gets the same answers.
   */
  datatype Services = Services(
    fullVersions: map<(string, string), string>,        // lookup_full_version(version, board)
    arcVersions: map<string, string>,                   // lookup_arc_version(version)
    repoDirs: map<Option<string>, Path>,                // get_cros_dir_unchecked(dir)
    references: map<Option<string>, Option<Path>>,      // get_reference_repo(reference)
    failing: set<Call>)                                 // setup_* and repo_sync calls that fail
  {
    function LookupFullVersion(version: string, board: string): Result<string, Error> {
      if (version, board) in fullVersions then Ok(fullVersions[(version, board)])
      else Err(UnknownCrosVersion(version))
    }

    function LookupArcVersion(version: string): Result<string, Error> {
      if version in arcVersions then Ok(arcVersions[version]) else Err(UnknownArcVersion(version))
    }

    function GetCrosDirUnchecked(dir: Option<string>): Result<Path, Error> {
      if dir in repoDirs then Ok(repoDirs[dir]) else Err(NoRepoDir(dir))
    }

    function GetReferenceRepo(reference: Option<string>): Result<Option<Path>, Error> {
      if reference in references then Ok(references[reference]) else Err(NoReference(reference))
    }

    /** The outcome of a setup or sync call. */
    function Perform(c: Call): Result<(), Error> {
      if c in failing then Err(Failed(c)) else Ok(())
    }
  }

  /**
    The machine the command runs on. Every effectful call goes through a
    method here, which answers it from `fs` and `services` and appends it
    to `calls`.
   */
  class Host {
    var fs: Fs
    var calls: seq<Call>
    const services: Services

    constructor (fs: Fs, services: Services)
      ensures this.fs == fs && this.services == services && calls == []
    {
      this.fs := fs;
      this.services := services;
      calls := [];
    }

    method IsDir(p: Path) returns (b: bool)
      modifies this`calls
      ensures calls == old(calls) + [ProbeDir(p)]
      ensures b <==> fs.IsDir(p)
    {
      calls := calls + [ProbeDir(p)];
      b := fs.IsDir(p);
    }

    method CreateDirAll(p: Path) returns (r: Result<(), Error>)
      modifies this
      ensures calls == old(calls) + [CreateDir(p)]
      ensures r.Ok? <==> old(fs).CanCreate(p)
      ensures r == if r.Ok? then Ok(()) else Err(Failed(CreateDir(p)))
      ensures fs == if r.Ok? then old(fs).Created(p) else old(fs)
    {
      calls := calls + [CreateDir(p)];
      if fs.CanCreate(p) {
        fs := fs.Created(p);
        r := Ok(());
      } else {
        r := Err(Failed(CreateDir(p)));
      }
    }

    method AndroidBpExists(p: Path) returns (b: bool)
      modifies this`calls
      ensures calls == old(calls) + [ProbeAndroidBp(p)]
      ensures b <==> fs.HasAndroidBp(p)
    {
      calls := calls + [ProbeAndroidBp(p)];
      b := fs.HasAndroidBp(p);
    }

    method GetCurrentSyncedArcVersion(p: Path) returns (r: Result<string, Error>)
      modifies this`calls
      ensures calls == old(calls) + [ReadArcVersion(p)]
      ensures r.Ok? <==> fs.SyncedArcVersion(p).Some?
      ensures r.Ok? ==> r.value == fs.SyncedArcVersion(p).value
      ensures r.Err? ==> r.error == Failed(ReadArcVersion(p))
    {
      calls := calls + [ReadArcVersion(p)];
      var v := fs.SyncedArcVersion(p);
      r := if v.Some? then Ok(v.value) else Err(Failed(ReadArcVersion(p)));
    }

    method GetCurrentSyncedVersion(p: Path) returns (r: Result<string, Error>)
      modifies this`calls
      ensures calls == old(calls) + [ReadCrosVersion(p)]
      ensures r.Ok? <==> fs.SyncedCrosVersion(p).Some?
      ensures r.Ok? ==> r.value == fs.SyncedCrosVersion(p).value
    {
      calls := calls + [ReadCrosVersion(p)];
      var v := fs.SyncedCrosVersion(p);
      r := if v.Some? then Ok(v.value) else Err(Failed(ReadCrosVersion(p)));
    }

    /** `read_dir(p)?.next().is_some()`: fails when the directory cannot be listed. */
    method ReadDirHasEntry(p: Path) returns (r: Result<bool, Error>)
      modifies this`calls
      ensures calls == old(calls) + [ListDir(p)]
      ensures r.Ok? <==> fs.Listing(p).Listed?
      ensures r.Ok? ==> r.value == fs.Listing(p).hasEntry
      ensures r.Err? ==> r.error == Failed(ListDir(p))
    {
      calls := calls + [ListDir(p)];
      var l := fs.Listing(p);
      r := if l.Listed? then Ok(l.hasEntry) else Err(Failed(ListDir(p)));
    }

    method SetupArcRepo(repo: Path, version: string) returns (r: Result<(), Error>)
      modifies this`calls
      ensures calls == old(calls) + [SetupArc(repo, version)]
      ensures r.Ok? <==> SetupArc(repo, version) !in services.failing
      ensures r == services.Perform(SetupArc(repo, version))
    {
      calls := calls + [SetupArc(repo, version)];
      r := services.Perform(SetupArc(repo, version));
    }

    method SetupCrosRepo(repo: Path, version: string, reference: Option<Path>) returns (r: Result<(), Error>)
      modifies this`calls
      ensures calls == old(calls) + [SetupCros(repo, version, reference)]
      ensures r.Ok? <==> SetupCros(repo, version, reference) !in services.failing
      ensures r == services.Perform(SetupCros(repo, version, reference))
    {
      calls := calls + [SetupCros(repo, version, reference)];
      r := services.Perform(SetupCros(repo, version, reference));
    }

    method RepoSync(repo: Path, force: bool, verbose: bool) returns (r: Result<(), Error>)
      modifies this`calls
      ensures calls == old(calls) + [Sync(repo, force, verbose)]
      ensures r.Ok? <==> Sync(repo, force, verbose) !in services.failing
      ensures r == services.Perform(Sync(repo, force, verbose))
    {
      calls := calls + [Sync(repo, force, verbose)];
      r := services.Perform(Sync(repo, force, verbose));
    }
  }
}
