/** The operating system as the jail and mount code sees it: the directory
    tree `mkdir` works on, the set of running jails, the mount table that
    `getmntinfo` reports and the exit status of the commands `exec` runs.
    Every system call the code makes is recorded, in order, in a trace. */
module Host {
  import opened Strings

  /** The `errno` values the code tells apart after a failed `mkdir`. */
  datatype Errno = EEXIST | EISDIR | EOTHER

  /** One system call, as the trace records it. */
  datatype Event =
    | Mkdir(path: string)
    | JailRemove(jail: string)
    | JailCreate(params: seq<(string, string)>)
    | Unmount(path: string)
    | Nmount(fstype: string, fspath: string, target: string)
    | Exec(path: string, argv: seq<string>)

  /** What `mkdir(d)` reports: None on success. The degenerate path `/`
      names the root and is refused with EISDIR, an existing directory with
      EEXIST, and the paths in `refused` (no parent, no permission, a file
      in place of a parent) with some other error. */
  function MkdirError(dirs: set<string>, refused: set<string>, d: string): (r: Option<Errno>)
    ensures r.None? <==> d != "/" && d !in dirs && d !in refused
    ensures d in dirs && d != "/" ==> r == Some(EEXIST)
  {
    if d == "/" then Some(EISDIR)
    else if d in dirs then Some(EEXIST)
    else if d in refused then Some(EOTHER)
    else None
  }

  /** The mount table with the most recent mount on `m` taken off. */
  function RemoveLast(s: seq<string>, m: string): (r: seq<string>)
    ensures multiset(r) == multiset(s) - multiset{m}
  {
    if s == [] then []
    else if s[|s| - 1] == m then
      assert s == s[..|s| - 1] + [m];
      s[..|s| - 1]
    else
      assert s == s[..|s| - 1] + [s[|s| - 1]];
      RemoveLast(s[..|s| - 1], m) + [s[|s| - 1]]
  }

  class Machine {
    /** The directories that exist. */
    var dirs: set<string>
    /** The paths `mkdir` refuses with an error other than EEXIST/EISDIR. */
    const refused: set<string>
    /** The names of the running jails. */
    var jails: set<string>
    /** The mount points of the mount table, oldest first. */
    var mounts: seq<string>
    /** The exit status of running a program with an argument vector. */
    const status: (string, seq<string>) -> int
    /** The nullfs mounts `nmount` refuses, by mount point. */
    const nmountRefused: set<string>
    /** The system calls made so far. */
    var trace: seq<Event>

    constructor(dirs: set<string>, refused: set<string>, jails: set<string>, mounts: seq<string>,
                status: (string, seq<string>) -> int, nmountRefused: set<string>)
      ensures this.dirs == dirs && this.refused == refused && this.jails == jails
      ensures this.mounts == mounts && this.status == status && this.nmountRefused == nmountRefused
      ensures trace == []
    {
      this.dirs := dirs;
      this.refused := refused;
      this.jails := jails;
      this.mounts := mounts;
      this.status := status;
      this.nmountRefused := nmountRefused;
      trace := [];
    }

    /** `mkdir(d, mode)`: on success the directory exists afterwards. */
    method MakeDir(d: string) returns (err: Option<Errno>)
      modifies this
      ensures err == MkdirError(old(dirs), refused, d)
      ensures dirs == if err.None? then old(dirs) + {d} else old(dirs)
      ensures trace == old(trace) + [Mkdir(d)]
      ensures jails == old(jails) && mounts == old(mounts)
    {
      err := MkdirError(dirs, refused, d);
      if err.None? {
        dirs := dirs + {d};
      }
      trace := trace + [Mkdir(d)];
    }

    /** `jail_getid(name) >= 0`. */
    function Running(name: string): bool
      reads this
    {
      name in jails
    }

    /** `jail_remove(jid)` on a running jail. */
    method RemoveJail(name: string)
      requires name in jails
      modifies this
      ensures jails == old(jails) - {name}
      ensures trace == old(trace) + [JailRemove(name)]
      ensures dirs == old(dirs) && mounts == old(mounts)
    {
      jails := jails - {name};
      trace := trace + [JailRemove(name)];
    }

    /** `jail_setv(JAIL_CREATE, ...)`: the jail named by the `name`
        parameter runs afterwards. */
    method CreateJail(name: string, params: seq<(string, string)>)
      modifies this
      ensures jails == old(jails) + {name}
      ensures trace == old(trace) + [JailCreate(params)]
      ensures dirs == old(dirs) && mounts == old(mounts)
    {
      jails := jails + {name};
      trace := trace + [JailCreate(params)];
    }

    /** `unmount(path, MNT_FORCE)`: the most recent mount on `path` goes. */
    method UnmountPath(path: string)
      modifies this
      ensures mounts == RemoveLast(old(mounts), path)
      ensures trace == old(trace) + [Unmount(path)]
      ensures dirs == old(dirs) && jails == old(jails)
    {
      mounts := RemoveLast(mounts, path);
      trace := trace + [Unmount(path)];
    }

    /** `nmount` of a nullfs view of `target` on `fspath`; returns whether
        it failed. */
    method MountNullfs(fspath: string, target: string) returns (failed: bool)
      modifies this
      ensures failed == (fspath in nmountRefused)
      ensures mounts == if failed then old(mounts) else old(mounts) + [fspath]
      ensures trace == old(trace) + [Nmount("nullfs", fspath, target)]
      ensures dirs == old(dirs) && jails == old(jails)
    {
      failed := fspath in nmountRefused;
      if !failed {
        mounts := mounts + [fspath];
      }
      trace := trace + [Nmount("nullfs", fspath, target)];
    }

    /** `exec(path, argv)`: run a program to completion and return its exit
        status. */
    method Run(path: string, argv: seq<string>) returns (r: int)
      modifies this
      ensures r == status(path, argv)
      ensures trace == old(trace) + [Exec(path, argv)]
      ensures dirs == old(dirs) && jails == old(jails) && mounts == old(mounts)
    {
      r := status(path, argv);
      trace := trace + [Exec(path, argv)];
    }
  }
}
