/** `mount_nullfs`: make the directories a build needs and null-mount the
    ports tree, the package directory and, when one is configured, the
    distfiles cache into a jail. Every failure is fatal (`err(1, ...)`). */
module Nullfs {
  import opened Strings
  import opened Host
  import opened Jails

  /** The ports tree being mounted: its name and where it is mounted. */
  datatype PortTree = PortTree(name: string, mountpoint: string)

  /** The configuration `mount_nullfs` reads: the data directory and the
      optional distfiles cache. */
  datatype Conf = Conf(data: string, distfilesCache: Option<string>)

  /** One step: `mkdir(path, 0755)`, or the nullfs `nmount` of `target`
      on `fspath`. */
  datatype Step = Dir(path: string) | Null(fspath: string, target: string)

  /** The system call a step makes. */
  function StepEvent(s: Step): Event
  {
    match s
    case Dir(d) => Mkdir(d)
    case Null(f, t) => Nmount("nullfs", f, t)
  }

  function StepEvents(steps: seq<Step>): (r: seq<Event>)
    ensures |r| == |steps|
    ensures forall k :: 0 <= k < |steps| ==> r[k] == StepEvent(steps[k])
  {
    if steps == [] then [] else [StepEvent(steps[0])] + StepEvents(steps[1..])
  }

  /** The ports tree: its `ports` directory, the jail's `/usr/ports`, and
      the mount of the one on the other. */
  function PortsSteps(j: Jail, p: PortTree): seq<Step>
  {
    [ Dir(p.mountpoint + "/ports"),
      Dir(j.mountpoint + "/usr/ports"),
      Null(j.mountpoint + "/usr/ports", p.mountpoint + "/ports") ]
  }

  /** The directory the packages built for jail `j` and tree `p` go to. */
  function PackageDir(j: Jail, p: PortTree, conf: Conf): string
  {
    conf.data + "/packages/" + j.name + "-" + p.name
  }

  function PackagesSteps(j: Jail, p: PortTree, conf: Conf): seq<Step>
  {
    [ Dir(conf.data + "/packages"),
      Dir(PackageDir(j, p, conf)),
      Dir(j.mountpoint + "/usr/ports/packages"),
      Null(j.mountpoint + "/usr/ports/packages", PackageDir(j, p, conf)) ]
  }

  function DistfilesSteps(j: Jail, conf: Conf): seq<Step>
  {
    match conf.distfilesCache
    case None => []
    case Some(cache) =>
      [ Dir(j.mountpoint + "/usr/ports/distfiles"),
        Null(j.mountpoint + "/usr/ports/distfiles", cache) ]
  }

  /** The steps of `mount_nullfs`, in order. */
  function Plan(j: Jail, p: PortTree, conf: Conf): seq<Step>
  {
    PortsSteps(j, p) + PackagesSteps(j, p, conf) + DistfilesSteps(j, conf)
  }

  /** The nullfs mount points a run of steps adds to the mount table. */
  function Mounted(steps: seq<Step>): seq<string>
  {
    if steps == [] then []
    else (if steps[0].Null? then [steps[0].fspath] else []) + Mounted(steps[1..])
  }

  /** Whether a step ends the program: a `mkdir` that fails other than
      with EEXIST, or an `nmount` that fails. */
  predicate Fails(refused: set<string>, nmountRefused: set<string>, dirs: set<string>, s: Step)
  {
    match s
    case Dir(d) => MkdirError(dirs, refused, d).Some? && MkdirError(dirs, refused, d) != Some(EEXIST)
    case Null(f, _) => f in nmountRefused
  }

  /** What carrying out steps leaves behind: whether the program stopped on
      a failure, the directories and mounts, and the system calls made. */
  datatype Done = Done(fatal: bool, dirs: set<string>, mounts: seq<string>, events: seq<Event>)

  /** Carry out the steps in order, stopping at the first that fails. */
  function Carry(refused: set<string>, nmountRefused: set<string>, dirs: set<string>, mounts: seq<string>,
                 steps: seq<Step>): Done
    decreases |steps|
  {
    if steps == [] then Done(false, dirs, mounts, [])
    else
      var s := steps[0];
      if Fails(refused, nmountRefused, dirs, s) then Done(true, dirs, mounts, [StepEvent(s)])
      else
        var dirs' := if s.Dir? && MkdirError(dirs, refused, s.path).None? then dirs + {s.path} else dirs;
        var mounts' := if s.Null? then mounts + [s.fspath] else mounts;
        var r := Carry(refused, nmountRefused, dirs', mounts', steps[1..]);
        Done(r.fatal, r.dirs, r.mounts, [StepEvent(s)] + r.events)
  }

  lemma MountedAppend(a: seq<Step>, b: seq<Step>)
    ensures Mounted(a + b) == Mounted(a) + Mounted(b)
  {
    if a == [] {
      assert a + b == b;
    } else {
      assert (a + b)[1..] == a[1..] + b;
      MountedAppend(a[1..], b);
    }
  }

  /** The steps carried out are a prefix of the plan, all of it unless one
      failed, in which case the failing step is the last one made and
      nothing after it runs. */
  lemma {:induction false} CarryEvents(refused: set<string>, nmountRefused: set<string>, dirs: set<string>,
                                       mounts: seq<string>, steps: seq<Step>)
    ensures var r := Carry(refused, nmountRefused, dirs, mounts, steps);
      && |r.events| <= |steps|
      && r.events == StepEvents(steps[..|r.events|])
      && (!r.fatal ==> |r.events| == |steps|)
      && (r.fatal ==> |r.events| > 0 && Fails(refused, nmountRefused, r.dirs, steps[|r.events| - 1]))
    decreases |steps|
  {
    if steps != [] {
      var s := steps[0];
      if !Fails(refused, nmountRefused, dirs, s) {
        var dirs' := if s.Dir? && MkdirError(dirs, refused, s.path).None? then dirs + {s.path} else dirs;
        var mounts' := if s.Null? then mounts + [s.fspath] else mounts;
        var rest := steps[1..];
        CarryEvents(refused, nmountRefused, dirs', mounts', rest);
        var n := |Carry(refused, nmountRefused, dirs', mounts', rest).events|;
        assert steps[..n + 1][1..] == rest[..n];
      } else {
        assert steps[..1][1..] == [];
      }
    }
  }

  /** No more calls are made than there are steps, and a failure is the
      failure of some call. */
  lemma {:induction false} CarryLength(refused: set<string>, nmountRefused: set<string>, dirs: set<string>,
                                       mounts: seq<string>, steps: seq<Step>)
    ensures var r := Carry(refused, nmountRefused, dirs, mounts, steps);
      |r.events| <= |steps| && (r.fatal ==> |r.events| > 0)
    decreases |steps|
  {
    if steps != [] && !Fails(refused, nmountRefused, dirs, steps[0]) {
      var s := steps[0];
      var dirs' := if s.Dir? && MkdirError(dirs, refused, s.path).None? then dirs + {s.path} else dirs;
      var mounts' := if s.Null? then mounts + [s.fspath] else mounts;
      CarryLength(refused, nmountRefused, dirs', mounts', steps[1..]);
    }
  }

  /** Only the nullfs steps carried out successfully add mounts, in order,
      and directories are only ever added. */
  lemma {:induction false} CarryMounts(refused: set<string>, nmountRefused: set<string>, dirs: set<string>,
                                       mounts: seq<string>, steps: seq<Step>)
    ensures var r := Carry(refused, nmountRefused, dirs, mounts, steps);
      && |r.events| <= |steps|
      && (!r.fatal ==> r.mounts == mounts + Mounted(steps))
      && (r.fatal ==> |r.events| > 0 && r.mounts == mounts + Mounted(steps[..|r.events| - 1]))
      && dirs <= r.dirs
    decreases |steps|
  {
    CarryLength(refused, nmountRefused, dirs, mounts, steps);
    if steps == [] {
      assert mounts + [] == mounts;
    } else {
      var s := steps[0];
      var here := if s.Null? then [s.fspath] else [];
      if !Fails(refused, nmountRefused, dirs, s) {
        var dirs' := if s.Dir? && MkdirError(dirs, refused, s.path).None? then dirs + {s.path} else dirs;
        var mounts' := mounts + here;
        assert mounts' == if s.Null? then mounts + [s.fspath] else mounts;
        var rest := steps[1..];
        CarryMounts(refused, nmountRefused, dirs', mounts', rest);
        var r' := Carry(refused, nmountRefused, dirs', mounts', rest);
        if r'.fatal {
          var n := |r'.events|;
          var pre := steps[..n];
          assert pre[0] == s && pre[1..] == rest[..n - 1];
          assert Mounted(pre) == here + Mounted(rest[..n - 1]);
          assert r'.mounts == mounts + Mounted(pre);
        } else {
          assert Mounted(steps) == here + Mounted(rest);
          assert r'.mounts == mounts + Mounted(steps);
        }
      } else {
        assert steps[..0] == [];
        assert mounts + [] == mounts;
      }
    }
  }

  /** When nothing fails, every mkdir of the plan is made and the jail gets
      the ports tree and the packages mounted, and the distfiles cache
      exactly when one is configured. */
  lemma PlanMounts(j: Jail, p: PortTree, conf: Conf)
    ensures Mounted(Plan(j, p, conf)) ==
      [j.mountpoint + "/usr/ports", j.mountpoint + "/usr/ports/packages"]
        + (if conf.distfilesCache.Some? then [j.mountpoint + "/usr/ports/distfiles"] else [])
  {
    var a, b, c := PortsSteps(j, p), PackagesSteps(j, p, conf), DistfilesSteps(j, conf);
    MountedAppend(a + b, c);
    MountedAppend(a, b);
    assert a[2..][1..] == [] && a[1..][1..] == a[2..];
    assert Mounted(a[2..]) == [j.mountpoint + "/usr/ports"];
    assert Mounted(a[1..]) == [j.mountpoint + "/usr/ports"];
    assert Mounted(a) == [j.mountpoint + "/usr/ports"];
    assert b[3..][1..] == [] && b[2..][1..] == b[3..] && b[1..][1..] == b[2..];
    assert Mounted(b[3..]) == [j.mountpoint + "/usr/ports/packages"];
    assert Mounted(b[2..]) == [j.mountpoint + "/usr/ports/packages"];
    assert Mounted(b[1..]) == [j.mountpoint + "/usr/ports/packages"];
    assert Mounted(b) == [j.mountpoint + "/usr/ports/packages"];
    if conf.distfilesCache.Some? {
      var d := j.mountpoint + "/usr/ports/distfiles";
      var m := Null(d, conf.distfilesCache.value);
      assert c == [Dir(d), m];
      assert [m][1..] == [];
      assert Mounted([m]) == [d];
      assert c[1..] == [m];
      assert Mounted(c) == [d];
    }
  }

  /** A run that does not stop on a failure null-mounts exactly what the
      plan mounts, in order. */
  lemma MountNullfsMounts(refused: set<string>, nmountRefused: set<string>, dirs: set<string>,
                          mounts: seq<string>, j: Jail, p: PortTree, conf: Conf)
    ensures var r := Carry(refused, nmountRefused, dirs, mounts, Plan(j, p, conf));
      !r.fatal ==>
        r.mounts == mounts + [j.mountpoint + "/usr/ports", j.mountpoint + "/usr/ports/packages"]
          + (if conf.distfilesCache.Some? then [j.mountpoint + "/usr/ports/distfiles"] else [])
  {
    CarryMounts(refused, nmountRefused, dirs, mounts, Plan(j, p, conf));
    PlanMounts(j, p, conf);
  }

  /** The plan step by step: the ports tree, then the packages, then the
      distfiles cache when one is configured and nothing else otherwise. */
  lemma PlanSteps(j: Jail, p: PortTree, conf: Conf)
    ensures var plan := Plan(j, p, conf);
      && |plan| == (if conf.distfilesCache.Some? then 9 else 7)
      && plan[0] == Dir(p.mountpoint + "/ports")
      && plan[1] == Dir(j.mountpoint + "/usr/ports")
      && plan[2] == Null(j.mountpoint + "/usr/ports", p.mountpoint + "/ports")
      && plan[3] == Dir(conf.data + "/packages")
      && plan[4] == Dir(conf.data + "/packages/" + j.name + "-" + p.name)
      && plan[5] == Dir(j.mountpoint + "/usr/ports/packages")
      && plan[6] == Null(j.mountpoint + "/usr/ports/packages", conf.data + "/packages/" + j.name + "-" + p.name)
      && (conf.distfilesCache.Some? ==>
            && plan[7] == Dir(j.mountpoint + "/usr/ports/distfiles")
            && plan[8] == Null(j.mountpoint + "/usr/ports/distfiles", conf.distfilesCache.value))
  {
  }

  /** The outcome of steps carried out after the system calls `done`. */
  function Resume(done: seq<Event>, r: Done): Done
  {
    Done(r.fatal, r.dirs, r.mounts, done + r.events)
  }

  /** The machine has made the system calls `done` since `t0`, and
      carrying out the plan from step `k` on completes the outcome
      `target`. */
  ghost predicate Before(h: Machine, plan: seq<Step>, k: nat, done: seq<Event>, t0: seq<Event>, target: Done)
    reads h
  {
    && k <= |plan| && h.trace == t0 + done
    && Resume(done, Carry(h.refused, h.nmountRefused, h.dirs, h.mounts, plan[k..])) == target
  }

  /** The program has exited on a failure, with outcome `target`. */
  ghost predicate Stopped(h: Machine, done: seq<Event>, t0: seq<Event>, target: Done)
    reads h
  {
    h.trace == t0 + done && target == Done(true, h.dirs, h.mounts, done)
  }

  /** Carry out step `k` of the plan on the machine. */
  method Attempt(h: Machine, s: Step, ghost plan: seq<Step>, ghost k: nat, ghost done: seq<Event>,
                 ghost t0: seq<Event>, ghost target: Done)
    returns (fatal: bool, ghost done2: seq<Event>)
    requires k < |plan| && plan[k] == s
    requires Before(h, plan, k, done, t0, target)
    modifies h
    ensures h.jails == old(h.jails)
    ensures if fatal then Stopped(h, done2, t0, target) else Before(h, plan, k + 1, done2, t0, target)
  {
    assert plan[k..][0] == s && plan[k..][1..] == plan[k + 1..];
    ghost var r := Carry(h.refused, h.nmountRefused, h.dirs, h.mounts, plan[k..]);
    match s {
      case Dir(d) =>
        var e := h.MakeDir(d);
        fatal := e.Some? && e != Some(EEXIST);
      case Null(f, t) =>
        fatal := h.MountNullfs(f, t);
    }
    done2 := done + [StepEvent(s)];
    if !fatal {
      assert done + r.events == done2 + Carry(h.refused, h.nmountRefused, h.dirs, h.mounts, plan[k + 1..]).events;
    }
  }

  /** The ports tree: steps 0 to 2. */
  method MountPorts(h: Machine, j: Jail, p: PortTree, conf: Conf, ghost done: seq<Event>,
                    ghost t0: seq<Event>, ghost target: Done)
    returns (fatal: bool, ghost done2: seq<Event>)
    requires Before(h, Plan(j, p, conf), 0, done, t0, target)
    modifies h
    ensures h.jails == old(h.jails)
    ensures if fatal then Stopped(h, done2, t0, target) else Before(h, Plan(j, p, conf), 3, done2, t0, target)
  {
    ghost var plan := Plan(j, p, conf);
    PlanSteps(j, p, conf);
    var target_ := p.mountpoint + "/ports";
    var source := j.mountpoint + "/usr/ports";
    done2 := done;
    fatal, done2 := Attempt(h, Dir(target_), plan, 0, done2, t0, target);
    if fatal { return; }
    fatal, done2 := Attempt(h, Dir(source), plan, 1, done2, t0, target);
    if fatal { return; }
    fatal, done2 := Attempt(h, Null(source, target_), plan, 2, done2, t0, target);
  }

  /** The packages: steps 3 to 6. */
  method MountPackages(h: Machine, j: Jail, p: PortTree, conf: Conf, ghost done: seq<Event>,
                       ghost t0: seq<Event>, ghost target: Done)
    returns (fatal: bool, ghost done2: seq<Event>)
    requires Before(h, Plan(j, p, conf), 3, done, t0, target)
    modifies h
    ensures h.jails == old(h.jails)
    ensures if fatal then Stopped(h, done2, t0, target) else Before(h, Plan(j, p, conf), 7, done2, t0, target)
  {
    ghost var plan := Plan(j, p, conf);
    PlanSteps(j, p, conf);
    var target_ := conf.data + "/packages";
    done2 := done;
    fatal, done2 := Attempt(h, Dir(target_), plan, 3, done2, t0, target);
    if fatal { return; }
    target_ := conf.data + "/packages/" + j.name + "-" + p.name;
    fatal, done2 := Attempt(h, Dir(target_), plan, 4, done2, t0, target);
    if fatal { return; }
    var source := j.mountpoint + "/usr/ports/packages";
    fatal, done2 := Attempt(h, Dir(source), plan, 5, done2, t0, target);
    if fatal { return; }
    fatal, done2 := Attempt(h, Null(source, target_), plan, 6, done2, t0, target);
  }

  /** The distfiles cache: steps 7 and 8, when one is configured. */
  method MountDistfiles(h: Machine, j: Jail, p: PortTree, conf: Conf, ghost done: seq<Event>,
                        ghost t0: seq<Event>, ghost target: Done)
    returns (fatal: bool, ghost done2: seq<Event>)
    requires Before(h, Plan(j, p, conf), 7, done, t0, target)
    modifies h
    ensures h.jails == old(h.jails)
    ensures if fatal then Stopped(h, done2, t0, target)
      else Before(h, Plan(j, p, conf), |Plan(j, p, conf)|, done2, t0, target)
  {
    ghost var plan := Plan(j, p, conf);
    PlanSteps(j, p, conf);
    done2 := done;
    fatal := false;
    if conf.distfilesCache.None? {
      return;
    }
    var source := j.mountpoint + "/usr/ports/distfiles";
    fatal, done2 := Attempt(h, Dir(source), plan, 7, done2, t0, target);
    if fatal { return; }
    fatal, done2 := Attempt(h, Null(source, conf.distfilesCache.value), plan, 8, done2, t0, target);
  }

  /** `mount_nullfs(j, p)`: returns whether the program exited on a failure;
      directories, mounts and system calls are those of carrying out the
      plan. */
  method MountNullfs(h: Machine, j: Jail, p: PortTree, conf: Conf) returns (fatal: bool)
    modifies h
    ensures var r := Carry(h.refused, h.nmountRefused, old(h.dirs), old(h.mounts), Plan(j, p, conf));
      && fatal == r.fatal && h.dirs == r.dirs && h.mounts == r.mounts
      && h.trace == old(h.trace) + r.events
    ensures h.jails == old(h.jails)
  {
    ghost var t0 := h.trace;
    ghost var plan := Plan(j, p, conf);
    ghost var target := Carry(h.refused, h.nmountRefused, h.dirs, h.mounts, plan);
    ghost var done: seq<Event> := [];
    assert plan[0..] == plan;
    assert t0 + [] == t0;
    fatal, done := MountPorts(h, j, p, conf, done, t0, target);
    if fatal { return; }
    fatal, done := MountPackages(h, j, p, conf, done, t0, target);
    if fatal { return; }
    fatal, done := MountDistfiles(h, j, p, conf, done, t0, target);
    if fatal { return; }
    assert plan[|plan|..] == [];
  }
}
