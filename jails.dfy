/** Starting and stopping jails: `jail_runs`, `jail_kill`, the parameter
    table `jail_run` creates a jail with, and the teardown `jail_stop`
    performs (kill the jail and its children, unmount what lives under its
    mount point, roll its dataset back to the `clean` snapshot). */
module Jails {
  import opened Strings
  import opened Host

  /** The fields of `struct pjail` this code reads; `children` holds the
      names of the jails on its `children` list, in list order. */
  datatype Jail = Jail(name: string, mountpoint: string, fs: string, children: seq<string>)

  /** `jail_runs(name)`: 1 when `jail_getid` finds the jail, else 0. */
  function JailRuns(h: Machine, name: string): (r: int)
    reads h
    ensures r == 0 || r == 1
    ensures r == 1 <==> h.Running(name)
  {
    if !h.Running(name) then 0 else 1
  }

  /** `jail_kill(j)`: remove the jail when it runs, otherwise do nothing. */
  method JailKill(h: Machine, name: string)
    modifies h
    ensures h.jails == old(h.jails) - {name}
    ensures h.trace == old(h.trace) + KillEvents(old(h.jails), [name])
    ensures h.dirs == old(h.dirs) && h.mounts == old(h.mounts)
  {
    if JailRuns(h, name) == 1 {
      h.RemoveJail(name);
    }
  }

  /** The `jail_remove` calls that killing `names` in order makes when
      `jails` run: one for each name still running when its turn comes. */
  function KillEvents(jails: set<string>, names: seq<string>): seq<Event>
  {
    if names == [] then []
    else
      (if names[0] in jails then [JailRemove(names[0])] else [])
        + KillEvents(jails - {names[0]}, names[1..])
  }

  /** The names removed by a `KillEvents` trace. */
  function Removed(evs: seq<Event>): seq<string>
  {
    if evs == [] then []
    else (if evs[0].JailRemove? then [evs[0].jail] else []) + Removed(evs[1..])
  }

  lemma {:induction false} RemovedAppend(a: seq<Event>, b: seq<Event>)
    ensures Removed(a + b) == Removed(a) + Removed(b)
    decreases |a|
  {
    if a == [] {
      assert a + b == b;
    } else {
      assert (a + b)[1..] == a[1..] + b;
      RemovedAppend(a[1..], b);
    }
  }

  /** Killing in order removes each running jail of the list exactly once,
      in list order, and nothing else: the removed names are the running
      ones of the list with repeats dropped, and each of them was running. */
  lemma {:induction false} KillEventsRemove(jails: set<string>, names: seq<string>)
    ensures var rm := Removed(KillEvents(jails, names));
      && (forall x :: x in rm <==> x in jails && x in names)
      && (forall k, l :: 0 <= k < l < |rm| ==> rm[k] != rm[l])
    decreases |names|
  {
    if names != [] {
      var n := names[0];
      var head: seq<Event> := if n in jails then [JailRemove(n)] else [];
      var tail := KillEvents(jails - {n}, names[1..]);
      KillEventsRemove(jails - {n}, names[1..]);
      RemovedAppend(head, tail);
      assert Removed(head) == if n in jails then [n] else [] by {
        if n in jails { assert head[1..] == []; }
      }
      assert forall x :: x in names <==> x == n || x in names[1..] by {
        assert names == [n] + names[1..];
      }
    }
  }

  /** Killing the jails in `names` leaves exactly the others running. */
  function KillAll(jails: set<string>, names: seq<string>): (r: set<string>)
    ensures forall x :: x in r <==> x in jails && x !in names
  {
    if names == [] then jails
    else
      assert forall x :: x in names <==> x == names[0] || x in names[1..] by {
        assert names == [names[0]] + names[1..];
      }
      KillAll(jails - {names[0]}, names[1..])
  }

  /** The trace of `jail_kill` on each name of `names` in order. */
  method KillEach(h: Machine, names: seq<string>)
    modifies h
    ensures h.jails == KillAll(old(h.jails), names)
    ensures h.trace == old(h.trace) + KillEvents(old(h.jails), names)
    ensures h.dirs == old(h.dirs) && h.mounts == old(h.mounts)
  {
    var i := 0;
    while i < |names|
      invariant 0 <= i <= |names|
      invariant KillAll(h.jails, names[i..]) == KillAll(old(h.jails), names)
      invariant old(h.trace) + KillEvents(old(h.jails), names)
        == h.trace + KillEvents(h.jails, names[i..])
      invariant h.dirs == old(h.dirs) && h.mounts == old(h.mounts)
    {
      KillStep(h.jails, names[i..]);
      JailKill(h, names[i]);
      assert names[i..][1..] == names[i + 1..];
      i := i + 1;
    }
  }

  /** Killing a list is killing its first name, then the rest. */
  lemma KillStep(jails: set<string>, names: seq<string>)
    requires names != []
    ensures KillEvents(jails, names) == KillEvents(jails, [names[0]]) + KillEvents(jails - {names[0]}, names[1..])
    ensures KillAll(jails, names) == KillAll(jails - {names[0]}, names[1..])
  {
    var one := [names[0]];
    assert one[1..] == [];
  }

  /** The parameters `jail_run` passes to `jail_setv(JAIL_CREATE, ...)`. */
  function JailParams(j: Jail, network: bool): seq<(string, string)>
  {
    [ ("name", j.name),
      ("host.hostname", j.name),
      ("path", j.mountpoint),
      ("persist", "true"),
      ("allow.sysvipc", "true"),
      ("allow.mount", "true"),
      ("allow.socket_af", "true"),
      ("allow.raw_sockets", "true"),
      ("allow.chflags", "true"),
      if network then ("ip4", "inherit") else ("ip4.addr", "127.0.0.1"),
      if network then ("ip6", "inherit") else ("ip6.addr", "::1") ]
  }

  /** The value given to parameter `key`, if any. */
  function Param(ps: seq<(string, string)>, key: string): Option<string>
  {
    if ps == [] then None
    else if ps[0].0 == key then Some(ps[0].1)
    else Param(ps[1..], key)
  }

  /** A key's first entry gives its value. */
  lemma {:induction false} ParamFirst(ps: seq<(string, string)>, key: string, k: nat)
    requires k < |ps| && ps[k].0 == key
    requires forall l :: 0 <= l < k ==> ps[l].0 != key
    ensures Param(ps, key) == Some(ps[k].1)
    decreases k
  {
    if k > 0 {
      ParamFirst(ps[1..], key, k - 1);
    }
  }

  /** A key without an entry has no value. */
  lemma {:induction false} ParamNone(ps: seq<(string, string)>, key: string)
    requires forall l :: 0 <= l < |ps| ==> ps[l].0 != key
    ensures Param(ps, key) == None
    decreases |ps|
  {
    if ps != [] {
      ParamNone(ps[1..], key);
    }
  }

  /** The table names each parameter once, so it reads as a map. */
  lemma JailParamsDistinct(j: Jail, network: bool)
    ensures var ps := JailParams(j, network);
      forall k, l :: 0 <= k < l < |ps| ==> ps[k].0 != ps[l].0
  {
  }

  /** The jail is named and hosted after itself and rooted at its mount
      point. Without networking it is pinned to the loopback addresses and
      inherits nothing; with networking it inherits the host's addresses
      and pins none. */
  lemma JailParamsMeaning(j: Jail, network: bool)
    ensures var ps := JailParams(j, network);
      && Param(ps, "name") == Some(j.name)
      && Param(ps, "host.hostname") == Some(j.name)
      && Param(ps, "path") == Some(j.mountpoint)
      && (network <==> Param(ps, "ip4") == Some("inherit"))
      && (network <==> Param(ps, "ip6") == Some("inherit"))
      && (!network <==> Param(ps, "ip4.addr") == Some("127.0.0.1"))
      && (!network <==> Param(ps, "ip6.addr") == Some("::1"))
  {
    var ps := JailParams(j, network);
    ParamFirst(ps, "name", 0);
    ParamFirst(ps, "host.hostname", 1);
    ParamFirst(ps, "path", 2);
    if network {
      ParamFirst(ps, "ip4", 9);
      ParamFirst(ps, "ip6", 10);
      ParamNone(ps, "ip4.addr");
      ParamNone(ps, "ip6.addr");
    } else {
      ParamFirst(ps, "ip4.addr", 9);
      ParamFirst(ps, "ip6.addr", 10);
      ParamNone(ps, "ip4");
      ParamNone(ps, "ip6");
    }
  }

  /** `jail_run(j, network)`: a jail of that name that already runs is
      removed first; then `Starting <name>` is printed and the jail is
      created from the parameter table. */
  method JailRun(h: Machine, j: Jail, network: bool) returns (out: seq<string>)
    modifies h
    ensures out == ["Starting " + j.name]
    ensures h.jails == old(h.jails) + {j.name}
    ensures h.trace == old(h.trace) + KillEvents(old(h.jails), [j.name]) + [JailCreate(JailParams(j, network))]
    ensures h.dirs == old(h.dirs) && h.mounts == old(h.mounts)
  {
    JailKill(h, j.name);
    out := ["Starting " + j.name];
    h.CreateJail(j.name, JailParams(j, network));
  }

  /** `strncmp(a, b, n) == 0` on C strings. */
  function StrNEqual(a: string, b: string, n: nat): bool
    decreases n
  {
    if n == 0 then true
    else
      var ca := if a == [] then NUL else a[0];
      var cb := if b == [] then NUL else b[0];
      if ca != cb then false
      else if ca == NUL then true
      else StrNEqual(a[1..], b[1..], n - 1)
  }

  /** Comparing the first `strlen(b)` characters is testing whether `b`
      is a prefix of `a`. */
  lemma {:induction false} StrNEqualPrefix(a: string, b: string)
    requires NoNul(a) && NoNul(b)
    ensures StrNEqual(a, b, |b|) <==> b <= a
    decreases |b|
  {
    if |b| > 0 {
      assert b[0] != NUL;
      if a != [] && a[0] == b[0] {
        StrNEqualPrefix(a[1..], b[1..]);
        assert b <= a <==> b[1..] <= a[1..] by {
          assert a == [a[0]] + a[1..];
          assert b == [b[0]] + b[1..];
        }
      }
    }
  }

  /** Whether `jail_stop` unmounts the mount on `m` for a jail mounted at
      `mp`. */
  predicate Below(m: string, mp: string)
  {
    StrNEqual(m, mp, |mp|) && |m| > |mp|
  }

  /** The mount points `jail_stop` collects, in mount-table order. */
  function Selected(mounts: seq<string>, mp: string): (r: seq<string>)
  {
    if mounts == [] then []
    else
      var ms := Selected(mounts[..|mounts| - 1], mp);
      var m := mounts[|mounts| - 1];
      if Below(m, mp) then ms + [m] else ms
  }

  /** The selected mount points are the table entries that extend the
      jail's mount point textually, with their multiplicity; the mount
      point itself is never one of them. */
  lemma {:induction false} SelectedSpec(mounts: seq<string>, mp: string)
    requires NoNul(mp) && forall k :: 0 <= k < |mounts| ==> NoNul(mounts[k])
    ensures forall m :: m in Selected(mounts, mp) <==> m in mounts && mp < m
    ensures forall m :: multiset(Selected(mounts, mp))[m] == if mp < m then multiset(mounts)[m] else 0
    ensures mp !in Selected(mounts, mp)
    decreases |mounts|
  {
    if mounts != [] {
      var init := mounts[..|mounts| - 1];
      var m := mounts[|mounts| - 1];
      SelectedSpec(init, mp);
      StrNEqualPrefix(m, mp);
      assert mounts == init + [m];
    }
  }

  /** Selection is textual: under `/j1`, the entries of `/j10` are taken
      along with those of `/j1/dev`. */
  lemma SelectedTextual()
    ensures Selected(["/", "/j1", "/j10", "/j1/dev", "/j2"], "/j1") == ["/j10", "/j1/dev"]
  {
    var ms := ["/", "/j1", "/j10", "/j1/dev", "/j2"];
    assert !Below("/", "/j1");
    assert !Below("/j1", "/j1");
    assert Below("/j10", "/j1");
    assert Below("/j1/dev", "/j1");
    assert !Below("/j2", "/j1");
    assert ms[..1][..0] == [];
    assert Selected(ms[..1], "/j1") == [];
    assert ms[..2][..1] == ms[..1];
    assert Selected(ms[..2], "/j1") == [];
    assert ms[..3][..2] == ms[..2];
    assert Selected(ms[..3], "/j1") == ["/j10"];
    assert ms[..4][..3] == ms[..3];
    assert Selected(ms[..4], "/j1") == ["/j10", "/j1/dev"];
    assert ms[..5][..4] == ms[..4];
    assert ms[..5] == ms;
  }

  /** Collect the mount points below `mp` from the mount table. */
  method Collect(mounts: seq<string>, mp: string) returns (mnts: seq<string>)
    ensures mnts == Selected(mounts, mp)
  {
    mnts := [];
    var i := 0;
    while i < |mounts|
      invariant 0 <= i <= |mounts|
      invariant mnts == Selected(mounts[..i], mp)
    {
      assert mounts[..i + 1][..i] == mounts[..i];
      if StrNEqual(mounts[i], mp, |mp|) && |mounts[i]| > |mp| {
        mnts := mnts + [mounts[i]];
      }
      i := i + 1;
    }
    assert mounts[..|mounts|] == mounts;
  }

  /** `qsort(mnts, n, sizeof(char *), mntcmp)`. `mntcmp` is handed
      pointers to the array's elements but compares them as strings, so
      it orders the bytes of the pointers, not the paths: the order that
      results is unspecified and only a rearrangement is promised. */
  method Arrange(mnts: seq<string>) returns (r: seq<string>)
    ensures multiset(r) == multiset(mnts)
  {
    r := mnts;
  }

  /** The trace of unmounting `ms` in order. */
  function UnmountEvents(ms: seq<string>): (r: seq<Event>)
  {
    if ms == [] then [] else UnmountEvents(ms[..|ms| - 1]) + [Unmount(ms[|ms| - 1])]
  }

  lemma UnmountStep(m0: multiset<string>, t0: seq<Event>, ms: seq<string>, i: nat)
    requires i < |ms|
    ensures m0 - multiset(ms[..i + 1]) == (m0 - multiset(ms[..i])) - multiset{ms[i]}
    ensures t0 + UnmountEvents(ms[..i + 1]) == t0 + UnmountEvents(ms[..i]) + [Unmount(ms[i])]
  {
    assert ms[..i + 1] == ms[..i] + [ms[i]];
    assert ms[..i + 1][..i] == ms[..i];
  }

  /** Unmount each mount point of `ms` once, in order. */
  method UnmountEach(h: Machine, ms: seq<string>)
    modifies h
    ensures multiset(h.mounts) == multiset(old(h.mounts)) - multiset(ms)
    ensures h.trace == old(h.trace) + UnmountEvents(ms)
    ensures h.dirs == old(h.dirs) && h.jails == old(h.jails)
  {
    var i := 0;
    while i < |ms|
      invariant 0 <= i <= |ms|
      invariant multiset(h.mounts) == multiset(old(h.mounts)) - multiset(ms[..i])
      invariant h.trace == old(h.trace) + UnmountEvents(ms[..i])
      invariant h.dirs == old(h.dirs) && h.jails == old(h.jails)
    {
      UnmountStep(multiset(old(h.mounts)), old(h.trace), ms, i);
      h.UnmountPath(ms[i]);
      i := i + 1;
    }
    assert ms[..|ms|] == ms;
  }

  /** How `jail_stop` ends. */
  datatype StopResult =
    | NoSuchJail          // the jail does not run: diagnostic, nothing done
    | NoMountInfo         // `getmntinfo` found nothing: fatal
    | RollbackFailed      // `zfs rollback` exited non-zero: fatal
    | Stopped

  /** The argument vector of the rollback to `<fs>@clean`. */
  function RollbackArgv(fs: string): seq<string>
  {
    ["zfs", "rollback", "-R", fs + "@clean"]
  }

  /** `jail_stop(j)`. A jail that does not run is left alone. Otherwise its
      children are killed in list order, then the jail itself; every mount
      below its mount point is unmounted once, in unspecified order; and
      its dataset is rolled back to `<fs>@clean`, a failure of which is
      fatal. `unmounted` is the order the unmounts were made in. */
  method JailStop(h: Machine, j: Jail) returns (res: StopResult, unmounted: seq<string>)
    modifies h
    ensures !old(h.Running(j.name)) ==>
      res == NoSuchJail && unmounted == [] && h.trace == old(h.trace)
      && h.jails == old(h.jails) && h.mounts == old(h.mounts)
    ensures old(h.Running(j.name)) ==>
      h.jails == KillAll(old(h.jails), j.children + [j.name])
    ensures old(h.Running(j.name)) && old(h.mounts) == [] ==>
      res == NoMountInfo && unmounted == [] && h.mounts == old(h.mounts)
      && h.trace == old(h.trace) + KillEvents(old(h.jails), j.children + [j.name])
    ensures old(h.Running(j.name)) && old(h.mounts) != [] ==>
      && multiset(unmounted) == multiset(Selected(old(h.mounts), j.mountpoint))
      && multiset(h.mounts) == multiset(old(h.mounts)) - multiset(unmounted)
      && h.trace == old(h.trace) + KillEvents(old(h.jails), j.children + [j.name])
                    + UnmountEvents(unmounted) + [Exec("/sbin/zfs", RollbackArgv(j.fs))]
      && res == if h.status("/sbin/zfs", RollbackArgv(j.fs)) != 0 then RollbackFailed else Stopped
    ensures h.dirs == old(h.dirs)
  {
    unmounted := [];
    if JailRuns(h, j.name) == 0 {
      return NoSuchJail, unmounted;
    }
    KillEach(h, j.children + [j.name]);
    if |h.mounts| == 0 {
      return NoMountInfo, unmounted;
    }
    var mnts := Collect(h.mounts, j.mountpoint);
    unmounted := Arrange(mnts);
    UnmountEach(h, unmounted);
    var st := h.Run("/sbin/zfs", RollbackArgv(j.fs));
    res := if st != 0 then RollbackFailed else Stopped;
  }

  /** Every selected mount point is unmounted exactly as often as it is
      mounted, every other entry stays: what remains of the table after a
      stop is exactly the entries that do not extend the mount point. */
  lemma StopLeaves(mounts: seq<string>, mp: string, unmounted: seq<string>, m: string)
    requires NoNul(mp) && forall k :: 0 <= k < |mounts| ==> NoNul(mounts[k])
    requires multiset(unmounted) == multiset(Selected(mounts, mp))
    ensures (multiset(mounts) - multiset(unmounted))[m] == if mp < m then 0 else multiset(mounts)[m]
  {
    SelectedSpec(mounts, mp);
  }
}
