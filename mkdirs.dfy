/** `mkdirs(path)`: create a directory and every missing parent, the way
    `mkdir -p` does, by cutting the path at each `/` in turn. */
module Mkdirs {
  import opened Strings
  import opened Host

  /** `MAXPATHLEN` on FreeBSD. */
  const MAXPATHLEN: nat := 1024

  /** The first `/` at or after `i`. */
  function SlashFrom(s: string, i: nat): (r: Option<nat>)
    requires i <= |s|
    ensures r.Some? ==> i <= r.value < |s| && s[r.value] == '/'
    ensures r.Some? ==> forall p :: i <= p < r.value ==> s[p] != '/'
    ensures r.None? ==> forall p :: i <= p < |s| ==> s[p] != '/'
    decreases |s| - i
  {
    if i == |s| then None else if s[i] == '/' then Some(i) else SlashFrom(s, i + 1)
  }

  /** The paths handed to `mkdir` once the search for `/` has reached `i`:
      the prefix before each further `/`, then the whole path. */
  function CallsFrom(s: string, i: nat): seq<string>
    requires i <= |s|
    decreases |s| - i
  {
    match SlashFrom(s, i)
    case None => [s]
    case Some(q) => [s[..q]] + CallsFrom(s, q + 1)
  }

  /** From `i` on, the calls are prefixes of the path of increasing length:
      one ending before each `/`, then the path itself. */
  lemma {:induction false} CallsFromShape(s: string, i: nat)
    requires i <= |s|
    ensures var r := CallsFrom(s, i);
      && |r| > 0 && r[|r| - 1] == s
      && (forall k :: 0 <= k < |r| ==> |r[k]| <= |s| && r[k] == s[..|r[k]|])
      && (forall k :: 0 <= k < |r| - 1 ==> i <= |r[k]| < |s| && s[|r[k]|] == '/')
      && (forall k, l :: 0 <= k < l < |r| ==> |r[k]| < |r[l]|)
      && (forall q :: i <= q < |s| && s[q] == '/' ==> s[..q] in r)
    decreases |s| - i
  {
    match SlashFrom(s, i)
    case None => assert s[..|s|] == s;
    case Some(q) =>
      CallsFromShape(s, q + 1);
      var rest := CallsFrom(s, q + 1);
      assert |rest[0]| >= q + 1;
  }

  /** Where the search for `/` starts: past a leading `/`. */
  function Start(s: string): nat
  {
    if |s| > 0 && s[0] == '/' then 1 else 0
  }

  /** The paths `mkdirs(path)` hands to `mkdir`, in order. */
  function MkdirCalls(s: string): seq<string>
  {
    CallsFrom(s, Start(s))
  }

  /** `mkdirs(path)` calls `mkdir` on the prefix before each `/` past the
      first character, shortest first, and last on the whole path. */
  lemma MkdirCallsShape(s: string)
    ensures var r := MkdirCalls(s);
      && |r| > 0 && r[|r| - 1] == s
      && (forall k :: 0 <= k < |r| ==> |r[k]| <= |s| && r[k] == s[..|r[k]|])
      && (forall k :: 0 <= k < |r| - 1 ==> 0 < |r[k]| < |s| && s[|r[k]|] == '/')
      && (forall k, l :: 0 <= k < l < |r| ==> |r[k]| < |r[l]|)
      && (forall q :: 0 < q < |s| && s[q] == '/' ==> s[..q] in r)
  {
    CallsFromShape(s, Start(s));
    var r := CallsFrom(s, Start(s));
    forall k | 0 <= k < |r| - 1 ensures 0 < |r[k]| {
      assert s[|r[k]|] == '/' && Start(s) <= |r[k]|;
    }
  }

  /** A `mkdir` error that `mkdirs` lets pass. */
  predicate Tolerated(e: Errno)
  {
    e == EEXIST || e == EISDIR
  }

  /** What a sequence of `mkdir` calls leaves behind: whether every call
      succeeded or failed only with a tolerated error, the directories
      afterwards, and the calls made. */
  datatype Outcome = Outcome(ok: bool, dirs: set<string>, tried: seq<string>)

  /** Call `mkdir` on each path in turn, stopping at the first error that
      is not tolerated. */
  function MkdirAll(dirs: set<string>, refused: set<string>, calls: seq<string>): Outcome
    decreases |calls|
  {
    if calls == [] then Outcome(true, dirs, [])
    else
      var d := calls[0];
      var e := MkdirError(dirs, refused, d);
      if e.Some? && !Tolerated(e.value) then Outcome(false, dirs, [d])
      else
        var r := MkdirAll(if e.None? then dirs + {d} else dirs, refused, calls[1..]);
        Outcome(r.ok, r.dirs, [d] + r.tried)
  }

  /** The calls made are a prefix of the calls planned, all of them when
      the run succeeds and otherwise ending with the one that failed; the
      directories only grow, and only by planned paths; after a success
      every planned path exists. */
  lemma {:induction false} MkdirAllShape(dirs: set<string>, refused: set<string>, calls: seq<string>)
    ensures var r := MkdirAll(dirs, refused, calls);
      && dirs <= r.dirs
      && (forall d :: d in r.dirs ==> d in dirs || d in calls)
      && |r.tried| <= |calls| && r.tried == calls[..|r.tried|]
      && (r.ok ==> r.tried == calls)
      && (!r.ok ==> |r.tried| > 0 && MkdirError(r.dirs, refused, r.tried[|r.tried| - 1]) == Some(EOTHER))
      && (r.ok ==> forall d :: d in calls ==> d in r.dirs || d == "/")
    decreases |calls|
  {
    if calls != [] {
      var d := calls[0];
      var e := MkdirError(dirs, refused, d);
      if !(e.Some? && !Tolerated(e.value)) {
        MkdirAllShape(if e.None? then dirs + {d} else dirs, refused, calls[1..]);
        assert calls == [d] + calls[1..];
      }
    }
  }

  /** Calls on directories that all exist change nothing and succeed. */
  lemma {:induction false} MkdirAllPresent(dirs: set<string>, refused: set<string>, calls: seq<string>)
    requires forall d :: d in calls ==> d in dirs || d == "/"
    ensures MkdirAll(dirs, refused, calls) == Outcome(true, dirs, calls)
    decreases |calls|
  {
    if calls != [] {
      assert calls[0] in calls;
      assert forall d :: d in calls[1..] ==> d in calls;
      MkdirAllPresent(dirs, refused, calls[1..]);
    }
  }

  /** Once `mkdirs(path)` has succeeded every directory on the path exists,
      so a second `mkdirs(path)` succeeds and creates nothing. */
  lemma MkdirsIdempotent(dirs: set<string>, refused: set<string>, path: string)
    requires MkdirAll(dirs, refused, MkdirCalls(path)).ok
    ensures var d := MkdirAll(dirs, refused, MkdirCalls(path)).dirs;
      MkdirAll(d, refused, MkdirCalls(path)) == Outcome(true, d, MkdirCalls(path))
  {
    var d := MkdirAll(dirs, refused, MkdirCalls(path)).dirs;
    MkdirAllShape(dirs, refused, MkdirCalls(path));
    MkdirAllPresent(d, refused, MkdirCalls(path));
  }

  /** After a successful `mkdirs(path)` the path and each of its prefixes
      ending before a `/` exist (the root aside). */
  lemma MkdirsCreates(dirs: set<string>, refused: set<string>, path: string, q: nat)
    requires MkdirAll(dirs, refused, MkdirCalls(path)).ok
    requires 0 < q < |path| && path[q] == '/'
    ensures path in MkdirAll(dirs, refused, MkdirCalls(path)).dirs || path == "/"
    ensures path[..q] in MkdirAll(dirs, refused, MkdirCalls(path)).dirs || path[..q] == "/"
  {
    var calls := MkdirCalls(path);
    MkdirCallsShape(path);
    MkdirAllShape(dirs, refused, calls);
    assert calls[|calls| - 1] in calls;
  }

  /** The trace of a sequence of `mkdir` calls. */
  function MkdirEvents(tried: seq<string>): (r: seq<Event>)
    ensures |r| == |tried|
  {
    if tried == [] then [] else MkdirEvents(tried[..|tried| - 1]) + [Mkdir(tried[|tried| - 1])]
  }

  lemma MkdirEventsStep(t0: seq<Event>, done: seq<string>, d: string)
    ensures t0 + MkdirEvents(done + [d]) == t0 + MkdirEvents(done) + [Mkdir(d)]
  {
    assert (done + [d])[..|done|] == done;
  }

  /** `done` calls already made, followed by the outcome of the rest. */
  function After(done: seq<string>, o: Outcome): Outcome
  {
    Outcome(o.ok, o.dirs, done + o.tried)
  }

  /** `strlcpy(path, _path, sizeof(path))` for a path that fits. */
  method CopyPath(path: string) returns (buf: array<char>)
    requires |path| <= MAXPATHLEN
    ensures fresh(buf)
    ensures buf[..] == path + [NUL]
  {
    buf := new char[|path| + 1](k requires 0 <= k < |path| + 1 => if k < |path| then path[k] else NUL);
  }

  /** `p = strchr(p, '/')` and, when a `/` is found, `*p = '\0'`: the
      buffer then reads as the path up to that `/`. */
  method Cut(buf: array<char>, path: string, p: nat) returns (next: Option<nat>, d: string)
    requires NoNul(path) && p <= |path|
    requires buf[..] == path + [NUL]
    modifies buf
    ensures next == SlashFrom(path, p)
    ensures next.Some? ==> d == path[..next.value] && buf[..] == (path + [NUL])[next.value := NUL]
    ensures next.None? ==> d == path && buf[..] == path + [NUL]
  {
    assert buf[|path|] == NUL;
    next := StrChr(buf, p, '/');
    assert NulFrom(buf[..], p) == |path| by {
      var r := NulFrom(buf[..], p);
      assert buf[r] == NUL;
      assert !(r < |path|) && !(|path| < r);
    }
    if next.Some? {
      var q := next.value;
      assert SlashFrom(path, p) == Some(q) by {
        var v := SlashFrom(path, p);
        assert path[q] == '/';
        assert v.Some?;
        assert !(v.value < q) && !(q < v.value);
      }
      buf[q] := NUL;
      d := CStr(buf[..], 0);
      assert d == path[..q] by {
        assert buf[..][0..q] == path[..q];
        CStrTerminated(buf[..], 0, q);
      }
    } else {
      assert forall k :: p <= k < |path| ==> path[k] != '/' by {
        forall k | p <= k < |path| ensures path[k] != '/' { assert buf[k] == path[k]; }
      }
      d := CStr(buf[..], 0);
      assert d == path by {
        assert buf[..][0..|path|] == path;
        CStrTerminated(buf[..], 0, |path|);
      }
    }
  }

  /** The first call and the rest, seen from `i`. */
  lemma CallsStep(s: string, i: nat)
    requires i <= |s|
    ensures SlashFrom(s, i).None? ==> CallsFrom(s, i) == [s]
    ensures SlashFrom(s, i).Some? ==> var q := SlashFrom(s, i).value;
      CallsFrom(s, i) == [s[..q]] + CallsFrom(s, q + 1)
  {
  }

  /** The first call of a run and what the rest of the run then does. */
  lemma MkdirAllFirst(dirs: set<string>, refused: set<string>, calls: seq<string>,
                      done: seq<string>, target: Outcome)
    requires calls != [] && After(done, MkdirAll(dirs, refused, calls)) == target
    ensures var e := MkdirError(dirs, refused, calls[0]);
      e.Some? && !Tolerated(e.value) ==> target == Outcome(false, dirs, done + [calls[0]])
    ensures var e := MkdirError(dirs, refused, calls[0]);
      !(e.Some? && !Tolerated(e.value)) ==>
        After(done + [calls[0]], MkdirAll(if e.None? then dirs + {calls[0]} else dirs, refused, calls[1..])) == target
  {
    var e := MkdirError(dirs, refused, calls[0]);
    if !(e.Some? && !Tolerated(e.value)) {
      var rest := MkdirAll(if e.None? then dirs + {calls[0]} else dirs, refused, calls[1..]);
      assert done + ([calls[0]] + rest.tried) == done + [calls[0]] + rest.tried;
    }
  }

  /** One round of the loop: look for the next `/` at or after `p`, cut the
      path there, and `mkdir` the part before it. */
  method Step(h: Machine, buf: array<char>, path: string, p: nat, ghost done: seq<string>, ghost target: Outcome)
    returns (stop: bool, failed: bool, p2: nat, ghost done2: seq<string>)
    requires NoNul(path) && p <= |path|
    requires buf[..] == path + [NUL]
    requires After(done, MkdirAll(h.dirs, h.refused, CallsFrom(path, p))) == target
    modifies h, buf
    ensures !failed ==> buf[..] == path + [NUL]
    ensures |done2| > 0 && done2 == done + [done2[|done2| - 1]]
    ensures h.trace == old(h.trace) + [Mkdir(done2[|done2| - 1])]
    ensures h.jails == old(h.jails) && h.mounts == old(h.mounts)
    ensures stop ==> p2 == p
    ensures failed ==> stop && target == Outcome(false, h.dirs, done2)
    ensures stop && !failed ==> target == Outcome(true, h.dirs, done2)
    ensures !stop ==> p < p2 <= |path| && After(done2, MkdirAll(h.dirs, h.refused, CallsFrom(path, p2))) == target
  {
    ghost var dirs0 := h.dirs;
    var next, d := Cut(buf, path, p);
    CallsStep(path, p);
    ghost var calls := CallsFrom(path, p);
    MkdirAllFirst(dirs0, h.refused, calls, done, target);
    var err := h.MakeDir(d);
    done2 := done + [d];
    p2 := p;
    if err.Some? && !Tolerated(err.value) {
      return true, true, p2, done2;
    }
    failed := false;
    if next.Some? {
      buf[next.value] := '/';
      assert buf[..] == path + [NUL];
      p2 := next.value + 1;
      stop := false;
    } else {
      assert calls[1..] == [];
      stop := true;
    }
  }

  /** The loop of `mkdirs` from `p` on, given the outcome its remaining
      calls are to have. */
  method Walk(h: Machine, buf: array<char>, path: string, p0: nat, ghost target: Outcome) returns (r: int)
    requires NoNul(path) && p0 <= |path|
    requires buf[..] == path + [NUL]
    requires MkdirAll(h.dirs, h.refused, CallsFrom(path, p0)) == target
    modifies h, buf
    ensures r == 0 || r == 1
    ensures r == 1 <==> target.ok
    ensures h.dirs == target.dirs
    ensures h.trace == old(h.trace) + MkdirEvents(target.tried)
    ensures h.jails == old(h.jails) && h.mounts == old(h.mounts)
  {
    var p := p0;
    ghost var t0 := h.trace;
    ghost var done: seq<string> := [];
    assert After(done, MkdirAll(h.dirs, h.refused, CallsFrom(path, p))) == target;
    var stop, failed := false, false;
    while true
      invariant p <= |path|
      invariant buf[..] == path + [NUL]
      invariant After(done, MkdirAll(h.dirs, h.refused, CallsFrom(path, p))) == target
      invariant h.trace == t0 + MkdirEvents(done)
      invariant h.jails == old(h.jails) && h.mounts == old(h.mounts)
      decreases |path| - p
    {
      var p2;
      ghost var done2;
      stop, failed, p2, done2 := Step(h, buf, path, p, done, target);
      MkdirEventsStep(t0, done, done2[|done2| - 1]);
      done, p := done2, p2;
      if stop {
        break;
      }
    }
    r := if failed then 0 else 1;
  }

  /** `mkdirs(path)`: returns 1 when every `mkdir` on the way succeeded or
      found the directory already there, 0 at the first other error, after
      which nothing more is attempted. */
  method Mkdirs(h: Machine, path: string) returns (r: int)
    requires NoNul(path) && |path| <= MAXPATHLEN
    modifies h
    ensures r == 0 || r == 1
    ensures r == 1 <==> MkdirAll(old(h.dirs), h.refused, MkdirCalls(path)).ok
    ensures h.dirs == MkdirAll(old(h.dirs), h.refused, MkdirCalls(path)).dirs
    ensures h.trace == old(h.trace) + MkdirEvents(MkdirAll(old(h.dirs), h.refused, MkdirCalls(path)).tried)
    ensures h.jails == old(h.jails) && h.mounts == old(h.mounts)
  {
    var buf := CopyPath(path);
    var p: nat := 0;
    if buf[0] == '/' {
      p := 1;
    }
    assert p == Start(path);
    r := Walk(h, buf, path, p, MkdirAll(h.dirs, h.refused, MkdirCalls(path)));
  }
}
