/** The `ports` command: `ports_list`, which prints the ports trees
    recorded as ZFS properties, and `exec_ports`, which reads the command
    line options and dispatches on the action they select. */
module Ports {
  import opened Strings
  import opened Tokens
  import opened Runner

  /** The listing `ports_list` runs. */
  const ListCommand: string := "/sbin/zfs list -H -o poudriere:type,poudriere:name,poudriere:method"

  /** One `printf("%-20s %-10s\n", tree, how)` line. */
  datatype PortsLine = PortsLine(tree: string, how: string)

  /** The header line, printed before anything is run. */
  const Header: PortsLine := PortsLine("PORTSTREE", "METHOD")

  /** The first whitespace character at or after `i`. */
  function SpaceFrom(s: string, i: nat): (r: Option<nat>)
    requires i <= |s|
    ensures r.Some? ==> i <= r.value < |s| && IsSpace(s[r.value])
    ensures r.Some? ==> forall p :: i <= p < r.value ==> !IsSpace(s[p])
    ensures r.None? ==> forall p :: i <= p < |s| ==> !IsSpace(s[p])
    decreases |s| - i
  {
    if i == |s| then None else if IsSpace(s[i]) then Some(i) else SpaceFrom(s, i + 1)
  }

  /** The cells of `s` from `i` on as `ports_list` cuts them: every single
      whitespace character ends one, so two in a row end an empty one, and
      the text after the last whitespace character is no cell. */
  function Cells(s: string, i: nat): seq<string>
    requires i <= |s|
    decreases |s| - i
  {
    match SpaceFrom(s, i)
    case None => []
    case Some(q) => [s[i..q]] + Cells(s, q + 1)
  }

  /** The number of whitespace characters of `s` from `i` on. */
  function SpaceCount(s: string, i: nat): nat
    requires i <= |s|
    decreases |s| - i
  {
    if i == |s| then 0 else (if IsSpace(s[i]) then 1 else 0) + SpaceCount(s, i + 1)
  }

  /** Consecutive-run stretch without whitespace adds nothing to the count. */
  lemma {:induction false} SpaceCountSkip(s: string, i: nat, q: nat)
    requires i <= q <= |s|
    requires forall p :: i <= p < q ==> !IsSpace(s[p])
    ensures SpaceCount(s, i) == SpaceCount(s, q)
    decreases q - i
  {
    if i < q {
      SpaceCountSkip(s, i + 1, q);
    }
  }

  /** There is one cell per whitespace character, and no cell holds one. */
  lemma {:induction false} CellsSpec(s: string, i: nat)
    requires i <= |s|
    ensures |Cells(s, i)| == SpaceCount(s, i)
    ensures forall k :: 0 <= k < |Cells(s, i)| ==> forall p :: 0 <= p < |Cells(s, i)[k]| ==> !IsSpace(Cells(s, i)[k][p])
    decreases |s| - i
  {
    match SpaceFrom(s, i)
    case None =>
      SpaceCountSkip(s, i, |s|);
    case Some(q) =>
      CellsSpec(s, q + 1);
      SpaceCountSkip(s, i, q);
      var c := Cells(s, i);
      assert c[0] == s[i..q];
      assert c[1..] == Cells(s, q + 1);
  }

  /** The lines for the complete rows of three cells whose type is
      `ports`, in order. */
  function Listed(cells: seq<string>): seq<PortsLine>
    decreases |cells|
  {
    if |cells| < 3 then []
    else
      (if cells[0] == "ports" then [PortsLine(cells[1], cells[2])] else [])
        + Listed(cells[3..])
  }

  /** The rows of `type`, `name`, `method` whose type is `ports`. */
  function PortsRows(rows: seq<seq<string>>): seq<PortsLine>
    requires forall k :: 0 <= k < |rows| ==> |rows[k]| == 3
  {
    if rows == [] then []
    else
      (if rows[0][0] == "ports" then [PortsLine(rows[0][1], rows[0][2])] else [])
        + PortsRows(rows[1..])
  }

  /** The lines printed are those of the complete rows of three cells whose
      type is exactly `ports`; the other rows, and the cells of an
      incomplete last row, print nothing. */
  lemma {:induction false} ListedRows(cells: seq<string>)
    ensures Listed(cells) == PortsRows(Rows(cells, 3))
    decreases |cells|
  {
    if |cells| >= 3 {
      ListedRows(cells[3..]);
      var rows := Rows(cells, 3);
      assert rows[0] == cells[..3];
      assert rows[1..] == Rows(cells[3..], 3);
    }
  }

  /** What `ports_list` prints given what its listing produced. */
  function PortsListOutput(captured: Option<string>): seq<PortsLine>
  {
    [Header] + match ExecBuf(captured)
      case None => []
      case Some(s) => Listed(Cells(s, 0))
  }

  /** The header comes first, and without output it comes alone. */
  lemma PortsListHeader(captured: Option<string>)
    ensures |PortsListOutput(captured)| > 0 && PortsListOutput(captured)[0] == Header
    ensures ExecBuf(captured).None? ==> PortsListOutput(captured) == [Header]
  {
  }

  /** The cell from `cur` ends at the whitespace at `w - 1`. */
  lemma CellsStep(s: string, cur: nat, w: nat)
    requires cur < w <= |s| && IsSpace(s[w - 1])
    requires forall p :: cur <= p < w - 1 ==> !IsSpace(s[p])
    ensures Cells(s, cur) == [s[cur..w - 1]] + Cells(s, w)
  {
    var v := SpaceFrom(s, cur);
    assert v.Some?;
    assert !(v.value < w - 1) && !(w - 1 < v.value);
  }

  /** A text without whitespace. */
  predicate NoSpace(w: string)
  {
    forall p :: 0 <= p < |w| ==> !IsSpace(w[p])
  }

  /** The whitespace search does not depend on the text before the
      starting point. */
  lemma SpaceFromDrop(s: string, d: nat, i: nat)
    requires d + i <= |s|
    ensures SpaceFrom(s, d + i).None? <==> SpaceFrom(s[d..], i).None?
    ensures SpaceFrom(s[d..], i).Some? ==> SpaceFrom(s, d + i) == Some(d + SpaceFrom(s[d..], i).value)
  {
    var t := s[d..];
    var u := SpaceFrom(s, d + i);
    var v := SpaceFrom(t, i);
    if u.Some? {
      assert t[u.value - d] == s[u.value];
    }
    if v.Some? {
      assert s[d + v.value] == t[v.value];
    }
  }

  /** `Cells` unfolded once at a whitespace character `q`. */
  lemma CellsAt(s: string, i: nat, q: nat)
    requires i <= |s| && SpaceFrom(s, i) == Some(q)
    ensures Cells(s, i) == [s[i..q]] + Cells(s, q + 1)
  {
  }

  /** `Cells` at the end of the text. */
  lemma CellsEnd(s: string, i: nat)
    requires i <= |s| && SpaceFrom(s, i) == None
    ensures Cells(s, i) == []
  {
  }

  lemma SliceDrop(s: string, d: nat, i: nat, q: nat)
    requires d + i <= d + q <= |s|
    ensures s[d + i..d + q] == s[d..][i..q]
  {
  }

  /** Cutting does not depend on the text before the starting point. */
  lemma {:induction false} CellsDrop(s: string, d: nat, i: nat)
    requires d + i <= |s|
    ensures Cells(s, d + i) == Cells(s[d..], i)
    decreases |s| - d - i
  {
    SpaceFromDrop(s, d, i);
    var v := SpaceFrom(s[d..], i);
    if v.None? {
      CellsEnd(s, d + i);
      CellsEnd(s[d..], i);
    } else {
      var q := v.value;
      CellsAt(s[d..], i, q);
      CellsAt(s, d + i, d + q);
      SliceDrop(s, d, i, q);
      CellsDrop(s, d, q + 1);
    }
  }

  /** A word followed by a whitespace character is the first cell. */
  lemma CellsWord(w: string, c: char, rest: string)
    requires NoSpace(w) && IsSpace(c)
    ensures Cells(w + [c] + rest, 0) == [w] + Cells(rest, 0)
  {
    var s := w + [c] + rest;
    forall p | 0 <= p < |w|
      ensures !IsSpace(s[p])
    {
      assert s[p] == w[p];
    }
    CellsStep(s, 0, |w| + 1);
    assert s[0..|w|] == w;
    assert s[|w| + 1..] == rest;
    CellsDrop(s, |w| + 1, 0);
  }

  /** A text without whitespace has no cell. */
  lemma CellsNone(w: string)
    requires NoSpace(w)
    ensures Cells(w, 0) == []
  {
    assert SpaceFrom(w, 0).None?;
  }

  /** Three words, each ended by a whitespace character, are three cells. */
  lemma CellsRow(a: string, b: string, c: string, x: char, y: char, z: char, rest: string)
    requires NoSpace(a) && NoSpace(b) && NoSpace(c)
    requires IsSpace(x) && IsSpace(y) && IsSpace(z)
    ensures Cells(a + [x] + b + [y] + c + [z] + rest, 0) == [a, b, c] + Cells(rest, 0)
  {
    var r3 := c + [z] + rest;
    var r2 := b + [y] + r3;
    assert a + [x] + b + [y] + c + [z] + rest == a + [x] + r2;
    CellsWord(c, z, rest);
    CellsWord(b, y, r3);
    CellsWord(a, x, r2);
  }

  /** A NUL-free text, a NUL-free word and a whitespace character
      together are NUL-free. */
  lemma NoNulWord(u: string, w: string, x: char)
    requires NoNul(u) && NoNul(w) && IsSpace(x)
    ensures NoNul(u + w + [x])
  {
    NoNulCat(u, w);
    assert NoNul([x]);
    NoNulCat(u + w, [x]);
  }

  /** A row of NUL-free words and whitespace before a NUL-free rest is
      collected whole. */
  lemma CollectedRow(a: string, b: string, c: string, x: char, y: char, z: char, rest: string)
    requires IsSpace(x) && IsSpace(y) && IsSpace(z)
    requires NoNul(a) && NoNul(b) && NoNul(c) && NoNul(rest)
    ensures ExecBuf(Some(a + [x] + b + [y] + c + [z] + rest)) == Some(a + [x] + b + [y] + c + [z] + rest)
  {
    NoNulWord([], a, x);
    assert [] + a + [x] == a + [x];
    NoNulWord(a + [x], b, y);
    NoNulWord(a + [x] + b + [y], c, z);
    NoNulCat(a + [x] + b + [y] + c + [z], rest);
  }

  /** A complete row prints a line exactly when its type is `ports`, and
      the rows after it are listed on their own. */
  lemma PortsListRow(a: string, b: string, c: string, x: char, y: char, z: char, rest: string)
    requires NoSpace(a) && NoSpace(b) && NoSpace(c)
    requires IsSpace(x) && IsSpace(y) && IsSpace(z)
    requires NoNul(a) && NoNul(b) && NoNul(c) && NoNul(rest)
    ensures PortsListOutput(Some(a + [x] + b + [y] + c + [z] + rest)) ==
      [Header] + (if a == "ports" then [PortsLine(b, c)] else []) + Listed(Cells(rest, 0))
  {
    CollectedRow(a, b, c, x, y, z, rest);
    CellsRow(a, b, c, x, y, z, rest);
    var cs := [a, b, c] + Cells(rest, 0);
    assert cs[3..] == Cells(rest, 0);
  }

  /** A last row without trailing whitespace is never printed. */
  lemma PortsListUnterminated(a: string, b: string, c: string, x: char, y: char)
    requires NoSpace(a) && NoSpace(b) && NoSpace(c)
    requires IsSpace(x) && IsSpace(y)
    requires NoNul(a) && NoNul(b) && NoNul(c)
    ensures PortsListOutput(Some(a + [x] + b + [y] + c)) == [Header]
  {
    NoNulWord([], a, x);
    assert [] + a + [x] == a + [x];
    NoNulWord(a + [x], b, y);
    NoNulCat(a + [x] + b + [y], c);
    Runner.CollectedWhole(a + [x] + b + [y] + c);
    assert a + [x] + b + [y] + c == a + [x] + (b + [y] + c);
    CellsWord(b, y, c);
    CellsWord(a, x, b + [y] + c);
    CellsNone(c);
  }

  /** Two separators in a row make an empty cell, which shifts the columns:
      the tree name printed is empty and the method printed is the name. */
  lemma PortsListDoubleSpace()
    ensures PortsListOutput(Some("ports  a b\n")) == [Header, PortsLine("", "a")]
  {
    assert "ports  a b\n" == "ports" + [' '] + "" + [' '] + "a" + [' '] + ("b" + ['\n'] + "");
    PortsListRow("ports", "", "a", ' ', ' ', ' ', "b" + ['\n'] + "");
    CellsWord("b", '\n', "");
    CellsNone("");
  }

  /** Moving the cell `c` that just ended from the cells ahead to the
      pending ones, printing the row when it completes one. */
  lemma ListedStep(pend: seq<string>, c: string, cells: seq<string>, rest: seq<string>,
                   line: seq<PortsLine>, pend2: seq<string>)
    requires cells == [c] + rest
    requires |pend| < 2 ==> line == [] && pend2 == pend + [c]
    requires |pend| == 2 ==> pend2 == [] && line == if pend[0] == "ports" then [PortsLine(pend[1], c)] else []
    requires |pend| <= 2
    ensures line + Listed(pend2 + rest) == Listed(pend + cells)
  {
    if |pend| < 2 {
      assert pend + cells == pend2 + rest;
    } else {
      var cs := pend + cells;
      assert cs[3..] == rest;
      assert pend2 + rest == rest;
    }
  }

  /** The cells still open in the scan: their texts, where they start and
      where they end, all before `cur`. */
  ghost predicate Pending(s: string, cur: nat, pend: seq<string>, starts: seq<nat>, ends: seq<nat>)
  {
    && |starts| == |pend| && |ends| == |pend| && cur <= |s|
    && forall k :: 0 <= k < |pend| ==> IsCell(s, cur, pend[k], starts[k], ends[k])
  }

  /** `c` is the cell of `s` from `st` to the whitespace at `en`, before `cur`. */
  ghost predicate IsCell(s: string, cur: nat, c: string, st: nat, en: nat)
  {
    && st <= en < cur <= |s| && IsSpace(s[en])
    && (forall p :: st <= p < en ==> !IsSpace(s[p]))
    && c == s[st..en]
  }

  lemma PendingGrow(s: string, cur: nat, w: nat, pend: seq<string>, starts: seq<nat>, ends: seq<nat>)
    requires Pending(s, cur, pend, starts, ends)
    requires cur < w <= |s| && IsSpace(s[w - 1])
    requires forall p :: cur <= p < w - 1 ==> !IsSpace(s[p])
    ensures Pending(s, w, pend + [s[cur..w - 1]], starts + [cur], ends + [w - 1])
  {
    var pend2, starts2, ends2 := pend + [s[cur..w - 1]], starts + [cur], ends + [w - 1];
    forall k | 0 <= k < |pend2|
      ensures IsCell(s, w, pend2[k], starts2[k], ends2[k])
    {
      if k < |pend| {
        assert IsCell(s, cur, pend[k], starts[k], ends[k]);
      }
    }
  }

  /** A pending cell reads back through a pointer to its first character. */
  lemma PendingRead(s: string, w: nat, cur: nat, pend: seq<string>, starts: seq<nat>, ends: seq<nat>, k: nat)
    requires NoNul(s) && Pending(s, cur, pend, starts, ends)
    requires k < |pend| && cur <= w
    ensures CStr(Scanned(s, w), starts[k]) == pend[k]
  {
    assert IsCell(s, cur, pend[k], starts[k], ends[k]);
    ScannedToken(s, w, starts[k], ends[k]);
  }

  /** The state of the scan with `cur` at the start of the cell being
      read: the pending cells of the current row, `typ` at the start of the
      row, and `name` and `method_` set when the row's first and second cell
      have ended, at the start of the cell after each. */
  ghost predicate Open(s: string, cur: nat, typ: nat, name: Option<nat>, method_: Option<nat>,
                       pend: seq<string>, starts: seq<nat>, ends: seq<nat>)
  {
    && Pending(s, cur, pend, starts, ends) && |pend| < 3
    && (name.None? <==> |pend| == 0)
    && (name.Some? ==> (method_.None? <==> |pend| == 1))
    && (|pend| == 0 ==> typ == cur)
    && (|pend| >= 1 ==> typ == starts[0])
    && (|pend| == 1 ==> name.value == cur)
    && (|pend| == 2 ==> name.value == starts[1] && method_.Some? && method_.value == cur)
  }

  /** The cell from `cur` has just been terminated at `w - 1`: record it,
      and print the row if it was the row's third cell. */
  method Advance(b: seq<char>, s: string, w: nat, typ: nat, name: Option<nat>, method_: Option<nat>,
                 ghost cur: nat, ghost pend: seq<string>, ghost starts: seq<nat>, ghost ends: seq<nat>)
    returns (line: seq<PortsLine>, typ2: nat, name2: Option<nat>, method2: Option<nat>,
             ghost pend2: seq<string>, ghost starts2: seq<nat>, ghost ends2: seq<nat>)
    requires NoNul(s) && b == Scanned(s, w)
    requires cur < w <= |s| && IsSpace(s[w - 1])
    requires forall p :: cur <= p < w - 1 ==> !IsSpace(s[p])
    requires Open(s, cur, typ, name, method_, pend, starts, ends)
    ensures Open(s, w, typ2, name2, method2, pend2, starts2, ends2)
    ensures line + Listed(pend2 + Cells(s, w)) == Listed(pend + Cells(s, cur))
  {
    ghost var c := s[cur..w - 1];
    CellsStep(s, cur, w);
    PendingGrow(s, cur, w, pend, starts, ends);
    line := [];
    if name.None? || method_.None? {
      typ2, method2 := typ, if name.None? then None else Some(w);
      name2 := if name.None? then Some(w) else name;
      pend2, starts2, ends2 := pend + [c], starts + [cur], ends + [w - 1];
      ListedStep(pend, c, Cells(s, cur), Cells(s, w), line, pend2);
    } else {
      ghost var row := pend + [c];
      ghost var st := starts + [cur];
      PendingRead(s, w, w, row, st, ends + [w - 1], 0);
      PendingRead(s, w, w, row, st, ends + [w - 1], 1);
      PendingRead(s, w, w, row, st, ends + [w - 1], 2);
      assert CStr(b, typ) == pend[0] && CStr(b, name.value) == pend[1] && CStr(b, method_.value) == c;
      var tree, how := CStr(b, name.value), CStr(b, method_.value);
      if CStr(b, typ) == "ports" {
        line := [PortsLine(tree, how)];
      }
      typ2, name2, method2 := w, None, None;
      pend2, starts2, ends2 := [], [], [];
      assert |pend| == 2;
      assert line == if pend[0] == "ports" then [PortsLine(pend[1], c)] else [];
      ListedStep(pend, c, Cells(s, cur), Cells(s, w), line, pend2);
    }
  }

  /** The invariant of the tokenizing loop: the buffer `b` as far as the
      walk has gone, the cell being read from `cur`, the row state, and the
      lines printed so far followed by those still to come being those of
      the whole text. */
  ghost predicate Scanning(s: string, b: seq<char>, walk: nat, cur: nat, typ: nat, name: Option<nat>,
                           method_: Option<nat>, pend: seq<string>, starts: seq<nat>, ends: seq<nat>,
                           out: seq<PortsLine>)
  {
    && cur <= walk <= |s| + 1 && cur <= |s|
    && b == Scanned(s, walk)
    && (forall p :: cur <= p < walk && p < |s| ==> !IsSpace(s[p]))
    && Open(s, cur, typ, name, method_, pend, starts, ends)
    && out + Listed(pend + Cells(s, cur)) == Listed(Cells(s, 0))
  }

  /** One pass of the `do ... while (walk <= end)` loop of `ports_list`. */
  method ScanStep(a: array<char>, s: string, walk: nat, typ: nat, name: Option<nat>, method_: Option<nat>,
                  ghost cur: nat, ghost pend: seq<string>, ghost starts: seq<nat>, ghost ends: seq<nat>,
                  out: seq<PortsLine>)
    returns (walk2: nat, typ2: nat, name2: Option<nat>, method2: Option<nat>, ghost cur2: nat,
             ghost pend2: seq<string>, ghost starts2: seq<nat>, ghost ends2: seq<nat>, out2: seq<PortsLine>)
    requires NoNul(s) && a.Length == |s| + 1 && walk <= |s|
    requires Scanning(s, a[..], walk, cur, typ, name, method_, pend, starts, ends, out)
    modifies a
    ensures walk2 == walk + 1
    ensures Scanning(s, a[..], walk2, cur2, typ2, name2, method2, pend2, starts2, ends2, out2)
  {
    if IsSpace(a[walk]) {
      ScannedStep(s, walk);
      a[walk] := NUL;
      walk2 := walk + 1;
      var line;
      line, typ2, name2, method2, pend2, starts2, ends2 :=
        Advance(a[..], s, walk2, typ, name, method_, cur, pend, starts, ends);
      cur2 := walk2;
      out2 := out + line;
      assert out + (line + Listed(pend2 + Cells(s, cur2))) == out2 + Listed(pend2 + Cells(s, cur2));
    } else {
      if walk < |s| {
        ScannedSkip(s, walk, walk + 1);
      } else {
        ScannedEnd(s);
      }
      walk2, typ2, name2, method2, cur2, pend2, starts2, ends2, out2 :=
        walk + 1, typ, name, method_, cur, pend, starts, ends, out;
    }
  }

  /** The tokenizing loop of `ports_list` over the captured text `s`. */
  method ScanPorts(s: string) returns (out: seq<PortsLine>)
    requires NoNul(s)
    ensures out == Listed(Cells(s, 0))
  {
    var a := NewBuffer(s);
    var walk: nat := 0;
    var typ: nat := 0;
    var name: Option<nat> := None;
    var method_: Option<nat> := None;
    ghost var cur: nat := 0;
    ghost var pend: seq<string> := [];
    ghost var starts: seq<nat> := [];
    ghost var ends: seq<nat> := [];
    out := [];
    assert pend + Cells(s, cur) == Cells(s, 0);
    while walk <= |s|
      invariant a.Length == |s| + 1
      invariant Scanning(s, a[..], walk, cur, typ, name, method_, pend, starts, ends, out)
      decreases |s| + 1 - walk
    {
      walk, typ, name, method_, cur, pend, starts, ends, out :=
        ScanStep(a, s, walk, typ, name, method_, cur, pend, starts, ends, out);
    }
    assert Cells(s, cur) == [] by {
      assert SpaceFrom(s, cur).None?;
    }
    assert pend + [] == pend;
  }

  /** `ports_list()`: print the header, run the listing and print the
      ports trees it reports. */
  method PortsList(run: string -> Option<string>) returns (cmd: string, out: seq<PortsLine>)
    ensures cmd == ListCommand
    ensures out == PortsListOutput(run(cmd))
  {
    cmd := ListCommand;
    out := [Header];
    var res := ExecBuf(run(cmd));
    if res.Some? {
      var lines := ScanPorts(res.value);
      out := out + lines;
    }
  }

  /** The action `exec_ports` is asked for. */
  datatype Params = NONE | CREATE | DELETE | UPDATE | LIST

  /** `EX_OK` of `sysexits.h`. */
  const EX_OK: int := 0

  /** The action an option character selects, if it selects one. */
  function Action(c: char): Params
  {
    match c
    case 'c' => CREATE
    case 'u' => UPDATE
    case 'd' => DELETE
    case 'l' => LIST
    case _ => NONE
  }

  /** The options accepted without effect: `-F`, `-p`, `-f`, `-M`, `-m`. */
  predicate Ignored(c: char)
  {
    c == 'F' || c == 'p' || c == 'f' || c == 'M' || c == 'm'
  }

  /** The action selected and the number of usage messages printed after
      `getopt` has returned the option characters `opts`. */
  function Parse(opts: seq<char>): (Params, nat)
  {
    if opts == [] then (NONE, 0)
    else
      var (p, u) := Parse(opts[..|opts| - 1]);
      var c := opts[|opts| - 1];
      if Action(c) != NONE then (Action(c), u + if p != NONE then 1 else 0)
      else if Ignored(c) then (p, u)
      else (p, u + 1)
  }

  /** The action of the last action option, found from the end. */
  function LastAction(opts: seq<char>): Params
  {
    if opts == [] then NONE
    else if Action(opts[|opts| - 1]) != NONE then Action(opts[|opts| - 1])
    else LastAction(opts[..|opts| - 1])
  }

  /** The number of action options (`-c`, `-u`, `-d`, `-l`). */
  function Actions(opts: seq<char>): nat
  {
    if opts == [] then 0 else (if Action(opts[0]) != NONE then 1 else 0) + Actions(opts[1..])
  }

  /** The number of options that are neither actions nor ignored. */
  function Unknown(opts: seq<char>): nat
  {
    if opts == [] then 0
    else (if Action(opts[0]) == NONE && !Ignored(opts[0]) then 1 else 0) + Unknown(opts[1..])
  }

  lemma {:induction false} CountsLast(opts: seq<char>)
    requires opts != []
    ensures var init := opts[..|opts| - 1]; var c := opts[|opts| - 1];
      && Actions(opts) == Actions(init) + (if Action(c) != NONE then 1 else 0)
      && Unknown(opts) == Unknown(init) + (if Action(c) == NONE && !Ignored(c) then 1 else 0)
    decreases |opts|
  {
    if |opts| > 1 {
      var t := opts[1..];
      CountsLast(t);
      assert t[..|t| - 1] == opts[..|opts| - 1][1..];
    }
  }

  /** The last of `-c`, `-u`, `-d`, `-l` wins; every one of them after the
      first prints usage once, and so does every unknown option. */
  lemma {:induction false} ParseCounts(opts: seq<char>)
    ensures Parse(opts).0 == LastAction(opts)
    ensures Parse(opts).0 == NONE <==> Actions(opts) == 0
    ensures Parse(opts).1 == Unknown(opts) + if Actions(opts) > 0 then Actions(opts) - 1 else 0
    decreases |opts|
  {
    if opts != [] {
      ParseCounts(opts[..|opts| - 1]);
      CountsLast(opts);
    }
  }

  /** What `exec_ports` did. */
  datatype PortsRun = PortsRun(ret: int, usages: nat, listing: Option<seq<PortsLine>>)

  /** `exec_ports` given the options `getopt` returned: parse, then run the
      listing for `-l`, print usage when no action was given, and do
      nothing more for the other actions. */
  method ExecPorts(opts: seq<char>, run: string -> Option<string>) returns (r: PortsRun)
    ensures r.ret == EX_OK
    ensures r.usages == Parse(opts).1 + if Parse(opts).0 == NONE then 1 else 0
    ensures r.listing.Some? <==> Parse(opts).0 == LIST
    ensures r.listing.Some? ==> r.listing.value == PortsListOutput(run(ListCommand))
  {
    var p := NONE;
    var usages: nat := 0;
    var i := 0;
    while i < |opts|
      invariant 0 <= i <= |opts|
      invariant (p, usages) == Parse(opts[..i])
    {
      assert opts[..i + 1][..i] == opts[..i];
      var ch := opts[i];
      match ch {
        case 'c' =>
          if p != NONE { usages := usages + 1; }
          p := CREATE;
        case 'F' =>
        case 'u' =>
          if p != NONE { usages := usages + 1; }
          p := UPDATE;
        case 'd' =>
          if p != NONE { usages := usages + 1; }
          p := DELETE;
        case 'l' =>
          if p != NONE { usages := usages + 1; }
          p := LIST;
        case 'p' =>
        case 'f' =>
        case 'M' =>
        case 'm' =>
        case _ =>
          usages := usages + 1;
      }
      i := i + 1;
    }
    assert opts[..|opts|] == opts;
    var listing: Option<seq<PortsLine>> := None;
    match p {
      case CREATE =>
      case LIST =>
        var cmd, out := PortsList(run);
        listing := Some(out);
      case UPDATE =>
      case DELETE =>
      case NONE =>
        usages := usages + 1;
    }
    r := PortsRun(EX_OK, usages, listing);
  }
}
