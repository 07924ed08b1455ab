/** The tabular property store over `zfs list -H`: `zfs_list` enumerates
    every dataset of one type, `zfs_query` looks one up by type and name.
    Both build a listing command, capture its output through `exec_buf`,
    and tokenize the captured buffer in place. */
module Zfs {
  import opened Strings
  import opened Tokens
  import opened Runner

  /** One requested column of `zfs_list`: the property suffix after
      `poudriere:`, the column title and its `printf` format. */
  datatype ZfsProp = ZfsProp(name: string, title: string, format: string)

  /** One `printf(format, arg)` call. */
  datatype Line = Line(format: string, arg: string)

  /** `/sbin/zfs list -r -H -o `, the listing both parsers run. */
  const ListBase: string := "/sbin/zfs list -r -H -o "
  const ListPrefix: string := ListBase + "poudriere:type"
  const QueryPrefix: string := ListBase + "poudriere:type" + "," + "poudriere:name"

  // ---------------------------------------------------------------------
  // Command strings

  /** The `-o` argument list joined with commas. */
  function Join(cols: seq<string>): string
  {
    if |cols| == 0 then [] else if |cols| == 1 then cols[0] else cols[0] + "," + Join(cols[1..])
  }

  /** Cutting a text at its commas. */
  function SplitCommas(s: string): (r: seq<string>)
    ensures |r| > 0
    decreases |s|
  {
    if |s| == 0 then [""]
    else if s[0] == ',' then [""] + SplitCommas(s[1..])
    else var rest := SplitCommas(s[1..]); [[s[0]] + rest[0]] + rest[1..]
  }

  predicate NoComma(x: string)
  {
    forall i :: 0 <= i < |x| ==> x[i] != ','
  }

  lemma {:induction false} SplitWord(x: string, tail: string)
    requires NoComma(x)
    ensures SplitCommas(x + tail)[0] == x + SplitCommas(tail)[0]
    ensures SplitCommas(x + tail)[1..] == SplitCommas(tail)[1..]
    decreases |x|
  {
    if |x| > 0 {
      assert (x + tail)[0] == x[0];
      assert (x + tail)[1..] == x[1..] + tail;
      SplitWord(x[1..], tail);
      assert [x[0]] + (x[1..] + SplitCommas(tail)[0]) == x + SplitCommas(tail)[0];
    } else {
      assert x + tail == tail;
    }
  }

  /** The column list can be read back from the command: cutting the joined
      list at its commas gives the requested columns, in order. */
  lemma {:induction false} SplitJoin(cols: seq<string>)
    requires |cols| > 0
    requires forall k :: 0 <= k < |cols| ==> NoComma(cols[k])
    ensures SplitCommas(Join(cols)) == cols
    decreases |cols|
  {
    if |cols| == 1 {
      SplitWord(cols[0], "");
      assert cols[0] + "" == cols[0];
      var r := SplitCommas(cols[0]);
      assert r == [r[0]] + r[1..];
    } else {
      var tail := "," + Join(cols[1..]);
      SplitJoin(cols[1..]);
      assert tail[1..] == Join(cols[1..]);
      assert SplitCommas(tail) == [""] + cols[1..];
      assert Join(cols) == cols[0] + tail;
      SplitWord(cols[0], tail);
      var r := SplitCommas(Join(cols));
      assert r[0] == cols[0] + "" == cols[0];
      assert r[1..] == cols[1..];
      assert r == [r[0]] + r[1..];
      assert cols == [cols[0]] + cols[1..];
    }
  }

  /** The `,poudriere:<name>` suffix appended per requested column. */
  function ListSuffix(z: seq<ZfsProp>): string
  {
    if |z| == 0 then [] else ",poudriere:" + z[0].name + ListSuffix(z[1..])
  }

  /** The `,<name>` suffix appended per queried property (no prefix). */
  function QuerySuffix(names: seq<string>): string
  {
    if |names| == 0 then [] else "," + names[0] + QuerySuffix(names[1..])
  }

  /** The command `zfs_list` runs. */
  function ListCommand(z: seq<ZfsProp>): string
  {
    ListPrefix + ListSuffix(z)
  }

  /** The command `zfs_query` runs for the properties `names`. */
  function QueryCommand(names: seq<string>): string
  {
    QueryPrefix + QuerySuffix(names)
  }

  /** The columns `zfs_list` asks for: the type, then every requested
      property under the `poudriere:` namespace, in request order. */
  function ListColumns(z: seq<ZfsProp>): (r: seq<string>)
    ensures |r| == |z| + 1 && r[0] == "poudriere:type"
    ensures forall i :: 0 <= i < |z| ==> r[i + 1] == "poudriere:" + z[i].name
  {
    ["poudriere:type"] + seq(|z|, i requires 0 <= i < |z| => "poudriere:" + z[i].name)
  }

  /** The columns `zfs_query` asks for: type and name, then the property
      names exactly as given. */
  function QueryColumns(names: seq<string>): (r: seq<string>)
    ensures |r| == |names| + 2 && r[0] == "poudriere:type" && r[1] == "poudriere:name"
    ensures forall i :: 0 <= i < |names| ==> r[i + 2] == names[i]
  {
    ["poudriere:type", "poudriere:name"] + names
  }

  lemma {:induction false} ListSuffixJoin(z: seq<ZfsProp>, head: string)
    ensures head + ListSuffix(z) == Join([head] + ListColumns(z)[1..])
    decreases |z|
  {
    if |z| > 0 {
      var cols := ListColumns(z)[1..];
      assert ListColumns(z[1..])[1..] == cols[1..];
      ListSuffixJoin(z[1..], "poudriere:" + z[0].name);
      assert ([head] + cols)[1..] == cols;
      assert cols == ["poudriere:" + z[0].name] + cols[1..];
    }
  }

  lemma {:induction false} QuerySuffixJoin(names: seq<string>, head: string)
    ensures head + QuerySuffix(names) == Join([head] + names)
    decreases |names|
  {
    if |names| > 0 {
      QuerySuffixJoin(names[1..], names[0]);
      assert ([head] + names)[1..] == names;
      assert names == [names[0]] + names[1..];
    }
  }

  /** `zfs_list` runs `zfs list -r -H -o` with exactly its columns, joined
      by commas in request order. */
  lemma ListCommandColumns(z: seq<ZfsProp>)
    ensures ListCommand(z) == "/sbin/zfs list -r -H -o " + Join(ListColumns(z))
  {
    ListSuffixJoin(z, "poudriere:type");
    assert [ListColumns(z)[0]] + ListColumns(z)[1..] == ListColumns(z);
  }

  /** `zfs_query` runs `zfs list -r -H -o` with type, name and then the
      property names as given, joined by commas. */
  lemma QueryCommandColumns(names: seq<string>)
    ensures QueryCommand(names) == "/sbin/zfs list -r -H -o " + Join(QueryColumns(names))
  {
    var cols := QueryColumns(names);
    QuerySuffixJoin(names, "poudriere:name");
    assert cols[1..] == ["poudriere:name"] + names;
    assert Join(cols) == "poudriere:type" + "," + Join(cols[1..]);
  }

  // ---------------------------------------------------------------------
  // zfs_list

  /** The column titles, printed before anything else. */
  function Titles(z: seq<ZfsProp>): (r: seq<Line>)
    ensures |r| == |z|
    ensures forall i :: 0 <= i < |z| ==> r[i] == Line(z[i].format, z[i].title)
  {
    seq(|z|, i requires 0 <= i < |z| => Line(z[i].format, z[i].title))
  }

  /** The fields of one row, each printed with its column's format. */
  function FieldLines(z: seq<ZfsProp>, vals: seq<string>): (r: seq<Line>)
    requires |vals| == |z|
    ensures |r| == |z|
    ensures forall i :: 0 <= i < |z| ==> r[i] == Line(z[i].format, vals[i])
  {
    seq(|z|, i requires 0 <= i < |z| => Line(z[i].format, vals[i]))
  }

  /** What `zfs_list` prints for a sequence of rows of `type` plus one
      token per column: the fields of the rows of type `t`, in row order. */
  function ListRows(z: seq<ZfsProp>, t: string, rows: seq<seq<string>>): seq<Line>
    requires forall k :: 0 <= k < |rows| ==> |rows[k]| == |z| + 1
  {
    if rows == [] then []
    else (if rows[0][0] == t then FieldLines(z, rows[0][1..]) else []) + ListRows(z, t, rows[1..])
  }

  /** Rows are independent: the output for two tables read one after the
      other is the output for the first followed by that for the second. */
  lemma {:induction false} ListRowsAppend(z: seq<ZfsProp>, t: string, r1: seq<seq<string>>, r2: seq<seq<string>>)
    requires forall k :: 0 <= k < |r1| ==> |r1[k]| == |z| + 1
    requires forall k :: 0 <= k < |r2| ==> |r2[k]| == |z| + 1
    ensures ListRows(z, t, r1 + r2) == ListRows(z, t, r1) + ListRows(z, t, r2)
    decreases |r1|
  {
    if r1 != [] {
      assert (r1 + r2)[0] == r1[0];
      assert (r1 + r2)[1..] == r1[1..] + r2;
      ListRowsAppend(z, t, r1[1..], r2);
    } else {
      assert r1 + r2 == r2;
    }
  }

  /** Type filtering: when no row has type `t`, nothing is printed after
      the titles; and a single row prints its fields exactly when its type
      token is `t`. */
  lemma {:induction false} ListRowsFilter(z: seq<ZfsProp>, t: string, rows: seq<seq<string>>)
    requires forall k :: 0 <= k < |rows| ==> |rows[k]| == |z| + 1
    requires forall k :: 0 <= k < |rows| ==> rows[k][0] != t
    ensures ListRows(z, t, rows) == []
    decreases |rows|
  {
    if rows != [] {
      ListRowsFilter(z, t, rows[1..]);
    }
  }

  /** The well-formed output `zfs_list` parses: no NUL, no leading
      whitespace, a trailing separator, and a whole number of rows of
      `n + 1` tokens. */
  predicate ListWellFormed(s: string, n: nat)
  {
    && NoNul(s)
    && (|s| > 0 ==> !IsSpace(s[0]) && IsSpace(s[|s| - 1]))
    && Leftover(Words(s), n + 1) == []
  }

  /** What `zfs_list` prints, given what its command produced. */
  function ListOutput(z: seq<ZfsProp>, t: string, captured: Option<string>): seq<Line>
  {
    Titles(z) + match ExecBuf(captured)
      case None => []
      case Some(s) => ListRows(z, t, Rows(Words(s), |z| + 1))
  }

  lemma RowsUnfold(toks: seq<string>, rb: nat, R: nat)
    requires R > 0 && rb + R <= |toks|
    ensures Rows(toks[rb..], R) == [toks[rb..rb + R]] + Rows(toks[rb + R..], R)
    ensures Leftover(toks[rb..], R) == Leftover(toks[rb + R..], R)
  {
    assert toks[rb..][..R] == toks[rb..rb + R];
    assert toks[rb..][R..] == toks[rb + R..];
  }

  /** The row being assembled in a buffer advanced to `w` has its type
      token at `typ` and its first field tokens at `fields`, all of them
      already terminated. */
  ghost predicate RowAt(s: string, w: nat, typ: nat, fields: seq<nat>, rb: nat)
  {
    var sp := Spans(s, 0);
    && rb + |fields| < |sp|
    && typ == sp[rb].0
    && (forall i :: 0 <= i < |fields| ==> fields[i] == sp[rb + 1 + i].0)
    && (forall k :: rb <= k <= rb + |fields| ==> sp[k].1 < w)
  }

  /** Reading a terminated token of a row back through its pointer. */
  lemma TokenRead(s: string, w: nat, typ: nat, fields: seq<nat>, rb: nat, k: nat)
    requires NoNul(s) && |s| > 0 && IsSpace(s[|s| - 1])
    requires RowAt(s, w, typ, fields, rb) && rb <= k <= rb + |fields|
    ensures CStr(Scanned(s, w), Spans(s, 0)[k].0) == Words(s)[k]
  {
    SpansAreTokens(s, 0, k);
    ScannedToken(s, w, Spans(s, 0)[k].0, Spans(s, 0)[k].1);
  }

  /** The type token of a row reads back as itself. */
  lemma TypeRead(s: string, w: nat, typ: nat, fields: seq<nat>, rb: nat)
    requires NoNul(s) && |s| > 0 && IsSpace(s[|s| - 1])
    requires RowAt(s, w, typ, fields, rb)
    ensures CStr(Scanned(s, w), typ) == Words(s)[rb]
  {
    TokenRead(s, w, typ, fields, rb, rb);
  }

  /** The field token `i` of a row reads back as itself. */
  lemma FieldRead(s: string, w: nat, typ: nat, fields: seq<nat>, rb: nat, i: nat)
    requires NoNul(s) && |s| > 0 && IsSpace(s[|s| - 1])
    requires RowAt(s, w, typ, fields, rb) && i < |fields|
    ensures fields[i] < |s|
    ensures CStr(Scanned(s, w), fields[i]) == Words(s)[rb + 1 + i]
  {
    var k := rb + 1 + i;
    assert fields[i] == Spans(s, 0)[k].0;
    TokenRead(s, w, typ, fields, rb, k);
  }

  /** Reading the field tokens of a row from `off` on back through their
      pointers gives the corresponding token texts. */
  lemma RowReads(s: string, w: nat, typ: nat, fs: seq<nat>, rb: nat, off: nat, fv: seq<nat>,
                 lo: nat, hi: nat, row: seq<string>)
    requires NoNul(s) && |s| > 0 && IsSpace(s[|s| - 1])
    requires RowAt(s, w, typ, fs, rb) && off <= |fs| && fv == fs[off..]
    requires lo == rb + 1 + off && hi == rb + 1 + |fs|
    requires hi <= |Words(s)| && row == Words(s)[lo..hi]
    ensures |row| == |fv|
    ensures forall i :: 0 <= i < |fv| ==> fv[i] <= |s| && CStr(Scanned(s, w), fv[i]) == row[i]
  {
    forall i | 0 <= i < |fv|
      ensures fv[i] <= |s| && CStr(Scanned(s, w), fv[i]) == row[i]
    {
      RowRead(s, w, typ, fs, rb, off, fv, lo, hi, row, i);
    }
  }

  lemma RowRead(s: string, w: nat, typ: nat, fs: seq<nat>, rb: nat, off: nat, fv: seq<nat>,
                lo: nat, hi: nat, row: seq<string>, i: nat)
    requires NoNul(s) && |s| > 0 && IsSpace(s[|s| - 1])
    requires RowAt(s, w, typ, fs, rb) && off <= |fs| && fv == fs[off..]
    requires lo == rb + 1 + off && hi == rb + 1 + |fs|
    requires hi <= |Words(s)| && row == Words(s)[lo..hi] && i < |fv|
    ensures i < |row| && fv[i] <= |s| && CStr(Scanned(s, w), fv[i]) == row[i]
  {
    var k := off + i;
    var p := fs[k];
    assert fv[i] == p;
    var word := Words(s)[rb + 1 + k];
    assert row[i] == word;
    FieldRead(s, w, typ, fs, rb, k);
    assert CStr(Scanned(s, w), p) == word;
  }

  /** Print (when the type matches) the fields of the complete row whose
      tokens sit at `typ` and `fields`. */
  method EmitRow(z: seq<ZfsProp>, t: string, a: array<char>, fields: array<nat>, typ: nat,
                 ghost s: string, ghost w: nat, ghost rb: nat, ghost rb2: nat)
    returns (lines: seq<Line>)
    requires NoNul(s) && |s| > 0 && IsSpace(s[|s| - 1])
    requires a.Length == |s| + 1 && fields.Length == |z|
    requires a[..] == Scanned(s, w)
    requires RowAt(s, w, typ, fields[..], rb) && rb2 == rb + |z| + 1
    ensures rb2 <= |Words(s)|
    ensures lines == if Words(s)[rb] == t then FieldLines(z, Words(s)[rb + 1..rb2]) else []
  {
    var m := TypeMatches(t, a, typ, s, w, fields[..], rb);
    lines := [];
    if m {
      ghost var row := Words(s)[rb + 1..rb2];
      assert fields[..][0..] == fields[..];
      RowReads(s, w, typ, fields[..], rb, 0, fields[..], rb + 1, rb2, row);
      lines := PrintFields(z, a, fields, s, Scanned(s, w), fields[..], row);
    }
  }

  /** `strcmp(type, t) == 0` on the row at `rb`. */
  method TypeMatches(t: string, a: array<char>, typ: nat, ghost s: string, ghost w: nat,
                     ghost fs: seq<nat>, ghost rb: nat) returns (m: bool)
    requires NoNul(s) && |s| > 0 && IsSpace(s[|s| - 1])
    requires a.Length == |s| + 1 && a[..] == Scanned(s, w)
    requires RowAt(s, w, typ, fs, rb)
    ensures rb < |Words(s)|
    ensures m == (Words(s)[rb] == t)
  {
    TypeRead(s, w, typ, fs, rb);
    m := CStr(a[..], typ) == t;
  }

  /** `printf(z[i].format, fields[i])` for every column. */
  method PrintFields(z: seq<ZfsProp>, a: array<char>, fields: array<nat>, ghost s: string, ghost buf: seq<char>,
                     ghost fv: seq<nat>, ghost row: seq<string>) returns (lines: seq<Line>)
    requires a[..] == buf && |buf| == |s| + 1 && fields[..] == fv && |row| == |fv| == |z|
    requires forall i :: 0 <= i < |fv| ==> fv[i] <= |s| && CStr(buf, fv[i]) == row[i]
    ensures lines == FieldLines(z, row)
  {
    lines := [];
    for i := 0 to |z|
      invariant |lines| == i
      invariant forall k :: 0 <= k < i ==> lines[k] == Line(z[k].format, row[k])
    {
      assert fields[i] == fv[i];
      lines := lines + [Line(z[i].format, CStr(a[..], fields[i]))];
    }
  }

  lemma AppendAssoc<T>(x: seq<T>, y: seq<T>, u: seq<T>)
    ensures (x + y) + u == x + (y + u)
  {
  }

  /** A position from which the next token may be looked for. */
  predicate Boundary(s: string, w: nat)
  {
    w <= |s| && (w == 0 || w == |s| || IsSpace(s[w - 1]) || IsSpace(s[w]))
  }

  /** One row of a table of rows of `R` tokens, and what `zfs_list` prints
      for it. */
  lemma ListRowsStep(z: seq<ZfsProp>, t: string, toks: seq<string>, rb: nat, rb2: nat)
    requires rb2 == rb + |z| + 1 <= |toks|
    ensures Leftover(toks[rb..], |z| + 1) == Leftover(toks[rb2..], |z| + 1)
    ensures ListRows(z, t, Rows(toks[rb..], |z| + 1)) ==
      (if toks[rb] == t then FieldLines(z, toks[rb + 1..rb2]) else [])
        + ListRows(z, t, Rows(toks[rb2..], |z| + 1))
  {
    var R := |z| + 1;
    RowsUnfold(toks, rb, R);
    var rows := Rows(toks[rb..], R);
    assert rows[0] == toks[rb..rb + R];
    assert rows[1..] == Rows(toks[rb + R..], R);
    assert rows[0][1..] == toks[rb + 1..rb + R];
  }

  /** Where the `zfs_list` loop stands at the top of an iteration: `j`
      field tokens of the row that starts at token `rb` have been read
      (their positions are `fs`), or the whole text has been consumed. */
  ghost predicate ListCursor(s: string, n: nat, w: nat, rb: nat, typ: nat, fs: seq<nat>)
  {
    var sp := Spans(s, 0);
    && |fs| < n && rb <= |sp| && w <= |s| + 1
    && Leftover(Words(s)[rb..], n + 1) == []
    && (w <= |s| ==>
      && rb + n + 1 <= |sp|
      && Boundary(s, w)
      && Spans(s, w) == sp[rb + 1 + |fs|..]
      && typ == sp[rb].0 && sp[rb].1 <= w
      && (|fs| > 0 ==> RowAt(s, w, typ, fs, rb)))
    && (w > |s| ==> w == |s| + 1 && rb == |sp|)
  }

  /** What `TakeToken` reports after a step from `w` to `w2`. */
  ghost predicate Took(s: string, w: nat, st: nat, w2: nat)
    requires Boundary(s, w)
  {
    && st == SpaceEnd(s, w)
    && (st == |s| ==> Spans(s, w) == [] && w2 == |s| + 1)
    && (st < |s| ==> Spans(s, w) != [] && Spans(s, w)[0] == (st, w2 - 1))
    && (st < |s| && w2 <= |s| ==> Spans(s, w2) == Spans(s, w)[1..])
  }

  /** A row assembled up to `w` stays assembled as the buffer advances,
      and grows by the token that ends just before `w2`. */
  lemma RowAtExtend(s: string, w: nat, w2: nat, typ: nat, fs: seq<nat>, rb: nat)
    requires rb + 1 + |fs| < |Spans(s, 0)| && w < w2
    requires typ == Spans(s, 0)[rb].0 && Spans(s, 0)[rb].1 <= w
    requires |fs| > 0 ==> RowAt(s, w, typ, fs, rb)
    requires Spans(s, 0)[rb + 1 + |fs|].1 < w2
    ensures RowAt(s, w2, typ, fs + [Spans(s, 0)[rb + 1 + |fs|].0], rb)
  {
    var sp := Spans(s, 0);
    var fs2 := fs + [sp[rb + 1 + |fs|].0];
    forall i | 0 <= i < |fs2|
      ensures fs2[i] == sp[rb + 1 + i].0
    {
      if i < |fs| {
        assert fs2[i] == fs[i];
      }
    }
    forall q | rb <= q <= rb + |fs2|
      ensures sp[q].1 < w2
    {
      if q == rb {
        assert sp[q].1 <= w;
      } else if q < rb + |fs2| {
        assert RowAt(s, w, typ, fs, rb);
        assert sp[q].1 < w;
      } else {
        assert q == rb + 1 + |fs|;
      }
    }
  }

  /** A token taken from a boundary whose remaining spans are known is the
      next of those spans, and it ends at a separator. */
  lemma TookSpan(s: string, w: nat, k: nat, st: nat, w2: nat, next: nat)
    requires |s| > 0 && IsSpace(s[|s| - 1])
    requires Boundary(s, w) && k < |Spans(s, 0)|
    requires Spans(s, w) == Spans(s, 0)[k..]
    requires Took(s, w, st, w2)
    requires next == k + 1
    ensures Spans(s, 0)[k] == (st, w2 - 1)
    ensures w <= st < w2 <= |s| && Boundary(s, w2)
    ensures Spans(s, w2) == Spans(s, 0)[next..]
  {
    var sp := Spans(s, 0);
    SpansHead(s, w);
    SpansAreTokens(s, 0, k);
    assert IsToken(s, st, w2 - 1);
  }

  /** Reading one more field token of the current row. */
  lemma FieldStep(s: string, n: nat, w: nat, rb: nat, typ: nat, fs: seq<nat>, st: nat, w2: nat, next: nat)
    requires |s| > 0 && IsSpace(s[|s| - 1])
    requires ListCursor(s, n, w, rb, typ, fs) && w <= |s|
    requires Took(s, w, st, w2)
    requires next == rb + 2 + |fs|
    ensures w2 <= |s| && Boundary(s, w2)
    ensures RowAt(s, w2, typ, fs + [st], rb)
    ensures Spans(s, w2) == Spans(s, 0)[next..]
    ensures Spans(s, 0)[next - 1] == (st, w2 - 1)
  {
    TookSpan(s, w, rb + 1 + |fs|, st, w2, next);
    RowAtExtend(s, w, w2, typ, fs, rb);
  }

  /** The cursor after a field token that does not complete the row. */
  lemma FieldCursor(s: string, n: nat, w: nat, rb: nat, typ: nat, fs: seq<nat>, st: nat, w2: nat, next: nat)
    requires ListCursor(s, n, w, rb, typ, fs) && w <= |s|
    requires w2 <= |s| && Boundary(s, w2) && w <= w2
    requires RowAt(s, w2, typ, fs + [st], rb)
    requires next == rb + 2 + |fs|
    requires Spans(s, w2) == Spans(s, 0)[next..]
    requires |fs| + 1 < n
    ensures ListCursor(s, n, w2, rb, typ, fs + [st])
  {
  }

  /** Reading the type token of the row that starts at token `rb`. */
  lemma RowStep(s: string, n: nat, w: nat, rb: nat, st: nat, w2: nat)
    requires ListWellFormed(s, n) && |s| > 0 && n > 0
    requires rb <= |Spans(s, 0)| && Boundary(s, w)
    requires Leftover(Words(s)[rb..], n + 1) == []
    requires Spans(s, w) == Spans(s, 0)[rb..]
    requires Took(s, w, st, w2)
    ensures ListCursor(s, n, w2, rb, st, [])
  {
    var sp := Spans(s, 0);
    var toks := Words(s);
    if st < |s| {
      assert sp[rb] == (st, w2 - 1);
      SpansAreTokens(s, 0, rb);
      assert |toks[rb..]| >= n + 1;
    }
  }

  /** The cursor after the type token of the first row. */
  lemma FirstCursor(s: string, n: nat)
    requires ListWellFormed(s, n) && |s| > 0 && n > 0
    ensures ListCursor(s, n, TokenEnd(s, 0), 0, 0, [])
  {
    var sp := Spans(s, 0);
    var toks := Words(s);
    SpansHead(s, 0);
    SpansAreTokens(s, 0, 0);
    assert toks[0..] == toks;
    assert |toks| >= n + 1;
  }

  /** `fields[j++] = walk;` */
  method StoreField(fields: array<nat>, j: nat, st: nat, ghost fs: seq<nat>) returns (j2: nat)
    requires j < fields.Length && fields[..j] == fs
    modifies fields
    ensures j2 == j + 1 && fields[..j2] == fs + [st]
    ensures j2 == fields.Length ==> fields[..] == fs + [st]
  {
    fields[j] := st;
    j2 := j + 1;
    assert fields[..j2] == fields[..j] + [st];
  }

  /** The end of a complete row: print its fields when its type is `t`,
      then read the type token of the next row. */
  method CloseRow(z: seq<ZfsProp>, t: string, a: array<char>, fields: array<nat>, typ: nat,
                  ghost s: string, w: nat, ghost rb: nat, ghost rb2: nat, ghost fs: seq<nat>)
    returns (lines: seq<Line>, typ2: nat, w2: nat)
    requires |z| > 0 && |s| > 0 && ListWellFormed(s, |z|)
    requires a.Length == |s| + 1 && fields.Length == |z|
    requires a[..] == Scanned(s, w)
    requires |fs| == |z| && fields[..] == fs
    requires rb2 == rb + |z| + 1 <= |Spans(s, 0)|
    requires Leftover(Words(s)[rb..], |z| + 1) == []
    requires Boundary(s, w) && RowAt(s, w, typ, fs, rb)
    requires Spans(s, w) == Spans(s, 0)[rb2..]
    modifies a
    ensures a[..] == Scanned(s, w2)
    ensures ListCursor(s, |z|, w2, rb2, typ2, [])
    ensures lines + ListRows(z, t, Rows(Words(s)[rb2..], |z| + 1))
      == ListRows(z, t, Rows(Words(s)[rb..], |z| + 1))
  {
    ListRowsStep(z, t, Words(s), rb, rb2);
    lines := EmitRow(z, t, a, fields, typ, s, w, rb, rb2);
    typ2, w2 := NextType(a, s, w, |z|, rb2);
  }

  /** Skip the separator and read the type token of the row that starts
      at token `rb`. */
  method NextType(a: array<char>, ghost s: string, w: nat, ghost n: nat, ghost rb: nat)
    returns (typ: nat, w2: nat)
    requires n > 0 && |s| > 0 && ListWellFormed(s, n)
    requires a.Length == |s| + 1 && a[..] == Scanned(s, w)
    requires rb <= |Spans(s, 0)| && Boundary(s, w)
    requires Leftover(Words(s)[rb..], n + 1) == []
    requires Spans(s, w) == Spans(s, 0)[rb..]
    modifies a
    ensures a[..] == Scanned(s, w2)
    ensures ListCursor(s, n, w2, rb, typ, [])
  {
    typ, w2 := TakeToken(a, s, w);
    RowStep(s, n, w, rb, typ, w2);
  }

  /** One iteration of the `zfs_list` loop: read the next field token;
      when it completes a row, print the row (if its type is `t`) and read
      the type token of the next row. */
  method ListStep(z: seq<ZfsProp>, t: string, a: array<char>, fields: array<nat>,
                  typ: nat, j: nat, w: nat, ghost s: string, ghost rb: nat, ghost fs: seq<nat>)
    returns (lines: seq<Line>, typ2: nat, j2: nat, w2: nat, ghost rb2: nat, ghost fs2: seq<nat>)
    requires |z| > 0 && |s| > 0 && ListWellFormed(s, |z|)
    requires a.Length == |s| + 1 && fields.Length == |z|
    requires a[..] == Scanned(s, w) && w <= |s|
    requires j == |fs| < |z| && fields[..j] == fs
    requires ListCursor(s, |z|, w, rb, typ, fs)
    modifies a, fields
    ensures a[..] == Scanned(s, w2) && w < w2
    ensures j2 == |fs2| < |z| && fields[..j2] == fs2
    ensures ListCursor(s, |z|, w2, rb2, typ2, fs2)
    ensures lines + ListRows(z, t, Rows(Words(s)[rb2..], |z| + 1))
      == ListRows(z, t, Rows(Words(s)[rb..], |z| + 1))
  {
    var st, w1 := TakeToken(a, s, w);
    ghost var next := rb + 2 + |fs|;
    FieldStep(s, |z|, w, rb, typ, fs, st, w1, next);
    j2 := StoreField(fields, j, st, fs);
    if j2 < |z| {
      FieldCursor(s, |z|, w, rb, typ, fs, st, w1, next);
      lines, typ2, w2, rb2, fs2 := [], typ, w1, rb, fs + [st];
      assert lines + ListRows(z, t, Rows(Words(s)[rb2..], |z| + 1))
        == ListRows(z, t, Rows(Words(s)[rb..], |z| + 1));
    } else {
      rb2 := next;
      lines, typ2, w2 := CloseRow(z, t, a, fields, typ, s, w1, rb, rb2, fs + [st]);
      j2, fs2 := 0, [];
    }
  }

  /** The tokenizing loop of `zfs_list` over the captured text `s`: the
      lines printed after the titles. */
  method ListScan(z: seq<ZfsProp>, t: string, s: string) returns (out: seq<Line>)
    requires |z| > 0 && |s| > 0
    requires ListWellFormed(s, |z|)
    ensures out == ListRows(z, t, Rows(Words(s), |z| + 1))
  {
    var n := |z|;
    var L := |s|;
    var a := NewBuffer(s);
    var fields := new nat[n];
    var typ: nat := 0;
    var j: nat := 0;
    ghost var rb: nat := 0;
    ghost var fs: seq<nat> := [];
    out := [];
    SpansHead(s, 0);
    var w := ScanToken(a, s, 0);
    FirstCursor(s, n);
    assert Words(s)[rb..] == Words(s);
    while w <= L
      invariant a.Length == L + 1 && fields.Length == n
      invariant a[..] == Scanned(s, w)
      invariant j == |fs| < n && fields[..j] == fs
      invariant ListCursor(s, n, w, rb, typ, fs)
      invariant out + ListRows(z, t, Rows(Words(s)[rb..], |z| + 1)) == ListRows(z, t, Rows(Words(s), |z| + 1))
      decreases L + 1 - w
    {
      var lines;
      ghost var rb2;
      lines, typ, j, w, rb2, fs := ListStep(z, t, a, fields, typ, j, w, s, rb, fs);
      AppendAssoc(out, lines, ListRows(z, t, Rows(Words(s)[rb2..], |z| + 1)));
      out := out + lines;
      rb := rb2;
    }
  }

  /** The source reads past its buffer on well-formed output. With one
      property and the output `fs1<TAB>a<LF>`, the only row is read and the
      whitespace after it is skipped up to the terminator. There the
      unbounded type scan starts, and it runs off the end of the buffer. */
  lemma ListReadsPastEnd()
    ensures var s := "fs1\ta\n";
      && ListWellFormed(s, 1)
      && Rows(Words(s), 2) == [["fs1", "a"]]
      && SpaceEnd(s, 6) == |s|
      && UnboundedScan(Scanned(s, |s|), |s|).None?
  {
    var s := "fs1\ta\n";
    assert SpaceEnd(s, 5) == 6;
    assert TokenEnd(s, 4) == 5;
    assert SpaceEnd(s, 3) == 4;
    assert TokenEnd(s, 0) == 3;
    assert SpaceEnd(s, 0) == 0;
    assert Spans(s, 5) == [];
    assert Spans(s, 3) == [(4, 5)];
    assert Spans(s, 0) == [(0, 3), (4, 5)];
    var toks := Words(s);
    assert |toks| == 2;
    assert toks[0] == s[0..3] == "fs1";
    assert toks[1] == s[4..5] == "a";
    assert toks == ["fs1", "a"];
    assert toks[2..] == [];
    assert Rows(toks[2..], 2) == [];
    assert toks[..2] == ["fs1", "a"];
    assert Rows(toks, 2) == [toks[..2]] + Rows(toks[2..], 2);
    assert Leftover(toks, 2) == Leftover(toks[2..], 2) == [];
    var b := Scanned(s, |s|);
    assert b[|s|] == NUL;
  }

  /** `zfs_list(z, t, |z|)`: print the titles, run the listing command
      and print the fields of every row of type `t`. */
  method ZfsList(z: seq<ZfsProp>, t: string, run: string -> Option<string>)
    returns (cmd: string, out: seq<Line>)
    requires |z| > 0
    requires ExecBuf(run(ListCommand(z))).Some? ==> ListWellFormed(ExecBuf(run(ListCommand(z))).value, |z|)
    ensures cmd == ListCommand(z)
    ensures out == ListOutput(z, t, run(cmd))
  {
    cmd := ListCommand(z);
    out := [];
    for i := 0 to |z|
      invariant out == Titles(z)[..i]
    {
      out := out + [Line(z[i].format, z[i].title)];
    }
    var res := ExecBuf(run(cmd));
    if res.Some? {
      var rows := ListScan(z, t, res.value);
      out := out + rows;
    }
  }
}
