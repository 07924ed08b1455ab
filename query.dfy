/** `zfs_query`: look up the dataset of a given type and name in the
    tabular `zfs list -H` output and decode its requested properties into
    the caller's field records. */
module Query {
  import opened Strings
  import opened Tokens
  import opened Runner
  import opened Numbers
  import opened Zfs

  datatype FieldKind = STRING | INTEGER

  /** One requested property: its `zfs` name, how to decode it, the size of
      the caller's string buffer, and the two result slots. */
  datatype QueryField = QueryField(name: string, kind: FieldKind, strsize: nat, strval: string, intval: int)

  function Names(z: seq<QueryField>): (r: seq<string>)
    ensures |r| == |z|
    ensures forall i :: 0 <= i < |z| ==> r[i] == z[i].name
  {
    seq(|z|, i requires 0 <= i < |z| => z[i].name)
  }

  // ---------------------------------------------------------------------
  // Field decoding

  /** The C string left in a buffer of `size` bytes holding `dst` after
      `strlcpy(buf, src, size)`: nothing is written when `size` is 0,
      otherwise `src` truncated to `size - 1` characters. */
  function Strlcpy(dst: string, src: string, size: nat): (r: string)
    ensures size == 0 ==> r == dst
    ensures size > 0 ==> |r| < size && |r| <= |src| && r == src[..|r|]
    ensures size > 0 && |src| < size ==> r == src
    ensures size > 0 && |src| >= size ==> |r| == size - 1
  {
    if size == 0 then dst
    else if |src| < size then src
    else src[..size - 1]
  }

  /** Decoding one field token into its record. */
  function Decode(f: QueryField, tok: string): (r: QueryField)
    ensures r.name == f.name && r.kind == f.kind && r.strsize == f.strsize
    ensures r.kind == STRING ==> r.intval == f.intval && r.strval == Strlcpy(f.strval, tok, f.strsize)
    ensures r.kind == INTEGER ==> r.strval == f.strval && 0 <= r.intval <= INT_MAX
  {
    match f.kind
    case STRING => f.(strval := Strlcpy(f.strval, tok, f.strsize))
    case INTEGER => f.(intval := if tok == "-" then 0 else StrToNum(tok))
  }

  /** An INTEGER field decodes `-` as 0 and every value in range from its
      decimal text. */
  lemma DecodeInteger(f: QueryField, k: nat)
    requires f.kind == INTEGER
    ensures Decode(f, "-").intval == 0
    ensures k <= INT_MAX ==> Decode(f, Decimal(k)).intval == k
    ensures k > INT_MAX ==> Decode(f, Decimal(k)).intval == 0
  {
    var d := Decimal(k);
    if k <= INT_MAX {
      StrToNumDecimal(k);
    } else {
      StrToNumTooLarge(k);
    }
    assert IsDigit(d[0]);
  }

  /** Decoding every field of the matched row. */
  function DecodeAll(z: seq<QueryField>, vals: seq<string>): (r: seq<QueryField>)
    requires |vals| == |z|
    ensures |r| == |z|
    ensures forall i :: 0 <= i < |z| ==> r[i] == Decode(z[i], vals[i])
  {
    seq(|z|, i requires 0 <= i < |z| => Decode(z[i], vals[i]))
  }

  // ---------------------------------------------------------------------
  // The lookup

  predicate Matches(row: seq<string>, t: string, nm: string)
    requires |row| >= 2
  {
    row[0] == t && row[1] == nm
  }

  /** What `zfs_query` finds in a sequence of rows of `type`, `name` and
      the requested fields: the fields of the first row of type `t` and
      name `nm`. */
  function QueryRows(rows: seq<seq<string>>, t: string, nm: string): Option<seq<string>>
    requires forall k :: 0 <= k < |rows| ==> |rows[k]| >= 2
  {
    if rows == [] then None
    else if Matches(rows[0], t, nm) then Some(rows[0][2..])
    else QueryRows(rows[1..], t, nm)
  }

  /** The lookup finds something exactly when some row matches, and then
      it is the fields of the first matching row. */
  lemma {:induction false} QueryRowsFirst(rows: seq<seq<string>>, t: string, nm: string)
    requires forall k :: 0 <= k < |rows| ==> |rows[k]| >= 2
    ensures QueryRows(rows, t, nm).None? <==> forall k :: 0 <= k < |rows| ==> !Matches(rows[k], t, nm)
    ensures QueryRows(rows, t, nm).Some? ==>
      exists k :: 0 <= k < |rows| && Matches(rows[k], t, nm)
        && (forall q :: 0 <= q < k ==> !Matches(rows[q], t, nm))
        && QueryRows(rows, t, nm).value == rows[k][2..]
    decreases |rows|
  {
    if rows != [] && !Matches(rows[0], t, nm) {
      var rest := rows[1..];
      QueryRowsFirst(rest, t, nm);
      if QueryRows(rest, t, nm).Some? {
        var k :| 0 <= k < |rest| && Matches(rest[k], t, nm)
          && (forall q :: 0 <= q < k ==> !Matches(rest[q], t, nm))
          && QueryRows(rest, t, nm).value == rest[k][2..];
        assert rows[k + 1] == rest[k];
        forall q | 0 <= q < k + 1
          ensures !Matches(rows[q], t, nm)
        {
          if q > 0 {
            assert rows[q] == rest[q - 1];
          }
        }
      } else {
        forall k | 0 <= k < |rows|
          ensures !Matches(rows[k], t, nm)
        {
          if k > 0 {
            assert rows[k] == rest[k - 1];
          }
        }
      }
    } else if rows != [] {
      assert Matches(rows[0], t, nm);
    }
  }

  /** Rows after the first match are never looked at. */
  lemma {:induction false} QueryRowsStops(r1: seq<seq<string>>, r2: seq<seq<string>>, t: string, nm: string)
    requires forall k :: 0 <= k < |r1| ==> |r1[k]| >= 2
    requires forall k :: 0 <= k < |r2| ==> |r2[k]| >= 2
    ensures QueryRows(r1 + r2, t, nm) == if QueryRows(r1, t, nm).Some? then QueryRows(r1, t, nm) else QueryRows(r2, t, nm)
    decreases |r1|
  {
    if r1 == [] {
      assert r1 + r2 == r2;
    } else {
      assert (r1 + r2)[0] == r1[0];
      assert (r1 + r2)[1..] == r1[1..] + r2;
      QueryRowsStops(r1[1..], r2, t, nm);
    }
  }

  /** Between two rows of the output there is exactly one separator, and
      the last row is followed by exactly one: `zfs_query` reads the type
      token of a row without skipping whitespace. */
  predicate RowsSeparated(s: string, sp: seq<(nat, nat)>, R: nat)
    requires R > 0
    decreases |sp|
  {
    if |sp| < R then true
    else
      && (if |sp| == R then sp[R - 1].1 + 1 == |s| else sp[R].0 == sp[R - 1].1 + 1)
      && RowsSeparated(s, sp[R..], R)
  }

  /** The well-formed output `zfs_query` parses. */
  predicate QueryWellFormed(s: string, nfields: nat)
  {
    ListWellFormed(s, nfields + 1) && RowsSeparated(s, Spans(s, 0), nfields + 2)
  }

  /** What `zfs_query` finds, given what its command produced. */
  function QueryOutcome(captured: Option<string>, t: string, nm: string, nfields: nat): (r: Option<seq<string>>)
    ensures r.Some? ==> |r.value| == nfields
  {
    match ExecBuf(captured)
    case None => None
    case Some(s) =>
      var rows := Rows(Words(s), nfields + 2);
      QueryRowsLength(rows, t, nm, nfields + 2);
      QueryRows(rows, t, nm)
  }

  lemma {:induction false} QueryRowsLength(rows: seq<seq<string>>, t: string, nm: string, R: nat)
    requires R >= 2 && forall k :: 0 <= k < |rows| ==> |rows[k]| == R
    ensures QueryRows(rows, t, nm).Some? ==> |QueryRows(rows, t, nm).value| == R - 2
    decreases |rows|
  {
    if rows != [] && !Matches(rows[0], t, nm) {
      QueryRowsLength(rows[1..], t, nm, R);
    }
  }

  /** One row of a table, and what the lookup makes of it. */
  lemma QueryRowsStep(toks: seq<string>, t: string, nm: string, R: nat, rb: nat, rb2: nat)
    requires R >= 2 && rb2 == rb + R <= |toks|
    ensures QueryRows(Rows(toks[rb..], R), t, nm) ==
      if toks[rb] == t && toks[rb + 1] == nm then Some(toks[rb + 2..rb2])
      else QueryRows(Rows(toks[rb2..], R), t, nm)
  {
    RowsUnfold(toks, rb, R);
    var rows := Rows(toks[rb..], R);
    assert rows[0] == toks[rb..rb2];
    assert rows[1..] == Rows(toks[rb2..], R);
    assert rows[0][2..] == toks[rb + 2..rb2];
  }

  lemma LeftoverStep(toks: seq<string>, R: nat, rb: nat, rb2: nat)
    requires R > 0 && rb2 == rb + R <= |toks|
    ensures Leftover(toks[rb..], R) == Leftover(toks[rb2..], R)
  {
    RowsUnfold(toks, rb, R);
  }

  /** Past a complete row, the next one starts right after its single
      separator. */
  lemma SeparatedStep(s: string, R: nat, rb: nat, rb2: nat, w: nat)
    requires R > 0 && rb2 == rb + R <= |Spans(s, 0)|
    requires RowsSeparated(s, Spans(s, 0)[rb..], R)
    requires Spans(s, 0)[rb2 - 1].1 + 1 == w
    ensures RowsSeparated(s, Spans(s, 0)[rb2..], R)
    ensures w <= |s| && (w == |s| || !IsSpace(s[w]))
  {
    var sp := Spans(s, 0);
    var tail := sp[rb..];
    assert tail[R - 1] == sp[rb2 - 1];
    assert tail[R..] == sp[rb2..];
    if rb2 < |sp| {
      assert tail[R] == sp[rb2];
      SpansAreTokens(s, 0, rb2);
    }
  }

  /** The row slots of `zfs_query`: `name` once it has been read, then the
      first `j` field positions in `fields`. */
  ghost predicate Slots(fv: seq<nat>, named: bool, name: nat, j: nat, fs: seq<nat>)
  {
    j <= |fv| &&
    if named then |fs| == j + 1 && fs[0] == name && fs[1..] == fv[..j]
    else j == 0 && fs == []
  }

  /** `if (name == NULL) name = walk; else fields[j++] = walk;` */
  method StoreSlot(fields: array<nat>, named: bool, name: nat, j: nat, st: nat, ghost fs: seq<nat>)
    returns (named2: bool, name2: nat, j2: nat)
    requires Slots(fields[..], named, name, j, fs)
    requires named ==> j < fields.Length
    modifies fields
    ensures named2 && Slots(fields[..], named2, name2, j2, fs + [st])
    ensures j2 == fields.Length ==> fields[..] == (fs + [st])[1..]
  {
    if !named {
      named2, name2, j2 := true, st, j;
      assert (fs + [st])[1..] == [];
    } else {
      fields[j] := st;
      named2, name2, j2 := named, name, j + 1;
      assert (fs + [st])[1..] == fs[1..] + [st];
      assert fields[..j2] == fields[..j] + [st];
    }
  }

  /** Read the field texts of the matched row through their pointers. */
  method ReadFields(a: array<char>, fields: array<nat>, ghost s: string, ghost buf: seq<char>,
                    ghost fv: seq<nat>, ghost row: seq<string>) returns (vals: seq<string>)
    requires a[..] == buf && |buf| == |s| + 1 && fields[..] == fv && |row| == |fv|
    requires forall i :: 0 <= i < |fv| ==> fv[i] <= |s| && CStr(buf, fv[i]) == row[i]
    ensures vals == row
  {
    vals := [];
    for i := 0 to fields.Length
      invariant |vals| == i
      invariant forall k :: 0 <= k < i ==> vals[k] == row[k]
    {
      assert fields[i] == fv[i];
      vals := vals + [CStr(a[..], fields[i])];
    }
  }

  /** `strcmp(type, t) == 0 && strcmp(name, n) == 0` on the row at `rb`. */
  method MatchRow(t: string, nm: string, a: array<char>, typ: nat, name: nat,
                  ghost s: string, ghost w: nat, ghost fs: seq<nat>, ghost rb: nat) returns (m: bool)
    requires NoNul(s) && |s| > 0 && IsSpace(s[|s| - 1])
    requires a.Length == |s| + 1 && a[..] == Scanned(s, w)
    requires RowAt(s, w, typ, fs, rb) && |fs| > 0 && fs[0] == name
    ensures rb + 1 < |Words(s)|
    ensures m == (Words(s)[rb] == t && Words(s)[rb + 1] == nm)
  {
    m := TypeMatches(t, a, typ, s, w, fs, rb);
    FieldRead(s, w, typ, fs, rb, 0);
    m := m && CStr(a[..], name) == nm;
  }

  /** The field texts of the complete row at token `rb`. */
  method RowFields(a: array<char>, fields: array<nat>, ghost s: string, ghost w: nat, ghost typ: nat,
                   ghost fs: seq<nat>, ghost rb: nat, ghost rb2: nat) returns (vals: seq<string>)
    requires NoNul(s) && |s| > 0 && IsSpace(s[|s| - 1])
    requires a.Length == |s| + 1 && a[..] == Scanned(s, w)
    requires RowAt(s, w, typ, fs, rb) && |fs| > 0 && fields[..] == fs[1..]
    requires rb2 == rb + 1 + |fs|
    ensures rb2 <= |Words(s)| && vals == Words(s)[rb + 2..rb2]
  {
    ghost var row := Words(s)[rb + 2..rb2];
    RowReads(s, w, typ, fs, rb, 1, fields[..], rb + 2, rb2, row);
    vals := ReadFields(a, fields, s, Scanned(s, w), fields[..], row);
  }

  /** The end of a complete row: when its type and name match, read its
      fields and stop; otherwise read the type token of the next row,
      which starts right at `w`. The row has the type token and `n`
      further tokens, `n` being one more than the number of fields. */
  method CloseQueryRow(t: string, nm: string, a: array<char>, fields: array<nat>, nf: nat, typ: nat, name: nat,
                       ghost s: string, w: nat, ghost n: nat, ghost rb: nat, ghost rb2: nat, ghost fs: seq<nat>,
                       ghost target: Option<seq<string>>)
    returns (hit: Option<seq<string>>, typ2: nat, w2: nat)
    requires n == nf + 1 && fields.Length == nf
    requires |s| > 0 && ListWellFormed(s, n)
    requires a.Length == |s| + 1 && a[..] == Scanned(s, w)
    requires |fs| == n && fs[0] == name && fields[..] == fs[1..]
    requires rb2 == rb + n + 1 <= |Spans(s, 0)|
    requires Leftover(Words(s)[rb..], n + 1) == []
    requires RowsSeparated(s, Spans(s, 0)[rb..], n + 1)
    requires Boundary(s, w) && RowAt(s, w, typ, fs, rb)
    requires Spans(s, w) == Spans(s, 0)[rb2..]
    requires Spans(s, 0)[rb2 - 1].1 + 1 == w
    requires QueryRows(Rows(Words(s)[rb..], n + 1), t, nm) == target
    modifies a
    ensures hit.Some? ==> hit == target
    ensures a[..] == Scanned(s, w2) && w <= w2
    ensures hit.None? ==>
      && ListCursor(s, n, w2, rb2, typ2, [])
      && RowsSeparated(s, Spans(s, 0)[rb2..], n + 1)
      && QueryRows(Rows(Words(s)[rb2..], n + 1), t, nm) == target
  {
    QueryRowsStep(Words(s), t, nm, n + 1, rb, rb2);
    var m := MatchRow(t, nm, a, typ, name, s, w, fs, rb);
    if m {
      var vals := RowFields(a, fields, s, w, typ, fs, rb, rb2);
      return Some(vals), typ, w;
    }
    hit := None;
    typ2, w2 := NextRow(a, s, w, n, rb, rb2);
  }

  /** `type = walk;` and the walk over the type token of the next row. */
  method NextRow(a: array<char>, ghost s: string, w: nat, ghost n: nat, ghost rb: nat, ghost rb2: nat)
    returns (typ2: nat, w2: nat)
    requires n > 0 && |s| > 0 && ListWellFormed(s, n)
    requires a.Length == |s| + 1 && a[..] == Scanned(s, w)
    requires rb2 == rb + n + 1 <= |Spans(s, 0)|
    requires Leftover(Words(s)[rb..], n + 1) == []
    requires RowsSeparated(s, Spans(s, 0)[rb..], n + 1)
    requires Boundary(s, w)
    requires Spans(s, w) == Spans(s, 0)[rb2..]
    requires Spans(s, 0)[rb2 - 1].1 + 1 == w
    modifies a
    ensures a[..] == Scanned(s, w2)
    ensures ListCursor(s, n, w2, rb2, typ2, [])
    ensures RowsSeparated(s, Spans(s, 0)[rb2..], n + 1)
  {
    SeparatedStep(s, n + 1, rb, rb2, w);
    LeftoverStep(Words(s), n + 1, rb, rb2);
    w2 := TakeTokenHere(a, s, w);
    typ2 := w;
    assert Leftover(Words(s)[rb2..], n + 1) == [];
    assert Spans(s, w) == Spans(s, 0)[rb2..];
    assert Took(s, w, typ2, w2);
    RowStep(s, n, w, rb2, typ2, w2);
  }

  /** Read the next token of the current row into its slot. */
  method ReadSlot(a: array<char>, fields: array<nat>, nf: nat, named: bool, name: nat, j: nat, w: nat,
                  ghost s: string, ghost n: nat, ghost rb: nat, ghost typ: nat, ghost fs: seq<nat>, ghost next: nat)
    returns (st: nat, w1: nat, named2: bool, name2: nat, j2: nat)
    requires n == nf + 1 && fields.Length == nf
    requires |s| > 0 && ListWellFormed(s, n)
    requires a.Length == |s| + 1 && a[..] == Scanned(s, w) && w <= |s|
    requires Slots(fields[..], named, name, j, fs)
    requires ListCursor(s, n, w, rb, typ, fs)
    requires next == rb + 2 + |fs|
    modifies a, fields
    ensures a[..] == Scanned(s, w1) && w < w1 <= |s| && Boundary(s, w1)
    ensures RowAt(s, w1, typ, fs + [st], rb)
    ensures Spans(s, w1) == Spans(s, 0)[next..]
    ensures Spans(s, 0)[next - 1].1 + 1 == w1
    ensures named2 && Slots(fields[..], named2, name2, j2, fs + [st])
    ensures j2 <= nf
    ensures j2 == nf ==> fields[..] == (fs + [st])[1..] && |fs + [st]| == n && (fs + [st])[0] == name2
    ensures j2 == nf ==> next == rb + n + 1 <= |Spans(s, 0)|
  {
    st, w1 := TakeToken(a, s, w);
    FieldStep(s, n, w, rb, typ, fs, st, w1, next);
    named2, name2, j2 := StoreSlot(fields, named, name, j, st, fs);
  }

  /** The cursor after a token that does not complete the row. */
  lemma KeepCursor(s: string, n: nat, nf: nat, w: nat, rb: nat, typ: nat, fs: seq<nat>, st: nat, w1: nat, next: nat,
                   fv: seq<nat>, name2: nat, j2: nat, t: string, nm: string, target: Option<seq<string>>)
    requires n == nf + 1 && |fv| == nf
    requires ListCursor(s, n, w, rb, typ, fs) && w <= |s|
    requires w < w1 <= |s| && Boundary(s, w1)
    requires RowAt(s, w1, typ, fs + [st], rb)
    requires next == rb + 2 + |fs|
    requires Spans(s, w1) == Spans(s, 0)[next..]
    requires Slots(fv, true, name2, j2, fs + [st]) && j2 < nf
    requires RowsSeparated(s, Spans(s, 0)[rb..], n + 1)
    requires QueryRows(Rows(Words(s)[rb..], n + 1), t, nm) == target
    ensures Slots(fv, true, name2, j2, fs + [st])
    ensures ListCursor(s, n, w1, rb, typ, fs + [st])
    ensures RowsSeparated(s, Spans(s, 0)[rb..], n + 1)
    ensures QueryRows(Rows(Words(s)[rb..], n + 1), t, nm) == target
  {
    FieldCursor(s, n, w, rb, typ, fs, st, w1, next);
  }

  /** One iteration of the `zfs_query` loop: read the next name or field
      token; when it completes a row, compare the row with `t` and `nm`. */
  method QueryStep(t: string, nm: string, a: array<char>, fields: array<nat>, nf: nat,
                   typ: nat, named: bool, name: nat, j: nat, w: nat,
                   ghost s: string, ghost n: nat, ghost rb: nat, ghost fs: seq<nat>,
                   ghost target: Option<seq<string>>)
    returns (hit: Option<seq<string>>, typ2: nat, named2: bool, name2: nat, j2: nat, w2: nat,
             ghost rb2: nat, ghost fs2: seq<nat>)
    requires n == nf + 1 && fields.Length == nf
    requires |s| > 0 && ListWellFormed(s, n)
    requires a.Length == |s| + 1 && a[..] == Scanned(s, w) && w <= |s|
    requires Slots(fields[..], named, name, j, fs)
    requires ListCursor(s, n, w, rb, typ, fs)
    requires RowsSeparated(s, Spans(s, 0)[rb..], n + 1)
    requires QueryRows(Rows(Words(s)[rb..], n + 1), t, nm) == target
    modifies a, fields
    ensures hit.Some? ==> hit == target
    ensures a[..] == Scanned(s, w2) && w < w2
    ensures Slots(fields[..], named2, name2, j2, fs2)
    ensures hit.None? ==>
      && ListCursor(s, n, w2, rb2, typ2, fs2)
      && RowsSeparated(s, Spans(s, 0)[rb2..], n + 1)
      && QueryRows(Rows(Words(s)[rb2..], n + 1), t, nm) == target
  {
    ghost var next := rb + 2 + |fs|;
    var st, w1;
    st, w1, named2, name2, j2 := ReadSlot(a, fields, nf, named, name, j, w, s, n, rb, typ, fs, next);
    if j2 < nf {
      KeepCursor(s, n, nf, w, rb, typ, fs, st, w1, next, fields[..], name2, j2, t, nm, target);
      hit, typ2, w2, rb2, fs2 := None, typ, w1, rb, fs + [st];
    } else {
      rb2 := next;
      hit, typ2, w2 := CloseQueryRow(t, nm, a, fields, nf, typ, name2, s, w1, n, rb, rb2, fs + [st], target);
      named2, j2, fs2 := false, 0, [];
    }
  }

  /** Once the buffer is consumed, no row is left to look at. */
  lemma ScanDone(s: string, n: nat, w: nat, rb: nat, typ: nat, fs: seq<nat>, t: string, nm: string)
    requires ListCursor(s, n, w, rb, typ, fs) && w > |s|
    ensures QueryRows(Rows(Words(s)[rb..], n + 1), t, nm) == None
  {
    assert Words(s)[rb..] == [];
  }

  /** The tokenizing loop of `zfs_query` over the captured text `s`: the
      field texts of the first row of type `t` and name `nm`. */
  method QueryScan(t: string, nm: string, s: string, nfields: nat) returns (hit: Option<seq<string>>)
    requires |s| > 0 && QueryWellFormed(s, nfields)
    ensures hit == QueryRows(Rows(Words(s), nfields + 2), t, nm)
  {
    var L := |s|;
    ghost var n := nfields + 1;
    var a := NewBuffer(s);
    var fields := new nat[nfields];
    var typ: nat := 0;
    var named := false;
    var name: nat := 0;
    var j: nat := 0;
    ghost var rb: nat := 0;
    ghost var fs: seq<nat> := [];
    SpansHead(s, 0);
    var w := ScanToken(a, s, 0);
    FirstCursor(s, n);
    assert Words(s)[rb..] == Words(s);
    assert Spans(s, 0)[rb..] == Spans(s, 0);
    hit := None;
    ghost var target := QueryRows(Rows(Words(s), n + 1), t, nm);
    while w <= L
      invariant a.Length == L + 1 && fields.Length == nfields
      invariant a[..] == Scanned(s, w)
      invariant hit.None?
      invariant Slots(fields[..], named, name, j, fs)
      invariant ListCursor(s, n, w, rb, typ, fs)
      invariant RowsSeparated(s, Spans(s, 0)[rb..], n + 1)
      invariant QueryRows(Rows(Words(s)[rb..], n + 1), t, nm) == target
      decreases L + 1 - w
    {
      ghost var rb2;
      hit, typ, named, name, j, w, rb2, fs := QueryStep(t, nm, a, fields, nfields, typ, named, name, j, w, s, n, rb, fs, target);
      if hit.Some? {
        return;
      }
      rb := rb2;
    }
    ScanDone(s, n, w, rb, typ, fs, t, nm);
  }

  /** `zfs_query(t, nm, z, |z|)`: run the listing command for the fields of
      `z`; when a row of type `t` and name `nm` exists, decode its fields
      into `z` and return 1, otherwise leave `z` alone and return 0. */
  method ZfsQuery(t: string, nm: string, z: array<QueryField>, run: string -> Option<string>)
    returns (cmd: string, ret: int)
    requires ExecBuf(run(QueryCommand(Names(z[..])))).Some? ==>
      QueryWellFormed(ExecBuf(run(QueryCommand(Names(z[..])))).value, z.Length)
    modifies z
    ensures cmd == QueryCommand(Names(old(z[..])))
    ensures ret == 0 || ret == 1
    ensures ret == 1 <==> QueryOutcome(run(cmd), t, nm, z.Length).Some?
    ensures QueryOutcome(run(cmd), t, nm, z.Length).None? ==> z[..] == old(z[..])
    ensures QueryOutcome(run(cmd), t, nm, z.Length).Some? ==>
      z[..] == DecodeAll(old(z[..]), QueryOutcome(run(cmd), t, nm, z.Length).value)
  {
    cmd := QueryCommand(Names(z[..]));
    ret := 0;
    var res := ExecBuf(run(cmd));
    if res.None? {
      return;
    }
    var hit := QueryScan(t, nm, res.value, z.Length);
    assert hit == QueryOutcome(run(cmd), t, nm, z.Length);
    if hit.None? {
      return;
    }
    var vals := hit.value;
    for i := 0 to z.Length
      invariant forall k :: 0 <= k < i ==> z[k] == Decode(old(z[k]), vals[k])
      invariant forall k :: i <= k < z.Length ==> z[k] == old(z[k])
    {
      z[i] := Decode(z[i], vals[i]);
    }
    ret := 1;
  }
}
