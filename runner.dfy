/** The process runner `exec_buf`: run a command through `popen`, collect
    its standard output line by line with `fgets` and `sbuf_cat`, and
    report "no data" when nothing was collected. */
module Runner {
  import opened Strings

  /** `BUFSIZ` of FreeBSD's `<stdio.h>`: the size of `exec_buf`'s line buffer. */
  const BUFSIZ: nat := 1024

  /** Where the piece that `fgets(buf, BUFSIZ, fp)` reads ends, when the
      stream holds `out` and the piece started at the beginning of `out`
      and has already taken `out[..i]`: it stops after a newline, at the
      end of the stream, or when `BUFSIZ - 1` characters have been read. */
  function LineEnd(out: string, i: nat): (k: nat)
    requires i < |out|
    ensures i < k <= |out|
    ensures i < BUFSIZ - 1 ==> k <= BUFSIZ - 1
    ensures forall p :: i <= p < k - 1 ==> out[p] != '\n'
    ensures k == |out| || out[k - 1] == '\n' || k >= BUFSIZ - 1
    decreases |out| - i
  {
    if out[i] == '\n' || i + 1 == |out| || i + 1 >= BUFSIZ - 1 then i + 1
    else LineEnd(out, i + 1)
  }

  /** What the `fgets`/`sbuf_cat` loop collects from `out`: every piece
      `fgets` reads, cut at its first NUL, because `sbuf_cat` copies a C
      string. */
  function Collected(out: string): (r: string)
    ensures NoNul(r)
    ensures |r| <= |out|
    decreases |out|
  {
    if out == [] then []
    else
      var k := LineEnd(out, 0);
      CStr(out[..k], 0) + Collected(out[k..])
  }

  /** A NUL-free output is collected whole, whatever its line lengths. */
  lemma {:induction false} CollectedWhole(out: string)
    ensures NoNul(out) ==> Collected(out) == out
    decreases |out|
  {
    if out != [] && NoNul(out) {
      var k := LineEnd(out, 0);
      assert NoNul(out[..k]);
      assert CStr(out[..k], 0) == out[..k];
      assert NoNul(out[k..]);
      CollectedWhole(out[k..]);
      assert out == out[..k] + out[k..];
    }
  }

  /** `exec_buf(cmd)` given what `popen(cmd)` produced: None when the
      command could not be started or nothing was collected, otherwise the
      collected text. A NUL-free output comes back unchanged. */
  function ExecBuf(captured: Option<string>): (r: Option<string>)
    ensures captured.None? ==> r.None?
    ensures r.Some? ==> NoNul(r.value) && 0 < |r.value| <= |captured.value|
    ensures captured.Some? && NoNul(captured.value) ==>
      (r.Some? <==> captured.value != []) && (r.Some? ==> r.value == captured.value)
  {
    match captured
    case None => None
    case Some(out) =>
      CollectedWhole(out);
      var c := Collected(out);
      if |c| == 0 then None else Some(c)
  }

  /** A failed start and an empty output cannot be told apart. */
  lemma NoDataIsAmbiguous()
    ensures ExecBuf(None) == ExecBuf(Some(""))
  {
  }

  /** A NUL loses the rest of its line, the newline included: a line that
      starts with a NUL contributes nothing, and the next line follows the
      text before the NUL directly. */
  lemma NulCutsLine()
    ensures ExecBuf(Some("\0\n")) == None
    ensures ExecBuf(Some("ab\0c\nd\n")) == Some("abd\n")
  {
    var s := "\0\n";
    assert LineEnd(s, 1) == 2;
    assert LineEnd(s, 0) == 2;
    assert CStr(s[..2], 0) == [];
    assert Collected(s) == [];
    var t := "ab\0c\nd\n";
    assert LineEnd(t, 4) == 5;
    assert LineEnd(t, 0) == 5;
    assert t[..5] == "ab\0c\n";
    assert CStr(t[..5], 2) == [];
    assert CStr(t[..5], 0) == "ab";
    var u := t[5..];
    assert u == "d\n";
    assert LineEnd(u, 1) == 2;
    assert LineEnd(u, 0) == 2;
    assert u[..2] == u;
    assert CStr(u, 2) == [];
    assert CStr(u, 0) == "d\n";
    assert u[2..] == [];
    assert Collected(u) == "d\n";
    assert Collected(t) == "abd\n";
  }
}
