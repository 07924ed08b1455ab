/** The tabular format of `zfs list -H` as the property-store parsers read
    it: tokens are maximal runs of non-whitespace characters, and rows are
    consecutive groups of a fixed number of tokens. */
module Tokens {
  import opened Strings

  /** End of the whitespace run starting at `i`. */
  function SpaceEnd(s: string, i: nat): (r: nat)
    requires i <= |s|
    ensures i <= r <= |s|
    ensures forall p :: i <= p < r ==> IsSpace(s[p])
    ensures r == |s| || !IsSpace(s[r])
    decreases |s| - i
  {
    if i < |s| && IsSpace(s[i]) then SpaceEnd(s, i + 1) else i
  }

  /** End of the non-whitespace run starting at `i`. */
  function TokenEnd(s: string, i: nat): (r: nat)
    requires i <= |s|
    ensures i <= r <= |s|
    ensures forall p :: i <= p < r ==> !IsSpace(s[p])
    ensures r == |s| || IsSpace(s[r])
    decreases |s| - i
  {
    if i < |s| && !IsSpace(s[i]) then TokenEnd(s, i + 1) else i
  }

  /** A token of `s`: a non-empty run of non-whitespace characters that
      cannot be extended on either side. */
  predicate IsToken(s: string, st: nat, en: nat)
  {
    && st < en <= |s|
    && (forall p :: st <= p < en ==> !IsSpace(s[p]))
    && (en == |s| || IsSpace(s[en]))
    && (st == 0 || IsSpace(s[st - 1]))
  }

  /** The positions `[start, end)` of the tokens of `s` from `i` on. */
  function Spans(s: string, i: nat): (r: seq<(nat, nat)>)
    requires i <= |s|
    requires i == 0 || i == |s| || IsSpace(s[i - 1]) || IsSpace(s[i])
    ensures forall k :: 0 <= k < |r| ==> i <= r[k].0 < r[k].1 <= |s|
    decreases |s| - i
  {
    var b := SpaceEnd(s, i);
    if b == |s| then []
    else
      var e := TokenEnd(s, b);
      [(b, e)] + Spans(s, e)
  }

  /** Every span is a token, and spans come in text order. */
  lemma {:induction false} SpansAreTokens(s: string, i: nat, k: nat)
    requires i <= |s|
    requires i == 0 || i == |s| || IsSpace(s[i - 1]) || IsSpace(s[i])
    requires k < |Spans(s, i)|
    ensures IsToken(s, Spans(s, i)[k].0, Spans(s, i)[k].1)
    ensures k + 1 < |Spans(s, i)| ==> Spans(s, i)[k].1 < Spans(s, i)[k + 1].0
    decreases |s| - i
  {
    var b := SpaceEnd(s, i);
    var e := TokenEnd(s, b);
    if k > 0 {
      SpansAreTokens(s, e, k - 1);
    }
  }

  /** Every non-whitespace character of `s` from `i` on lies inside a span. */
  lemma {:induction false} SpanOf(s: string, i: nat, p: nat)
    requires i <= p < |s| && !IsSpace(s[p])
    requires i == 0 || IsSpace(s[i - 1]) || IsSpace(s[i])
    ensures exists k :: 0 <= k < |Spans(s, i)| && Spans(s, i)[k].0 <= p < Spans(s, i)[k].1
    decreases |s| - i
  {
    var sp := Spans(s, i);
    var b := SpaceEnd(s, i);
    var e := TokenEnd(s, b);
    assert sp[0] == (b, e);
    if e <= p {
      var rest := Spans(s, e);
      assert sp[1..] == rest;
      SpanOf(s, e, p);
      var k :| 0 <= k < |rest| && rest[k].0 <= p < rest[k].1;
      assert sp[k + 1] == rest[k];
    }
  }

  /** Spans are exactly the tokens: a character of `s` lies inside some span
      if and only if it is not whitespace. */
  lemma SpansCover(s: string, p: nat)
    requires p < |s|
    ensures !IsSpace(s[p]) <==>
      exists k :: 0 <= k < |Spans(s, 0)| && Spans(s, 0)[k].0 <= p < Spans(s, 0)[k].1
  {
    if !IsSpace(s[p]) {
      SpanOf(s, 0, p);
    } else {
      forall k | 0 <= k < |Spans(s, 0)|
        ensures !(Spans(s, 0)[k].0 <= p < Spans(s, 0)[k].1)
      {
        SpansAreTokens(s, 0, k);
      }
    }
  }

  /** Past the end of a token, a whitespace character is skipped. */
  lemma SpansAfterSpace(s: string, e: nat)
    requires e < |s| && IsSpace(s[e])
    ensures Spans(s, e + 1) == Spans(s, e)
  {
  }

  /** The token texts of `s`. */
  function Words(s: string): (r: seq<string>)
    ensures |r| == |Spans(s, 0)|
    ensures forall k :: 0 <= k < |r| ==> r[k] == s[Spans(s, 0)[k].0..Spans(s, 0)[k].1]
  {
    var sp := Spans(s, 0);
    seq(|sp|, k requires 0 <= k < |sp| => s[sp[k].0..sp[k].1])
  }

  /** Where the next token starts and ends, seen from a token boundary. */
  lemma SpansHead(s: string, w: nat)
    requires w <= |s|
    requires w == 0 || w == |s| || IsSpace(s[w - 1]) || IsSpace(s[w])
    ensures SpaceEnd(s, w) == |s| <==> Spans(s, w) == []
    ensures SpaceEnd(s, w) < |s| ==>
      && Spans(s, w)[0] == (SpaceEnd(s, w), TokenEnd(s, SpaceEnd(s, w)))
      && Spans(s, w)[1..] == Spans(s, TokenEnd(s, SpaceEnd(s, w)))
  {
  }

  /** The inner `while (isspace(*walk)) { *walk = '\0'; walk++; }` loop:
      overwrite the whitespace run at `w` with NULs. */
  method SkipSpaces(a: array<char>, ghost s: string, w: nat) returns (r: nat)
    requires a.Length == |s| + 1 && w <= |s|
    requires a[..] == Scanned(s, w)
    modifies a
    ensures r == SpaceEnd(s, w)
    ensures a[..] == Scanned(s, r)
  {
    r := w;
    while IsSpace(a[r])
      invariant w <= r <= |s|
      invariant SpaceEnd(s, r) == SpaceEnd(s, w)
      invariant a[..] == Scanned(s, r)
      decreases |s| - r
    {
      ScannedStep(s, r);
      a[r] := NUL;
      r := r + 1;
    }
  }

  /** The inner `while (!isspace(*walk)) walk++;` loop: walk to the end of
      the token at `w`. The source's loop has no bound (see `UnboundedScan`):
      started on the terminator after the final row it walks past the
      buffer. This one stops at the terminator, which is what the loop
      evidently means to do. */
  method ScanToken(a: array<char>, ghost s: string, w: nat) returns (r: nat)
    requires a.Length == |s| + 1 && w <= |s|
    requires a[..] == Scanned(s, w)
    ensures r == TokenEnd(s, w)
    ensures a[..] == Scanned(s, r)
  {
    r := w;
    while r < a.Length - 1 && !IsSpace(a[r])
      invariant w <= r <= |s|
      invariant TokenEnd(s, r) == TokenEnd(s, w)
      invariant forall p :: w <= p < r ==> !IsSpace(s[p])
      decreases |s| - r
    {
      r := r + 1;
    }
    ScannedSkip(s, w, r);
  }

  /** The source's `while (!isspace(*walk)) walk++;` as written, over the
      buffer `b`: the first whitespace character from `w` on, or None when
      the walk runs off the end of `b`. The terminating NUL is not
      whitespace, so it does not stop the walk. */
  function UnboundedScan(b: seq<char>, w: nat): (r: Option<nat>)
    ensures r.Some? ==> w <= r.value < |b| && IsSpace(b[r.value])
    ensures r.Some? ==> forall p :: w <= p < r.value ==> !IsSpace(b[p])
    ensures r.None? ==> forall p :: w <= p < |b| ==> !IsSpace(b[p])
    decreases |b| - w
  {
    if w >= |b| then None
    else if IsSpace(b[w]) then Some(w)
    else UnboundedScan(b, w + 1)
  }

  /** `*walk = '\0'; walk++;` on a whitespace character or the terminator. */
  method Terminate(a: array<char>, ghost s: string, w: nat) returns (r: nat)
    requires a.Length == |s| + 1 && w <= |s|
    requires a[..] == Scanned(s, w)
    requires w == |s| || IsSpace(s[w])
    modifies a
    ensures r == w + 1
    ensures a[..] == Scanned(s, r)
  {
    ScannedStep(s, w);
    a[w] := NUL;
    r := w + 1;
  }

  /** Skip the separator, walk over the next token and terminate it: the
      step both `zfs_list` and `zfs_query` take for every token after the
      first of a row. Returns where the token starts. */
  method TakeToken(a: array<char>, ghost s: string, w: nat) returns (st: nat, r: nat)
    requires a.Length == |s| + 1 && w <= |s|
    requires a[..] == Scanned(s, w)
    requires w == 0 || w == |s| || IsSpace(s[w - 1]) || IsSpace(s[w])
    modifies a
    ensures a[..] == Scanned(s, r)
    ensures st == SpaceEnd(s, w)
    ensures st == |s| ==> Spans(s, w) == [] && r == |s| + 1
    ensures st < |s| ==> Spans(s, w) != [] && Spans(s, w)[0] == (st, r - 1)
    ensures st < |s| && r <= |s| ==> Spans(s, r) == Spans(s, w)[1..]
  {
    SpansHead(s, w);
    st := SkipSpaces(a, s, w);
    var e := ScanToken(a, s, st);
    r := Terminate(a, s, e);
    if st < |s| && r <= |s| {
      SpansAfterSpace(s, e);
    }
  }

  /** Walk over the token starting right at `w` and terminate it, without
      skipping whitespace first: the step `zfs_query` takes for the type
      token of every row after the first. At the terminator it stops where
      the source walks on, as in `ScanToken`. */
  method TakeTokenHere(a: array<char>, ghost s: string, w: nat) returns (r: nat)
    requires a.Length == |s| + 1 && w <= |s|
    requires a[..] == Scanned(s, w)
    requires w == |s| || !IsSpace(s[w])
    requires w == 0 || IsSpace(s[w - 1]) || w == |s|
    modifies a
    ensures a[..] == Scanned(s, r)
    ensures w == SpaceEnd(s, w)
    ensures w == |s| ==> Spans(s, w) == [] && r == |s| + 1
    ensures w < |s| ==> Spans(s, w) != [] && Spans(s, w)[0] == (w, r - 1)
    ensures w < |s| && r <= |s| ==> Spans(s, r) == Spans(s, w)[1..]
  {
    SpansHead(s, w);
    var e := ScanToken(a, s, w);
    r := Terminate(a, s, e);
    if w < |s| && r <= |s| {
      SpansAfterSpace(s, e);
    }
  }

  /** The complete rows of `R` tokens, in order. */
  function Rows(toks: seq<string>, R: nat): (r: seq<seq<string>>)
    requires R > 0
    ensures forall k :: 0 <= k < |r| ==> |r[k]| == R
    decreases |toks|
  {
    if |toks| < R then [] else [toks[..R]] + Rows(toks[R..], R)
  }

  /** The tokens after the last complete row. */
  function Leftover(toks: seq<string>, R: nat): (r: seq<string>)
    requires R > 0
    ensures |r| < R
    decreases |toks|
  {
    if |toks| < R then toks else Leftover(toks[R..], R)
  }

  function Flatten(rows: seq<seq<string>>): seq<string>
  {
    if rows == [] then [] else rows[0] + Flatten(rows[1..])
  }

  /** Grouping into rows loses nothing and reorders nothing: the rows read
      in order, followed by the leftover, give back the tokens. */
  lemma {:induction false} RowsPartition(toks: seq<string>, R: nat)
    requires R > 0
    ensures Flatten(Rows(toks, R)) + Leftover(toks, R) == toks
    decreases |toks|
  {
    if |toks| >= R {
      RowsPartition(toks[R..], R);
      var rows := Rows(toks, R);
      assert rows[1..] == Rows(toks[R..], R);
      assert toks == toks[..R] + toks[R..];
    }
  }
}
