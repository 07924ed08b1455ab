/** `split_chr`: cut a C string in place at every occurrence of a separator
    by overwriting each occurrence with NUL, and count the cuts. */
module Split {
  import opened Strings

  /** The number of occurrences of `c` in `s`. */
  function Count(s: seq<char>, c: char): (r: nat)
    ensures r <= |s|
  {
    if s == [] then 0
    else Count(s[..|s| - 1], c) + (if s[|s| - 1] == c then 1 else 0)
  }

  /** `s` with every occurrence of `c` replaced by `d`. */
  function Replace(s: seq<char>, c: char, d: char): (r: seq<char>)
    ensures |r| == |s|
  {
    seq(|s|, p requires 0 <= p < |s| => if s[p] == c then d else s[p])
  }

  /** The buffer `split_chr` leaves behind: occurrences of `c` before the
      terminator at `e` become NUL, everything else is kept. */
  function SplitBuffer(s: seq<char>, c: char, e: nat): (r: seq<char>)
    requires e <= |s|
    ensures |r| == |s|
  {
    Replace(s[..e], c, NUL) + s[e..]
  }

  /** The pieces of `s` between occurrences of `c`, in order. */
  function Pieces(s: seq<char>, c: char): (r: seq<seq<char>>)
    ensures |r| > 0
  {
    if s == [] then [[]]
    else
      var ps := Pieces(s[..|s| - 1], c);
      var x := s[|s| - 1];
      if x == c then ps + [[]]
      else ps[..|ps| - 1] + [ps[|ps| - 1] + [x]]
  }

  /** The pieces glued back together with `d` between consecutive ones. */
  function Join(ps: seq<seq<char>>, d: char): seq<char>
    requires |ps| > 0
  {
    if |ps| == 1 then ps[0] else Join(ps[..|ps| - 1], d) + [d] + ps[|ps| - 1]
  }

  lemma JoinExtendLast(ps: seq<seq<char>>, d: char, t: seq<char>)
    requires |ps| > 0
    ensures Join(ps[..|ps| - 1] + [ps[|ps| - 1] + t], d) == Join(ps, d) + t
  {
    var qs := ps[..|ps| - 1] + [ps[|ps| - 1] + t];
    if |ps| > 1 {
      assert qs[..|qs| - 1] == ps[..|ps| - 1];
    }
  }

  /** Extending the last piece extends the glued text. */
  lemma JoinExtend(init: seq<seq<char>>, p: seq<char>, d: char, t: seq<char>)
    ensures Join(init + [p + t], d) == Join(init + [p], d) + t
  {
    var ps := init + [p];
    assert ps[..|ps| - 1] == init && ps[|ps| - 1] == p;
    JoinExtendLast(ps, d, t);
  }

  /** There is one piece more than there are separators, and no piece
      holds a separator. */
  lemma {:induction false} PiecesShape(s: seq<char>, c: char)
    ensures |Pieces(s, c)| == Count(s, c) + 1
    ensures forall k :: 0 <= k < |Pieces(s, c)| ==> c !in Pieces(s, c)[k]
  {
    if s != [] {
      var s' := s[..|s| - 1];
      PiecesShape(s', c);
      var ps := Pieces(s', c);
      var x := s[|s| - 1];
      if x != c {
        var last := ps[|ps| - 1] + [x];
        assert c !in last;
        var r := Pieces(s, c);
        assert forall k :: 0 <= k < |r| - 1 ==> r[k] == ps[k];
      }
    }
  }

  /** Gluing the pieces with `d` is replacing every `c` by `d`: in
      particular the buffer `split_chr` produces is the pieces joined by
      NULs. */
  lemma {:induction false} JoinPieces(s: seq<char>, c: char, d: char)
    ensures Join(Pieces(s, c), d) == Replace(s, c, d)
  {
    if s != [] {
      var s' := s[..|s| - 1];
      var x := s[|s| - 1];
      var ps := Pieces(s', c);
      JoinPieces(s', c, d);
      assert s == s' + [x];
      if x == c {
        var qs := ps + [[]];
        assert qs[..|qs| - 1] == ps;
        assert Join(qs, d) == Replace(s', c, d) + [d];
      } else {
        JoinExtendLast(ps, d, [x]);
        assert Join(Pieces(s, c), d) == Replace(s', c, d) + [x];
      }
    }
  }

  /** Splitting on `c` and gluing back with `c` gives back the text. */
  lemma JoinPiecesBack(s: seq<char>, c: char)
    ensures Join(Pieces(s, c), c) == s
  {
    JoinPieces(s, c, c);
  }

  /** A separator appended starts a new, empty piece. */
  lemma PiecesSep(s: seq<char>, c: char)
    ensures Pieces(s + [c], c) == Pieces(s, c) + [[]]
  {
    assert (s + [c])[..|s|] == s;
  }

  /** Any other character appended extends the last piece. */
  lemma PiecesChar(s: seq<char>, c: char, x: char, init: seq<seq<char>>, p: seq<char>)
    requires x != c && Pieces(s, c) == init + [p]
    ensures Pieces(s + [x], c) == init + [p + [x]]
  {
    assert (s + [x])[..|s|] == s;
    var ps := Pieces(s, c);
    assert ps[..|ps| - 1] == init && ps[|ps| - 1] == p;
  }

  /** Splitting a text glued from pieces that do not contain `c` gives
      back those pieces. */
  lemma {:induction false} PiecesJoin(ps: seq<seq<char>>, c: char)
    requires |ps| > 0
    requires forall k :: 0 <= k < |ps| ==> c !in ps[k]
    ensures Pieces(Join(ps, c), c) == ps
    decreases |ps|, |ps[|ps| - 1]|
  {
    var init := ps[..|ps| - 1];
    var last := ps[|ps| - 1];
    assert ps == init + [last];
    if last == [] {
      if |ps| > 1 {
        assert forall k :: 0 <= k < |init| ==> init[k] == ps[k];
        PiecesJoin(init, c);
        PiecesSep(Join(init, c), c);
        assert Join(ps, c) == Join(init, c) + [c];
      }
    } else {
      var x := last[|last| - 1];
      var lt := last[..|last| - 1];
      assert last == lt + [x];
      var qs := init + [lt];
      assert c !in lt by {
        forall p | 0 <= p < |lt| ensures lt[p] != c { assert lt[p] == last[p]; }
      }
      assert forall k :: 0 <= k < |qs| ==> c !in qs[k] by {
        forall k | 0 <= k < |qs| ensures c !in qs[k] {
          if k < |init| { assert qs[k] == ps[k]; }
        }
      }
      assert qs[|qs| - 1] == lt;
      PiecesJoin(qs, c);
      JoinExtend(init, lt, c, [x]);
      PiecesChar(Join(qs, c), c, x, init, lt);
    }
  }

  /** A stretch without `c` adds nothing to the count. */
  lemma {:induction false} CountSkip(s: seq<char>, c: char, i: nat, j: nat)
    requires i <= j <= |s|
    requires forall p :: i <= p < j ==> s[p] != c
    ensures Count(s[..j], c) == Count(s[..i], c)
    decreases j - i
  {
    if i < j {
      assert s[..j][..j - 1] == s[..j - 1];
      CountSkip(s, c, i, j - 1);
    }
  }

  /** One more occurrence of `c` at `q`, after a stretch without it. */
  lemma CountHit(s: seq<char>, c: char, i: nat, q: nat)
    requires i <= q < |s| && s[q] == c
    requires forall p :: i <= p < q ==> s[p] != c
    ensures Count(s[..q + 1], c) == Count(s[..i], c) + 1
  {
    assert s[..q + 1][..q] == s[..q];
    CountSkip(s, c, i, q);
  }

  /** With every character from `buf` on as it was, the terminator is
      still the first NUL from `buf`. */
  lemma NulStill(s: seq<char>, b: seq<char>, buf: nat)
    requires |b| == |s| && (exists p :: 0 <= p < |s| && s[p] == NUL)
    requires buf <= NulFrom(s, 0)
    requires forall p :: buf <= p < |b| ==> b[p] == s[p]
    ensures exists p :: buf <= p < |b| && b[p] == NUL
    ensures NulFrom(b, buf) == NulFrom(s, 0)
  {
    var e := NulFrom(s, 0);
    assert b[e] == NUL;
    var r := NulFrom(b, buf);
    assert b[r] == NUL && s[r] == NUL;
    assert !(r < e) && !(e < r);
  }

  /** Once no separator is left before the terminator, the buffer is the
      split text. */
  lemma SplitFinished(s: seq<char>, b: seq<char>, sep: char, buf: nat, e: nat)
    requires |b| == |s| && buf <= e <= |s|
    requires Cut(s, b, sep, buf)
    requires forall p :: buf <= p < e ==> s[p] != sep
    ensures b == SplitBuffer(s, sep, e)
  {
    var r := SplitBuffer(s, sep, e);
    forall p | 0 <= p < |b|
      ensures b[p] == r[p]
    {
      if p < e {
        assert r[p] == Replace(s[..e], sep, NUL)[p];
      } else {
        assert r[p] == s[e..][p - e];
      }
    }
  }

  /** The buffer `b` with the occurrences of `sep` before `buf` cut. */
  ghost predicate Cut(s: seq<char>, b: seq<char>, sep: char, buf: nat)
  {
    |b| == |s| && forall p :: 0 <= p < |b| ==> b[p] == (if p < buf && s[p] == sep then NUL else s[p])
  }

  /** `next` is what `strchr(buf, sep)` returns on the text `s` that ends
      at `e`. */
  ghost predicate Found(s: seq<char>, sep: char, buf: nat, e: nat, next: Option<nat>)
  {
    e <= |s| &&
    match next
    case None => forall p :: buf <= p < e ==> s[p] != sep
    case Some(q) => buf <= q < e && s[q] == sep && forall p :: buf <= p < q ==> s[p] != sep
  }

  /** Cutting the separator at `q` extends the cut up to `q + 1`. */
  lemma CutStep(s: seq<char>, b: seq<char>, sep: char, buf: nat, q: nat)
    requires Cut(s, b, sep, buf)
    requires buf <= q < |s| && s[q] == sep
    requires forall p :: buf <= p < q ==> s[p] != sep
    ensures Cut(s, b[q := NUL], sep, q + 1)
  {
  }

  /** `strchr(buf, sep)` on the partly cut buffer finds what it would find
      on the original text. */
  method Next(str: array<char>, ghost s: seq<char>, sep: char, buf: nat) returns (next: Option<nat>)
    requires sep != NUL
    requires exists p :: 0 <= p < |s| && s[p] == NUL
    requires buf <= NulFrom(s, 0)
    requires Cut(s, str[..], sep, buf)
    ensures Found(s, sep, buf, NulFrom(s, 0), next)
  {
    NulStill(s, str[..], buf);
    next := StrChr(str, buf, sep);
  }

  /** `split_chr(str, sep)`: returns how many times `sep` occurs in the C
      string at `str`, each occurrence now a NUL and every other character,
      the terminator and what follows it included, as it was. */
  method SplitChr(str: array<char>, sep: char) returns (nbel: nat)
    requires sep != NUL
    requires exists p :: 0 <= p < str.Length && str[p] == NUL
    modifies str
    ensures str[..] == SplitBuffer(old(str[..]), sep, NulFrom(old(str[..]), 0))
    ensures nbel == Count(CStr(old(str[..]), 0), sep)
  {
    ghost var s := str[..];
    ghost var e := NulFrom(s, 0);
    var buf := 0;
    nbel := 0;
    var next := Next(str, s, sep, buf);
    while next.Some?
      invariant buf <= e
      invariant Cut(s, str[..], sep, buf)
      invariant nbel == Count(s[..buf], sep)
      invariant Found(s, sep, buf, e, next)
      decreases e - buf
    {
      var q := next.value;
      CountHit(s, sep, buf, q);
      CutStep(s, str[..], sep, buf, q);
      nbel := nbel + 1;
      str[q] := NUL;
      buf := q + 1;
      next := Next(str, s, sep, buf);
    }
    CountSkip(s, sep, buf, e);
    SplitFinished(s, str[..], sep, buf, e);
    CStrTerminated(s, 0, e);
  }
}
