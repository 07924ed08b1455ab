/** C-string conventions shared by the whole model: the NUL terminator,
    `isspace`, the string a `char *` points at, `strchr`, and the
    working buffer that the in-place tokenizers rewrite. */
module Strings {

  datatype Option<T> = None | Some(value: T)

  const NUL: char := '\0'

  /** `isspace` in the C locale. */
  predicate IsSpace(c: char)
  {
    c == ' ' || c == '\t' || c == '\n' || c == '\U{0B}' || c == '\U{0C}' || c == '\r'
  }

  /** A text that can be held in a C string: no embedded NUL. */
  predicate NoNul(s: seq<char>)
  {
    forall i :: 0 <= i < |s| ==> s[i] != NUL
  }

  /** Joining two NUL-free texts gives a NUL-free text. */
  lemma NoNulCat(u: seq<char>, v: seq<char>)
    requires NoNul(u) && NoNul(v)
    ensures NoNul(u + v)
  {
    forall p | 0 <= p < |u + v|
      ensures (u + v)[p] != NUL
    {
      if p >= |u| {
        assert (u + v)[p] == v[p - |u|];
      }
    }
  }

  /** The C string that a pointer to `s[i]` denotes: every character up to
      the first NUL (or up to the end of `s`). */
  function CStr(s: seq<char>, i: nat): (r: string)
    requires i <= |s|
    ensures i + |r| <= |s|
    ensures r == s[i..i + |r|]
    ensures NoNul(r)
    ensures i + |r| == |s| || s[i + |r|] == NUL
    decreases |s| - i
  {
    if i == |s| || s[i] == NUL then [] else [s[i]] + CStr(s, i + 1)
  }

  /** A pointer to a NUL-free run ended by a NUL denotes exactly that run. */
  lemma CStrTerminated(s: seq<char>, i: nat, e: nat)
    requires i <= e < |s|
    requires s[e] == NUL
    requires NoNul(s[i..e])
    ensures CStr(s, i) == s[i..e]
  {
  }

  /** Index of the first NUL at or after `i`. */
  function NulFrom(s: seq<char>, i: nat): (r: nat)
    requires i <= |s|
    requires exists p :: i <= p < |s| && s[p] == NUL
    ensures i <= r < |s| && s[r] == NUL
    ensures forall p :: i <= p < r ==> s[p] != NUL
    decreases |s| - i
  {
    if s[i] == NUL then i else NulFrom(s, i + 1)
  }

  /** `strchr(a + from, c)` for a character `c` other than NUL: the first
      occurrence of `c` before the terminating NUL, or None. */
  method StrChr(a: array<char>, from: nat, c: char) returns (r: Option<nat>)
    requires c != NUL
    requires from <= a.Length
    requires exists p :: from <= p < a.Length && a[p] == NUL
    ensures r.None? ==> forall p :: from <= p < NulFrom(a[..], from) ==> a[p] != c
    ensures r.Some? ==> from <= r.value < NulFrom(a[..], from) && a[r.value] == c
    ensures r.Some? ==> forall p :: from <= p < r.value ==> a[p] != c
  {
    ghost var end := NulFrom(a[..], from);
    var q := from;
    while a[q] != NUL
      invariant from <= q <= end
      invariant forall p :: from <= p < q ==> a[p] != c
      decreases end - q
    {
      if a[q] == c {
        return Some(q);
      }
      q := q + 1;
    }
    return None;
  }

  /** The working buffer of a tokenizer that has advanced to `w` over the
      captured text `s`: `s` followed by its terminating NUL, with every
      whitespace character before `w` overwritten by NUL. */
  function Scanned(s: string, w: nat): (r: seq<char>)
    ensures |r| == |s| + 1
  {
    seq(|s| + 1, p requires 0 <= p < |s| + 1 =>
      if p < |s| && !(p < w && IsSpace(s[p])) then s[p] else NUL)
  }

  /** Overwriting the current character, a whitespace or the terminator,
      advances the buffer by one. */
  lemma ScannedStep(s: string, w: nat)
    requires w <= |s|
    requires w == |s| || IsSpace(s[w])
    ensures Scanned(s, w)[w := NUL] == Scanned(s, w + 1)
  {
  }

  /** Walking over characters that are not whitespace changes nothing. */
  lemma ScannedSkip(s: string, w: nat, w': nat)
    requires w <= w' <= |s|
    requires forall p :: w <= p < w' ==> !IsSpace(s[p])
    ensures Scanned(s, w) == Scanned(s, w')
  {
  }

  /** Past the terminator the buffer no longer changes. */
  lemma ScannedEnd(s: string)
    ensures Scanned(s, |s|) == Scanned(s, |s| + 1)
  {
  }

  /** A NUL-free run of non-whitespace characters that the tokenizer has
      already terminated reads back as itself through a pointer to its
      first character. */
  lemma ScannedToken(s: string, w: nat, st: nat, en: nat)
    requires NoNul(s)
    requires st <= en < |s| && en < w
    requires IsSpace(s[en])
    requires forall p :: st <= p < en ==> !IsSpace(s[p])
    ensures CStr(Scanned(s, w), st) == s[st..en]
  {
    var b := Scanned(s, w);
    assert b[st..en] == s[st..en];
    CStrTerminated(b, st, en);
  }

  /** The sbuf holding a captured text: its characters and the NUL that
      `sbuf_finish` appends. */
  method NewBuffer(s: string) returns (a: array<char>)
    ensures fresh(a)
    ensures a[..] == Scanned(s, 0)
  {
    a := new char[|s| + 1](p requires 0 <= p < |s| + 1 => if p < |s| then s[p] else NUL);
  }
}
