/** `strtonum(text, 0, INT_MAX, NULL)` as `zfs_query` uses it to decode an
    INTEGER property: base-10 `strtoll` (optional leading whitespace, an
    optional sign, digits) that must consume the whole text and land in
    `0..INT_MAX`; any failure yields 0. */
module Numbers {
  import opened Strings
  import opened Tokens

  /** `INT_MAX` of a 32-bit `int`. */
  const INT_MAX: int := 0x7fff_ffff

  predicate IsDigit(c: char)
  {
    '0' <= c <= '9'
  }

  predicate AllDigits(ds: string)
  {
    forall i :: 0 <= i < |ds| ==> IsDigit(ds[i])
  }

  /** End of the digit run starting at `i`. */
  function DigitEnd(s: string, i: nat): (r: nat)
    requires i <= |s|
    ensures i <= r <= |s|
    ensures AllDigits(s[i..r])
    ensures r == |s| || !IsDigit(s[r])
    decreases |s| - i
  {
    if i < |s| && IsDigit(s[i]) then DigitEnd(s, i + 1) else i
  }

  /** The number a run of decimal digits denotes, most significant first. */
  function Value(ds: string): nat
    requires AllDigits(ds)
  {
    if |ds| == 0 then 0
    else Value(ds[..|ds| - 1]) * 10 + (ds[|ds| - 1] as int - '0' as int)
  }

  /** `strtonum(s, 0, INT_MAX, NULL)`. */
  function StrToNum(s: string): (r: int)
    ensures 0 <= r <= INT_MAX
  {
    var i := SpaceEnd(s, 0);
    var neg := i < |s| && s[i] == '-';
    var j := if i < |s| && (s[i] == '-' || s[i] == '+') then i + 1 else i;
    var d := DigitEnd(s, j);
    if d == j || d != |s| then 0
    else
      var v := if neg then 0 - Value(s[j..d]) as int else Value(s[j..d]) as int;
      if 0 <= v <= INT_MAX then v else 0
  }

  /** The decimal text of `k`, without leading zeros. */
  function Decimal(k: nat): (r: string)
    ensures |r| > 0 && AllDigits(r)
    ensures r[0] != '0' || k == 0
  {
    var c := ('0' as int + k % 10) as char;
    if k < 10 then [c] else Decimal(k / 10) + [c]
  }

  /** Reading the decimal text of `k` gives back `k`. */
  lemma {:induction false} ValueDecimal(k: nat)
    ensures Value(Decimal(k)) == k
  {
    var r := Decimal(k);
    if k >= 10 {
      ValueDecimal(k / 10);
      assert r[..|r| - 1] == Decimal(k / 10);
    }
  }

  lemma DigitEndAll(s: string, i: nat)
    requires i <= |s| && AllDigits(s[i..])
    ensures DigitEnd(s, i) == |s|
    decreases |s| - i
  {
    if i < |s| {
      assert s[i] == s[i..][0];
      assert s[i + 1..] == s[i..][1..];
      DigitEndAll(s, i + 1);
    }
  }

  /** Every value `strtonum` can accept round-trips through its decimal
      text. */
  lemma StrToNumDecimal(k: nat)
    requires k <= INT_MAX
    ensures StrToNum(Decimal(k)) == k
  {
    var s := Decimal(k);
    assert !IsSpace(s[0]);
    assert SpaceEnd(s, 0) == 0;
    assert s[0..] == s;
    DigitEndAll(s, 0);
    assert s[0..|s|] == s;
    ValueDecimal(k);
  }

  /** An explicit `+` sign is accepted; a negative value is rejected. */
  lemma StrToNumSigned(k: nat)
    requires k <= INT_MAX
    ensures StrToNum("+" + Decimal(k)) == k
    ensures k > 0 ==> StrToNum("-" + Decimal(k)) == 0
  {
    var d := Decimal(k);
    ValueDecimal(k);
    var p := "+" + d;
    assert p[1..] == d;
    DigitEndAll(p, 1);
    assert p[1..|p|] == d;
    var m := "-" + d;
    assert m[1..] == d;
    DigitEndAll(m, 1);
    assert m[1..|m|] == d;
  }

  /** A value above `INT_MAX` is out of range and decodes as 0. */
  lemma StrToNumTooLarge(k: nat)
    requires k > INT_MAX
    ensures StrToNum(Decimal(k)) == 0
  {
    var s := Decimal(k);
    assert SpaceEnd(s, 0) == 0;
    DigitEndAll(s, 0);
    assert s[0..|s|] == s;
    ValueDecimal(k);
  }

  /** A lone `-`, the text `zfs` prints for an unset property, is not a
      number: `strtonum` alone would already decode it as 0. */
  lemma StrToNumDash()
    ensures StrToNum("-") == 0
  {
    assert SpaceEnd("-", 0) == 0;
    assert DigitEnd("-", 1) == 1;
  }

  /** Digits followed by anything else are not a number and decode as 0. */
  lemma StrToNumRejects(k: nat, tail: string)
    requires |tail| > 0 && !IsDigit(tail[0])
    ensures StrToNum(Decimal(k) + tail) == 0
  {
    var s := Decimal(k) + tail;
    assert s[0] == Decimal(k)[0];
    assert SpaceEnd(s, 0) == 0;
    DigitEndPrefix(s, 0, |Decimal(k)|);
  }

  lemma {:induction false} DigitEndPrefix(s: string, i: nat, e: nat)
    requires i <= e < |s| && AllDigits(s[..e]) && !IsDigit(s[e])
    ensures DigitEnd(s, i) == e
    decreases e - i
  {
    if i < e {
      assert s[i] == s[..e][i];
      DigitEndPrefix(s, i + 1, e);
    }
  }
}
