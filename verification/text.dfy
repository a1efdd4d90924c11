/** Byte strings. Rust's `String`/`&str` are UTF-8 byte sequences whose `len()` is
    a byte count and whose range slicing panics when an end point is not a
    character boundary; this module gives those operations over `seq<byte>`. */
module Text {
  import opened Wrappers

  type byte = b: int | 0 <= b < 256

  /** UTF-8 encoded text. */
  type Str = seq<byte>

  /** The panics of `&s[..n]`, and of a `usize` subtraction that would go
      below zero (debug builds check it). */
  datatype Panic = OutOfRange(index: nat) | NotCharBoundary(index: nat) | SubtractOverflow

  /** A UTF-8 continuation byte (`10xxxxxx`) never starts a character. */
  predicate IsContinuation(b: byte) {
    0x80 <= b < 0xC0
  }

  /** `str::is_char_boundary`: the ends of the string and every byte that is
      not a continuation byte. */
  predicate IsCharBoundary(s: Str, i: nat) {
    i == 0 || i == |s| || (i < |s| && !IsContinuation(s[i]))
  }

  /** `&s[..n]` on a `str`: panics past the end or inside a character. */
  function SliceTo(s: Str, n: nat): (r: Result<Str, Panic>)
    ensures r.Ok? <==> n <= |s| && IsCharBoundary(s, n)
    ensures r.Ok? ==> r.value == s[..n] && |r.value| == n
    ensures r.Err? && n > |s| ==> r.error == OutOfRange(n)
    ensures r.Err? && n <= |s| ==> r.error == NotCharBoundary(n)
  {
    if n > |s| then Err(OutOfRange(n))
    else if !IsCharBoundary(s, n) then Err(NotCharBoundary(n))
    else Ok(s[..n])
  }

  /** The largest character boundary not after `n`; slicing there never panics. */
  function FloorCharBoundary(s: Str, n: nat): (r: nat)
    requires n <= |s|
    ensures r <= n && IsCharBoundary(s, r)
    ensures forall j :: r < j <= n ==> !IsCharBoundary(s, j)
    ensures IsCharBoundary(s, n) ==> r == n
  {
    if IsCharBoundary(s, n) then n else FloorCharBoundary(s, n - 1)
  }

  /** The three bytes of "...". */
  const Ellipsis: Str := [0x2E, 0x2E, 0x2E]

  // ASCII approximation of `to_lowercase`

  function LowerByte(b: byte): (r: byte)
    ensures 0x41 <= b <= 0x5A ==> r == b + 0x20
    ensures !(0x41 <= b <= 0x5A) ==> r == b
  {
    if 0x41 <= b <= 0x5A then b + 0x20 else b
  }

  function Lower(s: Str): (r: Str)
    ensures |r| == |s|
    ensures forall i :: 0 <= i < |s| ==> r[i] == LowerByte(s[i])
  {
    seq(|s|, i requires 0 <= i < |s| => LowerByte(s[i]))
  }

  // Substring search (`str::contains`)

  /** `needle` occurs in `hay` starting at byte `i`. */
  ghost predicate OccursAt(hay: Str, needle: Str, i: int) {
    0 <= i && i + |needle| <= |hay| && hay[i..i + |needle|] == needle
  }

  function Contains(hay: Str, needle: Str): bool
    decreases |hay|
  {
    if |needle| > |hay| then false
    else if hay[..|needle|] == needle then true
    else Contains(hay[1..], needle)
  }

  /** `Contains` finds an occurrence exactly when one exists. */
  lemma {:induction false} ContainsIff(hay: Str, needle: Str)
    ensures Contains(hay, needle) <==> exists i :: OccursAt(hay, needle, i)
    decreases |hay|
  {
    if |needle| > |hay| {
    } else if hay[..|needle|] == needle {
      assert OccursAt(hay, needle, 0);
    } else {
      ContainsIff(hay[1..], needle);
      if Contains(hay[1..], needle) {
        var i :| OccursAt(hay[1..], needle, i);
        assert hay[i + 1..i + 1 + |needle|] == hay[1..][i..i + |needle|];
        assert OccursAt(hay, needle, i + 1);
      }
      if exists i :: OccursAt(hay, needle, i) {
        var i :| OccursAt(hay, needle, i);
        assert i != 0;
        assert hay[1..][i - 1..i - 1 + |needle|] == hay[i..i + |needle|];
        assert OccursAt(hay[1..], needle, i - 1);
      }
    }
  }

  // ASCII approximation of `str::trim`

  /** The ASCII bytes Rust's `char::is_whitespace` accepts. */
  predicate IsWhitespace(b: byte) {
    b == 0x20 || 0x09 <= b <= 0x0D
  }

  /** Where the whitespace run starting at `lo` ends. */
  function SkipWhitespace(s: Str, lo: nat): (n: nat)
    requires lo <= |s|
    ensures lo <= n <= |s|
    ensures forall i :: lo <= i < n ==> IsWhitespace(s[i])
    ensures n < |s| ==> !IsWhitespace(s[n])
    decreases |s| - lo
  {
    if lo < |s| && IsWhitespace(s[lo]) then SkipWhitespace(s, lo + 1) else lo
  }

  /** Where the whitespace run ending at `hi` starts, never before `lo`. */
  function SkipWhitespaceBack(s: Str, lo: nat, hi: nat): (n: nat)
    requires lo <= hi <= |s|
    ensures lo <= n <= hi
    ensures forall i :: n <= i < hi ==> IsWhitespace(s[i])
    ensures n > lo ==> !IsWhitespace(s[n - 1])
  {
    if hi > lo && IsWhitespace(s[hi - 1]) then SkipWhitespaceBack(s, lo, hi - 1) else hi
  }

  /** `r` is the slice of `s` starting at `lo` with only whitespace around it. */
  ghost predicate SliceBetweenWhitespace(s: Str, r: Str, lo: int) {
    && 0 <= lo <= lo + |r| <= |s| && r == s[lo..lo + |r|]
    && (forall i :: 0 <= i < lo ==> IsWhitespace(s[i]))
    && (forall i :: lo + |r| <= i < |s| ==> IsWhitespace(s[i]))
  }

  /** `str::trim`: the slice of `s` between its leading and trailing whitespace. */
  function Trim(s: Str): (r: Str)
    ensures exists lo :: SliceBetweenWhitespace(s, r, lo)
    ensures |r| > 0 ==> !IsWhitespace(r[0]) && !IsWhitespace(r[|r| - 1])
  {
    var lo := SkipWhitespace(s, 0);
    var hi := SkipWhitespaceBack(s, lo, |s|);
    assert SliceBetweenWhitespace(s, s[lo..hi], lo);
    s[lo..hi]
  }

  /** The contract of `Trim` pins it down: any slice with only whitespace
      around it and none at its own ends is the trimmed string, and so is
      the empty slice of an all-whitespace string. */
  lemma {:induction false} TrimUnique(s: Str, r: Str, lo: int)
    requires SliceBetweenWhitespace(s, r, lo)
    requires |r| > 0 ==> !IsWhitespace(r[0]) && !IsWhitespace(r[|r| - 1])
    requires |r| == 0 ==> forall i :: 0 <= i < |s| ==> IsWhitespace(s[i])
    ensures Trim(s) == r
  {
    var a := SkipWhitespace(s, 0);
    var b := SkipWhitespaceBack(s, a, |s|);
    if |r| > 0 {
      assert s[lo] == r[0];
      assert a == lo;
      assert s[lo + |r| - 1] == r[|r| - 1];
      assert b == lo + |r|;
    } else {
      assert a == |s|;
    }
  }

  // Decimal rendering of a natural number (`{}` on `usize`)

  predicate IsDigit(b: byte) {
    0x30 <= b <= 0x39
  }

  function Decimal(n: nat): (r: Str)
    ensures |r| > 0
    ensures forall i :: 0 <= i < |r| ==> IsDigit(r[i])
    ensures n > 0 ==> r[0] != 0x30
  {
    if n < 10 then [0x30 + n] else Decimal(n / 10) + [0x30 + n % 10]
  }

  function DigitsValue(s: Str): nat
    requires forall i :: 0 <= i < |s| ==> IsDigit(s[i])
  {
    if |s| == 0 then 0
    else
      assert IsDigit(s[|s| - 1]);
      DigitsValue(s[..|s| - 1]) * 10 + (s[|s| - 1] as int - 0x30)
  }

  /** Reading back the rendered digits gives the number: the rendering loses nothing. */
  lemma {:induction false} DecimalRoundTrip(n: nat)
    ensures DigitsValue(Decimal(n)) == n
  {
    if n >= 10 {
      DecimalRoundTrip(n / 10);
      var d := Decimal(n);
      assert d[..|d| - 1] == Decimal(n / 10);
    }
  }

}
