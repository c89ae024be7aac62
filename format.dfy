/**
 * The text forms the state records are written in: decimal numbers
 * (`to_string` and `{}`), binary numbers (`{:b}` and `{:010b}`) and the
 * Debug form `{:?}` of a list of rows.  The decimal and list writers have a
 * reader beside them and a lemma stating that reading gives back what was
 * written; the binary writers are described digit by digit.
 */
module Format {
  import opened Bits

  datatype Option<T> = None | Some(value: T)

  predicate IsDigit(c: char) { '0' <= c <= '9' }

  predicate AllDigits(s: string) { forall i | 0 <= i < |s| :: IsDigit(s[i]) }

  function DigitChar(d: nat): (c: char)
    requires d < 10
    ensures IsDigit(c) && c as int - '0' as int == d
  {
    ('0' as int + d) as char
  }

  /** Rust's `Display` of an unsigned integer: digits, no leading zeros. */
  function NatText(n: nat): (s: string)
    ensures |s| > 0 && AllDigits(s)
    ensures s[0] == '0' ==> n == 0
    decreases n
  {
    if n < 10 then [DigitChar(n)] else NatText(n / 10) + [DigitChar(n % 10)]
  }

  /** Rust's `Display` of a signed integer: a minus sign before a negative value. */
  function IntText(i: int): (s: string)
    ensures |s| > 0 && (s[0] == '-' <==> i < 0)
  {
    if i < 0 then "-" + NatText(-i) else NatText(i)
  }

  /** The value of a string of decimal digits, most significant first. */
  function DigitsValue(s: string): nat
    requires AllDigits(s)
  {
    if s == [] then 0 else 10 * DigitsValue(s[..|s| - 1]) + (s[|s| - 1] as int - '0' as int)
  }

  /** The length of the run of digits at the start of `s`. */
  function DigitRun(s: string): (k: nat)
    ensures k <= |s| && AllDigits(s[..k]) && (k == |s| || !IsDigit(s[k]))
  {
    if s == [] || !IsDigit(s[0]) then 0
    else
      var k := 1 + DigitRun(s[1..]);
      assert s[..k] == [s[0]] + s[1..][..k - 1];
      k
  }

  /** Reads an unsigned decimal number at the start of `s`; gives its value and the rest. */
  function ParseNat(s: string): (r: Option<(nat, string)>)
    ensures r.Some? ==> |r.value.1| < |s|
  {
    var k := DigitRun(s);
    if k == 0 then None else Some((DigitsValue(s[..k]), s[k..]))
  }

  /** Reads a signed decimal number at the start of `s`. */
  function ParseInt(s: string): (r: Option<(int, string)>)
  {
    if s != [] && s[0] == '-' then
      match ParseNat(s[1..])
      case None => None
      case Some(p) => Some((-(p.0 as int), p.1))
    else
      match ParseNat(s)
      case None => None
      case Some(p) => Some((p.0 as int, p.1))
  }

  lemma {:induction false} NatTextValue(n: nat)
    ensures DigitsValue(NatText(n)) == n
    decreases n
  {
    if n >= 10 {
      var s := NatText(n);
      assert s[..|s| - 1] == NatText(n / 10);
      NatTextValue(n / 10);
    }
  }

  lemma {:induction false} DigitRunOf(d: string, rest: string)
    requires AllDigits(d) && (rest == [] || !IsDigit(rest[0]))
    ensures DigitRun(d + rest) == |d|
    decreases |d|
  {
    if d != [] {
      assert (d + rest)[1..] == d[1..] + rest;
      DigitRunOf(d[1..], rest);
    }
  }

  /** Reading back a written unsigned number, with anything that is not a digit after it. */
  lemma ParseNatText(n: nat, rest: string)
    requires rest == [] || !IsDigit(rest[0])
    ensures ParseNat(NatText(n) + rest) == Some((n, rest))
  {
    var d := NatText(n);
    DigitRunOf(d, rest);
    assert (d + rest)[..|d|] == d;
    assert (d + rest)[|d|..] == rest;
    NatTextValue(n);
  }

  /** A minus sign followed by a number, read by `ParseInt`. */
  lemma ParseIntNegative(d: string, n: nat, rest: string)
    requires ParseNat(d + rest) == Some((n, rest))
    ensures ParseInt("-" + d + rest) == Some((-(n as int), rest))
  {
    var s := "-" + d + rest;
    assert s[0] == '-' && s[1..] == d + rest;
  }

  /** A number without a sign, read by `ParseInt`. */
  lemma ParseIntNonNegative(d: string, n: nat, rest: string)
    requires d != [] && IsDigit(d[0]) && ParseNat(d + rest) == Some((n, rest))
    ensures ParseInt(d + rest) == Some((n as int, rest))
  {
    assert (d + rest)[0] == d[0];
  }

  /** Reading back a written signed number. */
  lemma ParseIntText(i: int, rest: string)
    requires rest == [] || !IsDigit(rest[0])
    ensures ParseInt(IntText(i) + rest) == Some((i, rest))
  {
    if i < 0 {
      ParseNatText(-i, rest);
      ParseIntNegative(NatText(-i), -i, rest);
    } else {
      ParseNatText(i, rest);
      ParseIntNonNegative(NatText(i), i, rest);
    }
  }

  /** Different numbers are written differently. */
  lemma NatTextInjective(a: nat, b: nat)
    requires NatText(a) == NatText(b)
    ensures a == b
  {
    NatTextValue(a);
    NatTextValue(b);
  }

  // Binary.

  function BitChar(b: bool): char { if b then '1' else '0' }

  /** Rust's `{:b}`: binary digits, no leading zeros, "0" for zero. */
  function BinaryText(n: nat): (s: string)
    ensures |s| > 0
    decreases n
  {
    if n < 2 then [BitChar(n == 1)] else BinaryText(n / 2) + [BitChar(n % 2 == 1)]
  }

  /** The `0` flag with a width: zeros in front up to `width` characters, never truncating. */
  function ZeroPad(s: string, width: nat): (r: string)
  {
    if |s| < width then seq(width - |s|, _ => '0') + s else s
  }

  /** The low `w` bits of `n`, most significant first. */
  function FixedBinary(n: nat, w: nat): (s: string)
    decreases w
  {
    if w == 0 then [] else FixedBinary(n / 2, w - 1) + [BitChar(n % 2 == 1)]
  }

  lemma {:induction false} FixedBinaryAt(n: nat, w: nat, j: nat)
    requires j < w
    ensures |FixedBinary(n, w)| == w
    ensures FixedBinary(n, w)[j] == BitChar(Bit(n, w - 1 - j))
    decreases w
  {
    FixedBinaryLength(n, w);
    if j < w - 1 {
      FixedBinaryLength(n / 2, w - 1);
      FixedBinaryAt(n / 2, w - 1, j);
    }
  }

  lemma {:induction false} FixedBinaryLength(n: nat, w: nat)
    ensures |FixedBinary(n, w)| == w
    decreases w
  {
    if w > 0 { FixedBinaryLength(n / 2, w - 1); }
  }

  lemma {:induction false} FixedBinaryZero(w: nat)
    ensures FixedBinary(0, w) == seq(w, _ => '0')
    decreases w
  {
    if w > 0 { FixedBinaryZero(w - 1); }
  }

  /** A number below 2^w written with `{:0w$b}` is exactly its low `w` bits. */
  lemma {:induction false} ZeroPadBinary(n: nat, w: nat)
    requires 0 < w && n < Pow2(w)
    ensures ZeroPad(BinaryText(n), w) == FixedBinary(n, w)
    decreases w
  {
    if n < 2 {
      FixedBinaryZero(w - 1);
      assert FixedBinary(n, w) == FixedBinary(0, w - 1) + [BitChar(n == 1)];
    } else {
      var h := BinaryText(n / 2);
      ZeroPadBinary(n / 2, w - 1);
      FixedBinaryLength(n / 2, w - 1);
      assert |h| <= w - 1;
      assert ZeroPad(h + [BitChar(n % 2 == 1)], w) == ZeroPad(h, w - 1) + [BitChar(n % 2 == 1)];
    }
  }

  /** `{:0w$b}` of a number below 2^w: `w` characters, '1' exactly at the set bits, most significant first. */
  lemma BinaryDigits(n: nat, w: nat, j: nat)
    requires 0 < w && n < Pow2(w) && j < w
    ensures |ZeroPad(BinaryText(n), w)| == w
    ensures ZeroPad(BinaryText(n), w)[j] == BitChar(Bit(n, w - 1 - j))
  {
    ZeroPadBinary(n, w);
    FixedBinaryAt(n, w, j);
  }

  // Debug form of a list.

  /** The entries of a list separated by ", ". */
  function Items(xs: seq<nat>): string
  {
    if xs == [] then "" else if |xs| == 1 then NatText(xs[0]) else NatText(xs[0]) + ", " + Items(xs[1..])
  }

  /** Rust's `{:?}` of an array of unsigned integers: "[a, b, c]". */
  function ListText(xs: seq<nat>): string
  {
    "[" + Items(xs) + "]"
  }

  /** Puts `n` in front of the numbers read by `r`, if any. */
  function Prepend(n: nat, r: Option<(seq<nat>, string)>): Option<(seq<nat>, string)>
  {
    match r
    case None => None
    case Some(q) => Some(([n] + q.0, q.1))
  }

  /** Reads one or more numbers separated by ", ". */
  function ParseItems(s: string): (r: Option<(seq<nat>, string)>)
    decreases |s|
  {
    match ParseNat(s)
    case None => None
    case Some(p) =>
      var rest := p.1;
      if |rest| >= 2 && rest[..2] == ", " then Prepend(p.0, ParseItems(rest[2..])) else Some(([p.0], rest))
  }

  /** Reads a bracketed list written by `ListText`. */
  function ParseList(s: string): (r: Option<(seq<nat>, string)>)
  {
    if |s| >= 2 && s[..2] == "[]" then Some(([], s[2..]))
    else if s == [] || s[0] != '[' then None
    else
      match ParseItems(s[1..])
      case None => None
      case Some(q) =>
        if q.1 != [] && q.1[0] == ']' then Some((q.0, q.1[1..])) else None
  }

  /** `ParseItems` stops after a number followed by anything but ", ". */
  lemma ParseItemsLast(n: nat, rest: string)
    requires rest != [] && rest[0] == ']'
    ensures ParseItems(NatText(n) + rest) == Some(([n], rest))
  {
    ParseNatText(n, rest);
    assert !(|rest| >= 2 && rest[..2] == ", ") by { if |rest| >= 2 { assert rest[..2][0] == ']'; } }
  }

  /** `ParseItems` goes on after a number followed by ", ". */
  lemma ParseItemsNext(n: nat, items: string, rest: string)
    ensures ParseItems(NatText(n) + ", " + items + rest) == Prepend(n, ParseItems(items + rest))
  {
    var tail := ", " + (items + rest);
    assert NatText(n) + ", " + items + rest == NatText(n) + tail;
    ParseNatText(n, tail);
    assert tail[..2] == ", " && tail[2..] == items + rest;
  }

  lemma {:induction false} ParseItemsText(xs: seq<nat>, rest: string)
    requires xs != [] && rest != [] && rest[0] == ']'
    ensures ParseItems(Items(xs) + rest) == Some((xs, rest))
    decreases |xs|
  {
    if |xs| == 1 {
      assert Items(xs) == NatText(xs[0]) && [xs[0]] == xs;
      ParseItemsLast(xs[0], rest);
    } else {
      ParseItemsText(xs[1..], rest);
      ParseItemsNext(xs[0], Items(xs[1..]), rest);
      assert [xs[0]] + xs[1..] == xs;
    }
  }

  /** Reading back a written list, with anything after it. */
  lemma ParseListText(xs: seq<nat>, rest: string)
    ensures ParseList(ListText(xs) + rest) == Some((xs, rest))
  {
    var s := ListText(xs) + rest;
    if xs == [] {
      assert s[..2] == "[]" && s[2..] == rest;
    } else {
      var t := Items(xs) + ("]" + rest);
      assert s[1..] == t;
      assert s[..2] != "[]" by { assert s[1] == NatText(xs[0])[0]; }
      ParseItemsText(xs, "]" + rest);
      assert ("]" + rest)[1..] == rest;
    }
  }
}
