/** Octal fields: the %0*o conversion of lib/stdio.c and the parser of
    lib/ustar.c. */
module Octal {
  import opened Prelude
  import opened Arithmetic
  import opened Strings

  /** '0'. */
  const ZERO: Byte := 48
  const SPACE: Byte := 32

  function Pow8(w: nat): (r: nat)
    ensures r > 0
  {
    if w == 0 then 1 else 8 * Pow8(w - 1)
  }

  function Digit(v: nat): (r: Byte) { ZERO + v % 8 }

  /** The w low octal digits of v, most significant first. */
  function Digits(v: nat, w: nat): (r: seq<Byte>)
    ensures |r| == w
  {
    if w == 0 then [] else Digits(v / 8, w - 1) + [Digit(v)]
  }

  predicate IsOctal(c: Byte) { ZERO <= c <= ZERO + 7 }

  // ----------------------------------------------------------------- parsing

  /** parse_octal_field from offset ofs on, with the value so far. */
  function ParseFrom(s: seq<Byte>, ofs: nat, value: nat): (r: Option<nat>)
    decreases |s| - ofs
  {
    if ofs >= |s| then None
    else if IsOctal(s[ofs]) then
      if value > (W32 - 1) / 8 then None else ParseFrom(s, ofs + 1, s[ofs] - ZERO + value * 8)
    else if s[ofs] == SPACE || s[ofs] == 0 then
      if ofs > 0 then Some(value) else None
    else None
  }

  function ParseOctal(s: seq<Byte>): (r: Option<nat>) { ParseFrom(s, 0, 0) }

  method ParseOctalField(s: seq<Byte>) returns (r: Option<nat>)
    ensures r == ParseOctal(s)
  {
    var value: nat, ofs: nat := 0, 0;
    while ofs < |s|
      invariant 0 <= ofs <= |s| && ParseOctal(s) == ParseFrom(s, ofs, value)
    {
      var c := s[ofs];
      if ZERO <= c <= ZERO + 7 {
        if value > (W32 - 1) / 8 { return None; }
        value := c - ZERO + value * 8;
      } else if c == SPACE || c == 0 {
        return if ofs > 0 then Some(value) else None;
      } else {
        return None;
      }
      ofs := ofs + 1;
    }
    return None;
  }

  lemma {:induction false} DigitsAreOctal(v: nat, w: nat)
    ensures forall k :: 0 <= k < w ==> IsOctal(Digits(v, w)[k])
  {
    if w > 0 { DigitsAreOctal(v / 8, w - 1); }
  }

  /** Reading digits of a 32-bit value accumulates exactly that value. */
  lemma {:induction false} ParseDigits(s: seq<Byte>, v: nat, w: nat)
    requires w <= |s| && s[..w] == Digits(v, w) && v < Pow8(w) && v < W32
    ensures ParseFrom(s, 0, 0) == ParseFrom(s, w, v)
    decreases w
  {
    if w > 0 {
      assert s[..w][..w - 1] == s[..w - 1] == Digits(v / 8, w - 1);
      assert s[w - 1] == s[..w][w - 1] == Digit(v);
      ParseDigits(s, v / 8, w - 1);
    }
  }

  /** Formatting and parsing round trip. */
  lemma OctalRoundTrip(v: nat, w: nat)
    requires w > 0 && v < Pow8(w) && v < W32
    ensures ParseOctal(Digits(v, w) + [0]) == Some(v)
  {
    var s := Digits(v, w) + [0];
    assert s[..w] == Digits(v, w);
    ParseDigits(s, v, w);
  }

  // -------------------------------------------------------------- formatting

  function Reverse(s: seq<Byte>): (r: seq<Byte>) {
    if s == [] then [] else Reverse(s[1..]) + [s[0]]
  }

  lemma {:induction false} ReverseSnoc(s: seq<Byte>, x: Byte)
    ensures Reverse(s + [x]) == [x] + Reverse(s)
  {
    if s != [] {
      ReverseSnoc(s[1..], x);
      assert (s + [x])[1..] == s[1..] + [x];
    } else {
      assert [x][1..] == [] && s + [x] == [x];
    }
  }

  function Zeros(n: nat): (r: seq<Byte>)
    ensures |r| == n
  {
    seq(n, i => ZERO)
  }

  lemma {:induction false} DigitsOfZero(w: nat)
    ensures Digits(0, w) == Zeros(w)
  {
    if w > 0 {
      DigitsOfZero(w - 1);
      assert Zeros(w) == Zeros(w - 1) + [ZERO];
    }
  }

  /** One digit goes from the number to the buffer. */
  lemma DigitsStep(v: nat, w: nat, buf: seq<Byte>)
    requires w > 0
    ensures Digits(v, w) + Reverse(buf) == Digits(v / 8, w - 1) + Reverse(buf + [Digit(v)])
  {
    ReverseSnoc(buf, Digit(v));
    assert Digits(v, w) + Reverse(buf) == Digits(v / 8, w - 1) + ([Digit(v)] + Reverse(buf));
  }

  /** format_integer for the conversion %0<width>o: digits in reverse into a
      buffer, at least one, padded with zeros on output. */
  method FormatOctal(value: nat, width: nat) returns (r: seq<Byte>)
    requires width > 0 && value < Pow8(width)
    ensures r == Digits(value, width)
  {
    var buf: seq<Byte>, v: nat := [], value;
    assert Digits(value, width) + Reverse([]) == Digits(value, width);
    while v > 0
      invariant |buf| <= width && v < Pow8(width - |buf|)
      invariant Digits(v, width - |buf|) + Reverse(buf) == Digits(value, width)
    {
      DigitsStep(v, width - |buf|, buf);
      buf := buf + [Digit(v)];
      v := v / 8;
    }
    if |buf| < 1 {
      DigitsStep(0, width, buf);
      buf := buf + [ZERO];
    }
    DigitsOfZero(width - |buf|);
    r := Zeros(width - |buf|) + Reverse(buf);
  }
}
