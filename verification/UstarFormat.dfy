/** The bytes of a ustar header, with every offset and character written out: what
    a composed header holds, which headers the parser accepts, and what the
    checksum is. */
module UstarFormat {
  import opened Prelude
  import opened Arithmetic
  import opened Strings
  import opened Octal
  import opened Ustar

  // ---------------------------------------------------------- octal numbers

  /** The number that a string of octal digits stands for. */
  ghost function OctalValue(s: seq<Byte>): (v: int) {
    if s == [] then 0 else 8 * OctalValue(s[..|s| - 1]) + s[|s| - 1] - 48
  }

  ghost predicate OctalDigits(s: seq<Byte>) {
    forall i :: 0 <= i < |s| ==> 48 <= s[i] <= 55
  }

  /** The field starts with n octal digits, at least one, and a space or a zero
      byte follows. */
  ghost predicate NumberEnds(s: seq<Byte>, n: nat) {
    0 < n < |s| && OctalDigits(s[..n]) && (s[n] == 32 || s[n] == 0)
  }

  /** A field holds the number v: digits, then a space or a zero byte. */
  ghost predicate Holds(s: seq<Byte>, v: int) {
    exists n: nat :: NumberEnds(s, n) && v == OctalValue(s[..n])
  }

  /** %0<w>o writes w octal digits that stand for the value. */
  lemma {:induction false} DigitsValue(v: nat, w: nat)
    requires v < Pow8(w)
    ensures |Digits(v, w)| == w && OctalDigits(Digits(v, w)) && OctalValue(Digits(v, w)) == v
  {
    if w > 0 {
      DigitsValue(v / 8, w - 1);
      assert Digits(v, w)[..w - 1] == Digits(v / 8, w - 1);
    }
  }

  lemma FieldHolds(v: nat, w: nat)
    requires w > 0 && v < Pow8(w)
    ensures Holds(Digits(v, w) + [0], v)
  {
    DigitsValue(v, w);
    var s := Digits(v, w) + [0];
    hide Digits;
    assert s[..w] == Digits(v, w) && s[w] == 0;
    assert NumberEnds(s, w);
  }

  lemma ValueStep(s: seq<Byte>, n: nat)
    requires n < |s|
    ensures OctalValue(s[..n + 1]) == 8 * OctalValue(s[..n]) + s[n] - 48
  {
    assert s[..n + 1][..n] == s[..n];
  }

  /** More digits, a value at least eight times as big. */
  lemma {:induction false} ValueGrows(s: seq<Byte>, m: nat, n: nat)
    requires m < n <= |s| && OctalDigits(s[..n]) && OctalValue(s[..m]) >= 0
    ensures OctalValue(s[..n]) >= 8 * OctalValue(s[..m])
    decreases n
  {
    ValueStep(s, n - 1);
    assert s[..n][n - 1] == s[n - 1];
    if m < n - 1 {
      assert forall i :: 0 <= i < n - 1 ==> s[..n - 1][i] == s[..n][i];
      ValueGrows(s, m, n - 1);
    }
  }

  /** parse_octal_field from offset n on. */
  lemma {:induction false} ParsesFrom(s: seq<Byte>, n: nat, v: nat)
    requires n <= |s| && OctalDigits(s[..n]) && 0 <= OctalValue(s[..n]) < W32
    ensures ParseFrom(s, n, OctalValue(s[..n])) == Some(v) <==>
      v < W32 && exists m :: n <= m && NumberEnds(s, m) && v == OctalValue(s[..m])
    decreases |s| - n
  {
    var value := OctalValue(s[..n]);
    if n < |s| && 48 <= s[n] <= 55 {
      ValueStep(s, n);
      assert forall i :: 0 <= i < n + 1 ==> s[..n + 1][i] == if i < n then s[..n][i] else s[n];
      assert !NumberEnds(s, n);
      if value > (W32 - 1) / 8 {
        forall m | n <= m && NumberEnds(s, m) ensures OctalValue(s[..m]) >= W32 {
          ValueGrows(s, n, m);
        }
      } else {
        ParsesFrom(s, n + 1, v);
      }
    } else if n < |s| {
      forall m | n < m && m < |s| ensures !NumberEnds(s, m) {
        assert s[..m][n] == s[n];
      }
      assert s[n] == 32 || s[n] == 0 ==> (NumberEnds(s, n) <==> n > 0);
    }
  }

  /** parse_octal_field succeeds exactly on a field that holds a number of 32
      bits, and returns it. */
  lemma ParsesExactly(s: seq<Byte>, v: nat)
    ensures ParseOctal(s) == Some(v) <==> v < W32 && Holds(s, v)
  {
    assert s[..0] == [];
    ParsesFrom(s, 0, v);
  }

  // --------------------------------------------------------------- checksum

  /** Its value, for a block of zeros: eight spaces. */
  lemma ZeroBlock(h: seq<Byte>)
    requires |h| == 512 && forall i :: 0 <= i < 512 ==> h[i] == 0
    ensures Checksum(h) == 256
  {
    ChecksumIsPlain(h);
    var s := Spaced(h);
    ZeroPrefix(s, 148);
    SpacePrefix(s, 8);
    ZeroTail(s, 512);
    assert s[..512] == s;
  }

  lemma {:induction false} ZeroPrefix(s: seq<Byte>, n: nat)
    requires n <= |s| && forall i :: 0 <= i < n ==> s[i] == 0
    ensures ByteSum(s[..n]) == 0
  {
    if n > 0 {
      ZeroPrefix(s, n - 1);
      assert s[..n][..n - 1] == s[..n - 1];
    }
  }

  lemma {:induction false} SpacePrefix(s: seq<Byte>, n: nat)
    requires n <= 8 && 156 <= |s| && ByteSum(s[..148]) == 0 && forall i :: 148 <= i < 156 ==> s[i] == 32
    ensures ByteSum(s[..148 + n]) == 32 * n
  {
    if n > 0 {
      SpacePrefix(s, n - 1);
      assert s[..148 + n][..147 + n] == s[..147 + n];
    }
  }

  lemma {:induction false} ZeroTail(s: seq<Byte>, n: nat)
    requires 156 <= n <= |s| && ByteSum(s[..156]) == 256 && forall i :: 156 <= i < |s| ==> s[i] == 0
    ensures ByteSum(s[..n]) == 256
  {
    if n > 156 {
      ZeroTail(s, n - 1);
      assert s[..n][..n - 1] == s[..n - 1];
    }
  }

  // --------------------------------------------------------------- composing

  /** A composed header, field by field. */
  lemma ComposedBytes(name: seq<Byte>, kind: Kind, size: nat)
    requires |name| <= 99 && IsString(name) && size < W32
    ensures
      var h := Compose(name, kind, size);
      && |h| == 512
      && h[..|name|] == name && (forall i :: |name| <= i < 100 ==> h[i] == 0)
      && Holds(h[100..108], if kind == Regular then 420 else 493)
      && Holds(h[108..116], 0) && Holds(h[116..124], 0)
      && Holds(h[124..136], size) && Holds(h[136..148], 1136102400)
      && Holds(h[148..156], ByteSum(h[..148] + seq(8, i => 32) + h[156..]))
      && h[156] == (if kind == Regular then 48 else 53)
      && h[257..265] == [117, 115, 116, 97, 114, 0, 48, 48]
      && h[265..269] == [114, 111, 111, 116] && h[269] == 0 && h[297..301] == [114, 111, 111, 116] && h[301] == 0
      && (forall i :: 157 <= i < 257 ==> h[i] == 0) && (forall i :: 329 <= i < 512 ==> h[i] == 0)
  {
    hide Digits, Checksum, Holds, ByteSum;
    var h := Compose(name, kind, size);
    ComposedNumbers(name, kind, size);
    ComposedNames(name, kind, size);
    ComposedSum(name, kind, size);
  }

  lemma ComposedNumbers(name: seq<Byte>, kind: Kind, size: nat)
    requires |name| <= 99 && size < W32
    ensures
      var h := Compose(name, kind, size);
      && Holds(h[100..108], if kind == Regular then 420 else 493)
      && Holds(h[108..116], 0) && Holds(h[116..124], 0)
      && Holds(h[124..136], size) && Holds(h[136..148], 1136102400)
  {
    hide Digits, Front, Back, Padded, Checksum, Zeros, Nul, Holds;
    var f, b := Front(name, kind, size), Back(kind);
    var chksum := Padded(Digits(Checksum(Raw(name, kind, size, Nul(8))), 7), 8);
    FrontHolds(name, kind, size);
    OuterFields(f, chksum, b);
    assert (f + chksum + b)[124..136] == f[124..136];
  }

  lemma FrontHolds(name: seq<Byte>, kind: Kind, size: nat)
    requires |name| <= 99 && size < W32
    ensures
      var f := Front(name, kind, size);
      && Holds(f[100..108], if kind == Regular then 420 else 493)
      && Holds(f[108..116], 0) && Holds(f[116..124], 0)
      && Holds(f[124..136], size) && Holds(f[136..148], 1136102400)
  {
    hide Digits, Front, Padded, Zeros, Holds;
    PowersOfEight();
    FrontNumbers(name, kind, size);
    FrontFields(name, kind, size);
    DigitsOfZero(7);
    NumberField(Mode(kind), 7);
    NumberField(0, 7);
    NumberField(size, 11);
    NumberField(MTIME, 11);
  }

  lemma NumberField(v: nat, w: nat)
    requires w > 0 && v < Pow8(w)
    ensures Holds(Padded(Digits(v, w), w + 1), v)
  {
    PaddedDigits(v, w);
    FieldHolds(v, w);
  }

  lemma ComposedNames(name: seq<Byte>, kind: Kind, size: nat)
    requires |name| <= 99
    ensures
      var h := Compose(name, kind, size);
      && h[..|name|] == name && (forall i :: |name| <= i < 100 ==> h[i] == 0)
      && h[156] == (if kind == Regular then 48 else 53)
      && h[257..265] == [117, 115, 116, 97, 114, 0, 48, 48]
      && h[265..269] == [114, 111, 111, 116] && h[269] == 0 && h[297..301] == [114, 111, 111, 116] && h[301] == 0
      && (forall i :: 157 <= i < 257 ==> h[i] == 0) && (forall i :: 329 <= i < 512 ==> h[i] == 0)
  {
    FrontFields(name, kind, size);
    BackFields(kind);
    BackNames(kind);
    hide Digits, Checksum, Front, Back;
    var f, b := Front(name, kind, size), Back(kind);
    var c := Padded(Digits(Checksum(Raw(name, kind, size, Nul(8))), 7), 8);
    var h := f + c + b;
    assert h == Compose(name, kind, size);
    FrontName(f, c, b, name);
    BackLiterals(f + c, b);
  }

  lemma FrontName(f: seq<Byte>, c: seq<Byte>, b: seq<Byte>, name: seq<Byte>)
    requires |f| == 148 && |name| <= 99 && f[0..100] == Padded(name, 100)
    ensures (f + c + b)[..|name|] == name && forall i :: |name| <= i < 100 ==> (f + c + b)[i] == 0
  {
    assert forall i :: 0 <= i < 100 ==> f[i] == f[0..100][i];
  }

  lemma BackLiterals(a: seq<Byte>, b: seq<Byte>)
    requires |a| == 156 && |b| == 356
    requires b[101..107] == MAGIC && b[107..109] == VERSION && b[109..141] == Padded(ROOT, 32) && b[141..173] == Padded(ROOT, 32)
    requires b[1..101] == Nul(100) && b[173..356] == Nul(183)
    ensures
      var h := a + b;
      && h[257..265] == [117, 115, 116, 97, 114, 0, 48, 48]
      && h[265..269] == [114, 111, 111, 116] && h[269] == 0 && h[297..301] == [114, 111, 111, 116] && h[301] == 0
      && (forall i :: 157 <= i < 257 ==> h[i] == 0) && (forall i :: 329 <= i < 512 ==> h[i] == 0)
  {
    var h := a + b;
    SliceBehind(a, b, 101, 6);
    SliceBehind(a, b, 107, 2);
    SliceBehind(a, b, 109, 32);
    SliceBehind(a, b, 141, 32);
    assert h[257..265] == h[257..263] + h[263..265];
    RootField(h, 265);
    RootField(h, 297);
    assert forall i :: 1 <= i < 101 ==> h[156 + i] == b[i] == b[1..101][i - 1];
    assert forall i :: 173 <= i < 356 ==> h[156 + i] == b[i] == b[173..356][i - 173];
    forall i | 157 <= i < 257 ensures h[i] == 0 { assert h[156 + (i - 156)] == b[i - 156]; }
    forall i | 329 <= i < 512 ensures h[i] == 0 { assert h[156 + (i - 156)] == b[i - 156]; }
  }

  lemma RootField(h: seq<Byte>, at: nat)
    requires at + 32 <= |h| && h[at..at + 32] == Padded(ROOT, 32)
    ensures h[at..at + 4] == [114, 111, 111, 116] && h[at + 4] == 0
  {
    var p := Padded(ROOT, 32);
    assert h[at..at + 4] == p[..4] && h[at + 4] == p[4];
  }

  lemma ComposedSum(name: seq<Byte>, kind: Kind, size: nat)
    requires |name| <= 99
    ensures
      var h := Compose(name, kind, size);
      Holds(h[148..156], ByteSum(h[..148] + seq(8, i => 32) + h[156..]))
  {
    hide Digits, Checksum, Holds, ByteSum, Front, Back;
    var h := Compose(name, kind, size);
    var sum := Checksum(Raw(name, kind, size, Nul(8)));
    var chksum := Padded(Digits(sum, 7), 8);
    SameSum(name, kind, size, chksum);
    ChecksumIsPlain(h);
    PaddedDigits(sum, 7);
    FieldHolds(sum, 7);
    Middle(Front(name, kind, size), chksum, Back(kind));
  }

  // ----------------------------------------------------------------- parsing

  /** The number in the checksum field is the checksum. */
  ghost predicate SumRight(h: seq<Byte>)
    requires |h| == 512
  {
    Holds(h[148..156], ByteSum(h[..148] + seq(8, i => 32) + h[156..]))
  }

  /** ustar_parse_header accepts a header as a file exactly when magic, version,
      checksum, name, type and, of a regular file, size are right; what it returns
      are those. */
  lemma AcceptsExactly(h: seq<Byte>, name: seq<Byte>, kind: Kind, size: nat)
    requires |h| == 512
    ensures Parse(h) == File(name, kind, size) <==>
      && h[257..263] == [117, 115, 116, 97, 114, 0] && h[263..265] == [48, 48]
      && SumRight(h)
      && h[99] == 0 && h[345] == 0
      && h[156] == (if kind == Regular then 48 else 53)
      && (if kind == Regular then size < 0x8000_0000 && Holds(h[124..136], size) else size == 0)
      && name == Strip(CString(h[0..100]))
  {
    SumReads(h);
    ParsesExactly(h[124..136], size);
    hide Checksum, ParseOctal, CString, Strip, Holds, SumRight;
    if h[257..263] == [117, 115, 116, 97, 114, 0] { assert h[257] == h[257..263][0]; }
  }

  lemma SumReads(h: seq<Byte>)
    requires |h| == 512
    ensures SumRight(h) <==> ParseOctal(h[148..156]) == Some(Checksum(h))
  {
    ChecksumIsPlain(h);
    ParsesExactly(h[148..156], Checksum(h));
    PowersOfEight();
    hide Checksum, ParseOctal;
  }

  /** Which failure is reported: the first check that fails, in the order magic,
      version, checksum field, checksum, name, type, size. */
  lemma RejectsFirst(h: seq<Byte>)
    requires |h| == 512
    ensures Parse(h) == EndOfArchive <==> forall i :: 0 <= i < 512 ==> h[i] == 0
    ensures !AllZero(h) ==>
      var magic, version := h[257..263] == [117, 115, 116, 97, 114, 0], h[263..265] == [48, 48];
      var number := exists v: nat :: v < W32 && Holds(h[148..156], v);
      var sum, named := SumRight(h), h[99] == 0 && h[345] == 0;
      && (Parse(h) == Failed(NotUstar) <==> !magic)
      && (Parse(h) == Failed(BadVersion) <==> magic && !version)
      && (Parse(h) == Failed(CorruptChksum) <==> magic && version && !number)
      && (Parse(h) == Failed(Mismatch) <==> magic && version && number && !sum)
      && (Parse(h) == Failed(NameTooLong) <==> magic && version && sum && !named)
      && (Parse(h) == Failed(BadType) <==> magic && version && sum && named && h[156] != 48 && h[156] != 53)
      && (Parse(h) == Failed(CorruptSize) <==>
            magic && version && sum && named && h[156] == 48 && forall v: nat :: v < W32 ==> !Holds(h[124..136], v))
      && (Parse(h) == Failed(TooLarge) <==>
            magic && version && sum && named && h[156] == 48
            && exists v: nat :: 0x8000_0000 <= v < W32 && Holds(h[124..136], v))
  {
    SumReads(h);
    NumberReads(h[148..156]);
    NumberReads(h[124..136]);
    hide Checksum, ParseOctal, CString, Strip, Holds, SumRight;
  }

  lemma NumberReads(s: seq<Byte>)
    ensures ParseOctal(s).Some? <==> exists v: nat :: v < W32 && Holds(s, v)
    ensures ParseOctal(s).Some? ==> ParseOctal(s).value < W32 && Holds(s, ParseOctal(s).value)
    ensures forall v: nat :: v < W32 && Holds(s, v) ==> ParseOctal(s) == Some(v)
  {
    hide ParseOctal, Holds;
    forall v: nat ensures ParseOctal(s) == Some(v) <==> v < W32 && Holds(s, v) {
      ParsesExactly(s, v);
    }
  }

  // --------------------------------------------------------------- file names

  /** strip_antisocial_prefixes takes off one leading "/", "./" or "../" after the
      other ... */
  lemma StripsPrefixes(s: seq<Byte>)
    ensures Strip([47] + s) == Strip(s) && Strip([46, 47] + s) == Strip(s) && Strip([46, 46, 47] + s) == Strip(s)
  {
    assert ([47] + s)[1..] == s;
    assert ([46, 47] + s)[1..] == [47] + s;
    assert ([46, 46, 47] + s)[1..] == [46, 47] + s;
    assert ([46, 47] + s)[..2] == [46, 47] && ([46, 46, 47] + s)[..3] == [46, 46, 47];
  }

  /** ... and leaves any other name alone, except that the empty name and ".."
      become ".". */
  lemma StripsNothingElse(s: seq<Byte>)
    requires !(|s| >= 1 && s[0] == 47) && !(|s| >= 2 && s[..2] == [46, 47]) && !(|s| >= 3 && s[..3] == [46, 46, 47])
    ensures Strip(s) == if s == [] || s == [46, 46] then [46] else s
  {
  }
}
