/** lib/ustar.c: composing and parsing ustar archive headers. */
module Ustar {
  import opened Prelude
  import opened Arithmetic
  import opened Strings
  import opened Octal

  const HEADER_SIZE := 512
  /** Offset and size of the checksum field. */
  const CHKSUM := 148
  const CHKSUM_END := 156

  datatype Kind = Regular | Directory

  function TypeFlag(k: Kind): (r: Byte) { if k == Regular then 48 else 53 }

  datatype Error = NotUstar | BadVersion | CorruptChksum | Mismatch | NameTooLong | BadType | CorruptSize | TooLarge

  datatype Parsed = EndOfArchive | File(name: seq<Byte>, kind: Kind, size: nat) | Failed(error: Error)

  // ------------------------------------------------------------- file names

  const SLASH: Byte := 47
  const DOT: Byte := 46

  predicate Antisocial(s: seq<Byte>) {
    || (|s| >= 1 && s[0] == SLASH)
    || (|s| >= 2 && s[..2] == [DOT, SLASH])
    || (|s| >= 3 && s[..3] == [DOT, DOT, SLASH])
  }

  /** strchr (s, '/') + 1. */
  function BehindSlash(s: seq<Byte>): (r: seq<Byte>)
    ensures s != [] ==> |r| < |s|
  {
    if s == [] then [] else if s[0] == SLASH then s[1..] else BehindSlash(s[1..])
  }

  function StripLoop(s: seq<Byte>): (r: seq<Byte>)
    decreases |s|
  {
    if Antisocial(s) then StripLoop(BehindSlash(s)) else s
  }

  /** strip_antisocial_prefixes. */
  function Strip(s: seq<Byte>): (r: seq<Byte>) {
    var t := StripLoop(s);
    if t == [] || t == [DOT, DOT] then [DOT] else t
  }

  predicate IsSuffix(t: seq<Byte>, s: seq<Byte>) {
    |t| <= |s| && s[|s| - |t|..] == t
  }

  lemma {:induction false} BehindSlashSuffix(s: seq<Byte>)
    ensures IsSuffix(BehindSlash(s), s)
  {
    if s != [] && s[0] != SLASH {
      BehindSlashSuffix(s[1..]);
      var t := BehindSlash(s[1..]);
      assert s[1..][|s| - 1 - |t|..] == s[|s| - |t|..];
    }
  }

  lemma {:induction false} StripLoopSpec(s: seq<Byte>)
    ensures !Antisocial(StripLoop(s)) && IsSuffix(StripLoop(s), s)
    decreases |s|
  {
    if Antisocial(s) {
      var t := BehindSlash(s);
      BehindSlashSuffix(s);
      StripLoopSpec(t);
      var u := StripLoop(t);
      assert s[|s| - |u|..] == t[|t| - |u|..];
    }
  }

  /** A stripped name is relative, does not start by climbing out, and stripping
      it again changes nothing. */
  lemma StripSafe(s: seq<Byte>)
    ensures
      var t := Strip(s);
      && t != [] && !Antisocial(t) && t != [DOT, DOT]
      && (t == [DOT] || IsSuffix(t, s))
      && Strip(t) == t
  {
    StripLoopSpec(s);
    assert !Antisocial([DOT]);
  }

  lemma StripString(s: seq<Byte>)
    requires IsString(s)
    ensures IsString(Strip(s))
  {
    StripLoopSpec(s);
    var t := StripLoop(s);
    forall k | 0 <= k < |t| ensures t[k] != 0 {
      assert s[|s| - |t|..][k] == s[|s| - |t| + k];
    }
  }

  method StripPrefixes(s: seq<Byte>) returns (r: seq<Byte>)
    ensures r == Strip(s)
  {
    r := s;
    while Antisocial(r)
      invariant StripLoop(r) == StripLoop(s)
      decreases |r|
    {
      r := BehindSlash(r);
    }
    if r == [] || r == [DOT, DOT] { r := [DOT]; }
  }

  // ---------------------------------------------------------------- checksum

  /** A byte of the header as the checksum counts it. */
  function Weight(h: seq<Byte>, i: nat): (r: nat)
    requires i < |h|
  {
    if CHKSUM <= i < CHKSUM_END then SPACE else h[i]
  }

  function SumFrom(h: seq<Byte>, n: nat): (r: nat)
    requires n <= |h|
    ensures r <= 255 * n
  {
    if n == 0 then 0 else SumFrom(h, n - 1) + Weight(h, n - 1)
  }

  function Checksum(h: seq<Byte>): (r: nat)
    requires |h| == HEADER_SIZE
    ensures r < Pow8(7)
  {
    assert Pow8(3) == 512 && Pow8(6) == 512 * Pow8(3);
    SumFrom(h, HEADER_SIZE)
  }

  /** The sum of some bytes. */
  ghost function ByteSum(s: seq<Byte>): (r: nat) {
    if s == [] then 0 else ByteSum(s[..|s| - 1]) + s[|s| - 1]
  }

  /** A header with spaces for its checksum. */
  ghost function Spaced(h: seq<Byte>): (r: seq<Byte>)
    requires |h| == 512
    ensures |r| == 512
  {
    h[..148] + seq(8, i => 32) + h[156..]
  }

  lemma {:induction false} SumIsPlain(h: seq<Byte>, n: nat)
    requires |h| == 512 && n <= 512
    ensures SumFrom(h, n) == ByteSum(Spaced(h)[..n])
    decreases n
  {
    if n > 0 {
      SumIsPlain(h, n - 1);
      assert Spaced(h)[..n][..n - 1] == Spaced(h)[..n - 1];
    }
  }

  /** The checksum is the sum of all bytes of the header, with the eight bytes of
      the checksum field counted as spaces. */
  lemma ChecksumIsPlain(h: seq<Byte>)
    requires |h| == 512
    ensures Checksum(h) == ByteSum(h[..148] + seq(8, i => 32) + h[156..])
  {
    SumIsPlain(h, 512);
    assert Spaced(h)[..512] == Spaced(h);
  }

  /** calculate_chksum. */
  method CalculateChksum(h: seq<Byte>) returns (chksum: nat)
    requires |h| == HEADER_SIZE
    ensures chksum == Checksum(h) == ByteSum(h[..148] + seq(8, i => 32) + h[156..])
  {
    ChecksumIsPlain(h);
    chksum := 0;
    var i := 0;
    while i < HEADER_SIZE
      invariant 0 <= i <= HEADER_SIZE && chksum == SumFrom(h, i)
    {
      var inField := i >= CHKSUM && i < CHKSUM_END;
      chksum := chksum + if inField then SPACE else h[i];
      i := i + 1;
    }
  }

  /** The checksum does not depend on its own field. */
  lemma {:induction false} SumIgnoresField(g: seq<Byte>, h: seq<Byte>, n: nat)
    requires n <= |g| == |h|
    requires forall i :: 0 <= i < n && !(CHKSUM <= i < CHKSUM_END) ==> g[i] == h[i]
    ensures SumFrom(g, n) == SumFrom(h, n)
  {
    if n > 0 { SumIgnoresField(g, h, n - 1); }
  }

  /** Changing one other byte changes the checksum by the difference. */
  lemma {:induction false} SumChanges(h: seq<Byte>, i: nat, b: Byte, n: nat)
    requires i < |h| && n <= |h| && !(CHKSUM <= i < CHKSUM_END)
    ensures SumFrom(h[i := b], n) == SumFrom(h, n) + if i < n then b - h[i] else 0
  {
    if n > 0 { SumChanges(h, i, b, n - 1); }
  }

  // ----------------------------------------------------------------- compose

  function Nul(n: nat): (r: seq<Byte>)
    ensures |r| == n
  {
    seq(n, i => 0)
  }

  /** strlcpy or snprintf into a zeroed field of n bytes. */
  function Padded(s: seq<Byte>, n: nat): (r: seq<Byte>)
    requires |s| <= n
    ensures |r| == n
  {
    s + Nul(n - |s|)
  }

  const ROOT: seq<Byte> := [114, 111, 111, 116]
  /** "ustar" with its terminating zero. */
  const MAGIC: seq<Byte> := [117, 115, 116, 97, 114, 0]
  const VERSION: seq<Byte> := [48, 48]
  const MTIME := 1136102400

  /** int size as the unsigned argument of %o. */
  function Unsigned(size: int): (r: nat)
    requires -W31 <= size < W31
  {
    if size < 0 then size + W32 else size
  }

  /** Permissions 0644 for a file, 0755 for a directory. */
  function Mode(k: Kind): (r: nat) { if k == Regular then 420 else 493 }

  /** name, mode, uid, gid, size and mtime. */
  function Front(name: seq<Byte>, kind: Kind, size: nat): (r: seq<Byte>)
    requires |name| <= 99
    ensures |r| == CHKSUM
  {
    (Padded(name, 100) + Padded(Digits(Mode(kind), 7), 8) + Padded(Zeros(7), 8) + Padded(Zeros(7), 8))
    + Padded(Digits(size, 11), 12) + Padded(Digits(MTIME, 11), 12)
  }

  /** typeflag and linkname; then magic and version; then the rest. */
  function Back(kind: Kind): (r: seq<Byte>)
    ensures |r| == HEADER_SIZE - CHKSUM_END
  {
    ([TypeFlag(kind)] + Nul(100)) + MAGIC + VERSION + (Padded(ROOT, 32) + Padded(ROOT, 32) + Nul(16)) + Nul(155) + Nul(12)
  }

  function Raw(name: seq<Byte>, kind: Kind, size: nat, chksum: seq<Byte>): (h: seq<Byte>)
    requires |name| <= 99 && |chksum| == 8
    ensures |h| == HEADER_SIZE
  {
    Front(name, kind, size) + chksum + Back(kind)
  }

  /** ustar_make_header, for a name already stripped. */
  function Compose(name: seq<Byte>, kind: Kind, size: nat): (h: seq<Byte>)
    requires |name| <= 99
    ensures |h| == HEADER_SIZE
  {
    Raw(name, kind, size, Padded(Digits(Checksum(Raw(name, kind, size, Nul(8))), 7), 8))
  }

  method MakeHeader(fileName: seq<Byte>, kind: Kind, size: int) returns (r: Option<seq<Byte>>)
    requires IsString(fileName) && -W31 <= size < W31
    ensures r == if |Strip(fileName)| > 99 then None else Some(Compose(Strip(fileName), kind, Unsigned(size)))
  {
    hide Checksum, Digits;
    var name := StripPrefixes(fileName);
    if |name| > 99 { return None; }
    PowersOfEight();
    var mode := FormatOctal(Mode(kind), 7);
    var octets := FormatOctal(Unsigned(size), 11);
    var mtime := FormatOctal(MTIME, 11);
    var front := (Padded(name, 100) + Padded(mode, 8) + Padded(Zeros(7), 8) + Padded(Zeros(7), 8))
      + Padded(octets, 12) + Padded(mtime, 12);
    var h := front + Nul(8) + Back(kind);
    var sum := CalculateChksum(h);
    var chksum := FormatOctal(sum, 7);
    return Some(front + Padded(chksum, 8) + Back(kind));
  }

  lemma PowersOfEight()
    ensures Pow8(7) == 2097152 && Pow8(11) == 2 * W32
  {
    assert Pow8(3) == 512;
    assert Pow8(7) == 4096 * Pow8(3);
    assert Pow8(11) == 4096 * Pow8(7);
  }

  // ------------------------------------------------------------------- parse

  function Field(h: seq<Byte>, at: nat, n: nat): (r: seq<Byte>)
    requires at + n <= |h|
    ensures |r| == n
  {
    h[at..at + n]
  }

  predicate AllZero(h: seq<Byte>) {
    forall i :: 0 <= i < |h| ==> h[i] == 0
  }

  /** ustar_parse_header. */
  function Parse(h: seq<Byte>): (r: Parsed)
    requires |h| == HEADER_SIZE
  {
    var chksum := ParseOctal(Field(h, CHKSUM, 8));
    if AllZero(h) then EndOfArchive
    else if Field(h, 257, 6) != MAGIC then Failed(NotUstar)
    else if Field(h, 263, 2) != VERSION then Failed(BadVersion)
    else if chksum.None? then Failed(CorruptChksum)
    else if chksum.value != Checksum(h) then Failed(Mismatch)
    else if h[99] != 0 || h[345] != 0 then Failed(NameTooLong)
    else if h[156] == TypeFlag(Regular) then
      var size := ParseOctal(Field(h, 124, 12));
      if size.None? then Failed(CorruptSize)
      else if size.value >= W31 then Failed(TooLarge)
      else File(Strip(CString(Field(h, 0, 100))), Regular, size.value)
    else if h[156] == TypeFlag(Directory) then File(Strip(CString(Field(h, 0, 100))), Directory, 0)
    else Failed(BadType)
  }

  /** is_all_zeros. */
  method IsAllZeros(block: seq<Byte>) returns (r: bool)
    ensures r == AllZero(block)
  {
    var i := 0;
    while i < |block|
      invariant 0 <= i <= |block| && forall k :: 0 <= k < i ==> block[k] == 0
    {
      if block[i] != 0 { return false; }
      i := i + 1;
    }
    return true;
  }

  method ParseHeader(h: seq<Byte>) returns (r: Parsed)
    requires |h| == HEADER_SIZE
    ensures r == Parse(h)
  {
    hide Checksum, ParseOctal, CString, Strip;
    var zeros := IsAllZeros(h);
    if zeros { return EndOfArchive; }
    if h[257..263] != MAGIC { return Failed(NotUstar); }
    if h[263] != 48 || h[264] != 48 {
      assert Field(h, 263, 2) == [h[263], h[264]];
      return Failed(BadVersion);
    }
    assert Field(h, 263, 2) == [h[263], h[264]];
    var chksum := ParseOctalField(h[CHKSUM..CHKSUM_END]);
    if chksum.None? { return Failed(CorruptChksum); }
    var sum := CalculateChksum(h);
    if chksum.value != sum { return Failed(Mismatch); }
    if h[99] != 0 || h[345] != 0 { return Failed(NameTooLong); }
    if h[156] != TypeFlag(Regular) && h[156] != TypeFlag(Directory) { return Failed(BadType); }
    var size := Some(0);
    if h[156] == TypeFlag(Regular) {
      size := ParseOctalField(h[124..136]);
      if size.None? { return Failed(CorruptSize); }
      if size.value >= W31 { return Failed(TooLarge); }
    }
    var name := StripPrefixes(CString(h[0..100]));
    return File(name, if h[156] == TypeFlag(Regular) then Regular else Directory, size.value);
  }

  // -------------------------------------------------------------- round trip

  lemma Middle(a: seq<Byte>, x: seq<Byte>, b: seq<Byte>)
    ensures (a + x + b)[|a|..|a| + |x|] == x
  {
  }

  lemma SliceBehind(a: seq<Byte>, b: seq<Byte>, i: nat, n: nat)
    requires i + n <= |b|
    ensures (a + b)[|a| + i..|a| + i + n] == b[i..i + n]
  {
  }

  lemma FrontFields(name: seq<Byte>, kind: Kind, size: nat)
    requires |name| <= 99
    ensures
      var f := Front(name, kind, size);
      f[0..100] == Padded(name, 100) && f[124..136] == Padded(Digits(size, 11), 12) && f[99] == 0
  {
    hide Digits;
    var f := Front(name, kind, size);
    var ids := Padded(Digits(Mode(kind), 7), 8) + Padded(Zeros(7), 8) + Padded(Zeros(7), 8);
    assert Padded(name, 100) + Padded(Digits(Mode(kind), 7), 8) + Padded(Zeros(7), 8) + Padded(Zeros(7), 8)
      == Padded(name, 100) + ids;
    Middle(Padded(name, 100) + ids, Padded(Digits(size, 11), 12), Padded(Digits(MTIME, 11), 12));
    assert f[0..100] == Padded(name, 100);
    assert f[99] == f[0..100][99];
  }

  lemma BackFields(kind: Kind)
    ensures
      var b := Back(kind);
      b[0] == TypeFlag(kind) && b[101..107] == MAGIC && b[107..109] == VERSION && b[189] == 0
  {
    var b := Back(kind);
    var first := [TypeFlag(kind)] + Nul(100);
    var owners := Padded(ROOT, 32) + Padded(ROOT, 32) + Nul(16);
    assert b == first + MAGIC + (VERSION + owners + Nul(155) + Nul(12));
    Middle(first, MAGIC, VERSION + owners + Nul(155) + Nul(12));
    assert b == (first + MAGIC) + VERSION + (owners + Nul(155) + Nul(12));
    Middle(first + MAGIC, VERSION, owners + Nul(155) + Nul(12));
    assert b == (first + MAGIC + VERSION + owners) + Nul(155) + Nul(12);
    Middle(first + MAGIC + VERSION + owners, Nul(155), Nul(12));
    assert b[189] == b[189..344][0];
  }

  lemma RawFields(name: seq<Byte>, kind: Kind, size: nat, chksum: seq<Byte>)
    requires |name| <= 99 && |chksum| == 8
    ensures
      var h := Raw(name, kind, size, chksum);
      && Field(h, 0, 100) == Padded(name, 100) && h[99] == 0
      && Field(h, 124, 12) == Padded(Digits(size, 11), 12)
      && Field(h, CHKSUM, 8) == chksum
      && h[156] == TypeFlag(kind) && h[345] == 0
      && Field(h, 257, 6) == MAGIC && Field(h, 263, 2) == VERSION
  {
    FrontFields(name, kind, size);
    BackFields(kind);
    hide Digits, Front, Back, Padded;
    var f, b := Front(name, kind, size), Back(kind);
    var h := f + chksum + b;
    Middle(f, chksum, b);
    assert h[0..100] == f[0..100] && h[124..136] == f[124..136];
    SliceBehind(f + chksum, b, 101, 6);
    SliceBehind(f + chksum, b, 107, 2);
  }

  lemma PaddedDigits(v: nat, w: nat)
    ensures Padded(Digits(v, w), w + 1) == Digits(v, w) + [0]
  {
    assert Nul(1) == [0];
  }

  lemma PaddedName(name: seq<Byte>)
    requires |name| <= 99 && IsString(name)
    ensures CString(Padded(name, 100)) == name
  {
    assert Padded(name, 100) == name + [0] + Nul(99 - |name|);
    CStringStops(name, Nul(99 - |name|));
  }

  /** Parsing a composed header gives back name, type and size; a size above
      INT_MAX, which only a negative int makes, is reported as too large. */
  lemma ParseCompose(name: seq<Byte>, kind: Kind, size: nat)
    requires |name| <= 99 && IsString(name) && Strip(name) == name && size < W32
    ensures
      Parse(Compose(name, kind, size)) ==
      if kind == Directory then File(name, Directory, 0)
      else if size >= W31 then Failed(TooLarge)
      else File(name, Regular, size)
  {
    PowersOfEight();
    var blank := Raw(name, kind, size, Nul(8));
    var sum := Checksum(blank);
    var chksum := Padded(Digits(sum, 7), 8);
    var h := Compose(name, kind, size);
    PaddedDigits(sum, 7);
    PaddedDigits(size, 11);
    OctalRoundTrip(sum, 7);
    OctalRoundTrip(size, 11);
    PaddedName(name);
    RawFields(name, kind, size, chksum);
    SameSum(name, kind, size, chksum);
    hide Digits, Raw, ParseOctal, CString, Strip, Padded, Checksum, Compose;
    assert h[156] != 0;
  }

  lemma SameSum(name: seq<Byte>, kind: Kind, size: nat, chksum: seq<Byte>)
    requires |name| <= 99 && |chksum| == 8
    ensures Checksum(Raw(name, kind, size, chksum)) == Checksum(Raw(name, kind, size, Nul(8)))
  {
    hide Front, Back;
    SumIgnoresField(Raw(name, kind, size, chksum), Raw(name, kind, size, Nul(8)), HEADER_SIZE);
  }

  /** ustar_make_header followed by ustar_parse_header. */
  lemma RoundTrip(fileName: seq<Byte>, kind: Kind, size: nat)
    requires IsString(fileName) && |Strip(fileName)| <= 99 && size < W31
    ensures
      Parse(Compose(Strip(fileName), kind, size)) ==
      File(Strip(fileName), kind, if kind == Regular then size else 0)
  {
    StripSafe(fileName);
    StripString(fileName);
    hide Strip, Parse, Compose;
    ParseCompose(Strip(fileName), kind, size);
  }

  /** A change of any one byte outside the checksum field of a good header is
      noticed. */
  lemma OneByteNoticed(h: seq<Byte>, i: nat, b: Byte)
    requires |h| == HEADER_SIZE && Parse(h).File? && i < HEADER_SIZE && !(CHKSUM <= i < CHKSUM_END) && b != h[i]
    ensures Parse(h[i := b]).Failed?
  {
    var g := h[i := b];
    SumChanges(h, i, b, HEADER_SIZE);
    assert Field(g, CHKSUM, 8) == Field(h, CHKSUM, 8);
    FirstDigit(h);
    assert g[CHKSUM] == h[CHKSUM];
    hide ParseOctal, CString, Strip, SumFrom;
  }

  /** A checksum field that parses does not start with a zero byte. */
  lemma FirstDigit(h: seq<Byte>)
    requires |h| == HEADER_SIZE && ParseOctal(Field(h, CHKSUM, 8)).Some?
    ensures h[CHKSUM] != 0
  {
    assert Field(h, CHKSUM, 8)[0] == h[CHKSUM];
  }

  /** A change inside the checksum field goes unnoticed exactly if the field
      still stands for the same number. */
  lemma ChecksumFieldChange(h: seq<Byte>, i: nat, b: Byte)
    requires |h| == HEADER_SIZE && Parse(h).File? && CHKSUM <= i < CHKSUM_END
    ensures Parse(h[i := b]).File? <==> ParseOctal(Field(h[i := b], CHKSUM, 8)) == ParseOctal(Field(h, CHKSUM, 8))
    ensures Parse(h[i := b]).File? ==> Parse(h[i := b]) == Parse(h)
  {
    var g := h[i := b];
    SumIgnoresField(g, h, HEADER_SIZE);
    assert Field(g, 257, 6) == Field(h, 257, 6) && Field(g, 263, 2) == Field(h, 263, 2);
    assert Field(g, 0, 100) == Field(h, 0, 100) && Field(g, 124, 12) == Field(h, 124, 12);
    assert g[257] == Field(h, 257, 6)[0] == 117;
    hide ParseOctal, CString, Strip, SumFrom;
  }

  // ---------------------------------------------------------- other fields

  lemma FrontNumbers(name: seq<Byte>, kind: Kind, size: nat)
    requires |name| <= 99
    ensures
      var f := Front(name, kind, size);
      && f[100..108] == Padded(Digits(Mode(kind), 7), 8) && f[108..116] == Padded(Zeros(7), 8)
      && f[116..124] == Padded(Zeros(7), 8) && f[136..148] == Padded(Digits(MTIME, 11), 12)
  {
    hide Digits;
    var f := Front(name, kind, size);
    var a, m, z := Padded(name, 100), Padded(Digits(Mode(kind), 7), 8), Padded(Zeros(7), 8);
    var s, t := Padded(Digits(size, 11), 12), Padded(Digits(MTIME, 11), 12);
    Middle(a, m, z + z + s + t);
    assert f == a + m + (z + z + s + t);
    Middle(a + m, z, z + s + t);
    assert f == (a + m) + z + (z + s + t);
    Middle(a + m + z, z, s + t);
    assert f == (a + m + z) + z + (s + t);
    Middle(a + m + z + z + s, t, []);
    assert f == (a + m + z + z + s) + t + [];
  }

  lemma BackNames(kind: Kind)
    ensures
      var b := Back(kind);
      && b[1..101] == Nul(100) && b[109..141] == Padded(ROOT, 32) && b[141..173] == Padded(ROOT, 32)
      && b[173..356] == Nul(183)
  {
    var b := Back(kind);
    var first, p := [TypeFlag(kind)] + Nul(100), Padded(ROOT, 32);
    assert b == [TypeFlag(kind)] + Nul(100) + (MAGIC + VERSION + p + p + Nul(183));
    Middle([TypeFlag(kind)], Nul(100), MAGIC + VERSION + p + p + Nul(183));
    assert b == (first + MAGIC + VERSION) + p + (p + Nul(183));
    Middle(first + MAGIC + VERSION, p, p + Nul(183));
    assert b == (first + MAGIC + VERSION + p) + p + Nul(183);
    Middle(first + MAGIC + VERSION + p, p, Nul(183));
    Middle(first + MAGIC + VERSION + p + p, Nul(183), []);
    assert b == (first + MAGIC + VERSION + p + p) + Nul(183) + [];
  }

  /** The fields that the parser of the source does not look at, read back:
      permissions, owner and group 0, the fixed time, and "root" twice. */
  lemma OtherFields(name: seq<Byte>, kind: Kind, size: nat)
    requires |name| <= 99
    ensures
      var h := Compose(name, kind, size);
      && ParseOctal(Field(h, 100, 8)) == Some(Mode(kind))
      && ParseOctal(Field(h, 108, 8)) == Some(0) == ParseOctal(Field(h, 116, 8))
      && ParseOctal(Field(h, 136, 12)) == Some(MTIME)
      && CString(Field(h, 265, 32)) == ROOT == CString(Field(h, 297, 32))
      && Field(h, 157, 100) == Nul(100) && Field(h, 329, 183) == Nul(183)
  {
    PowersOfEight();
    FrontNumbers(name, kind, size);
    BackNames(kind);
    DigitsOfZero(7);
    PaddedDigits(Mode(kind), 7);
    PaddedDigits(0, 7);
    PaddedDigits(MTIME, 11);
    OctalRoundTrip(Mode(kind), 7);
    OctalRoundTrip(0, 7);
    OctalRoundTrip(MTIME, 11);
    CStringStops(ROOT, Nul(27));
    assert Padded(ROOT, 32) == ROOT + [0] + Nul(27);
    hide Digits, Front, Back, Padded, ParseOctal, CString, Checksum, Zeros, Nul;
    var f, b := Front(name, kind, size), Back(kind);
    var chksum := Padded(Digits(Checksum(Raw(name, kind, size, Nul(8))), 7), 8);
    OuterFields(f, chksum, b);
  }

  lemma OuterFields(f: seq<Byte>, c: seq<Byte>, b: seq<Byte>)
    requires |f| == CHKSUM && |c| == 8 && |b| == HEADER_SIZE - CHKSUM_END
    ensures
      var h := f + c + b;
      && h[100..108] == f[100..108] && h[108..116] == f[108..116] && h[116..124] == f[116..124]
      && h[136..148] == f[136..148] && h[265..297] == b[109..141] && h[297..329] == b[141..173]
      && h[157..257] == b[1..101] && h[329..512] == b[173..356]
  {
    SliceBehind(f + c, b, 109, 32);
    SliceBehind(f + c, b, 141, 32);
    SliceBehind(f + c, b, 1, 100);
    SliceBehind(f + c, b, 173, 183);
  }
}
