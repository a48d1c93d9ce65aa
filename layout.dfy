/**
 * The byte layout of the SLHA binary store (src/binaryUtil/BinaryParser.java):
 * big-endian ints, longs and UTF-16 chars as ByteBuffer and RandomAccessFile
 * write them, the 16-byte header, the 110-byte variable entries, the 62-byte
 * file entries, and the file itself as a byte sequence that queued writes are
 * applied to in order.
 */
module Layout {
  import opened Wrappers
  import opened JavaStrings
  import opened Variables

  newtype byte = x: int | 0 <= x < 256

  const HeaderSize: int := 16
  const VariableBinarySize: int := 110
  const FileBinarySize: int := 62
  const VarBlockMaxChars: nat := 20
  const VarDescMaxChars: nat := 25
  const FileNameMaxChars: nat := 25
  const InitialAvailableVariables: int := 150
  const InitialAvailableFiles: int := 2000

  /** The raw bits of Double.MAX_VALUE, the sentinel for a missing value. */
  const MaxValueBits: nat := 0x7FEF_FFFF_FFFF_FFFF

  // ------------------------------------------------------------ locations

  /** Where variable entry i starts: the variable table follows the header. */
  function VarEntryAt(i: int): int { HeaderSize + VariableBinarySize * i }

  /** Where file entry i starts: the file table follows availableVars variable entries. */
  function FileEntryAt(availableVars: int, i: int): int {
    HeaderSize + VariableBinarySize * availableVars + FileBinarySize * i
  }

  /** Where the data matrix starts: after availableFiles file entries. */
  function DataStart(availableVars: int, availableFiles: int): int {
    FileEntryAt(availableVars, availableFiles)
  }

  // ------------------------------------------------------- big-endian codec

  function Pow256(n: nat): (r: nat)
    ensures r > 0
  {
    if n == 0 then 1 else 256 * Pow256(n - 1)
  }

  /** The low n bytes of x, most significant first. */
  function BigEndian(x: nat, n: nat): (r: seq<byte>)
    ensures |r| == n
  {
    if n == 0 then [] else BigEndian(x / 256, n - 1) + [(x % 256) as byte]
  }

  /** The number a big-endian byte sequence spells. */
  function Unsigned(bs: seq<byte>): (r: nat)
    ensures r < Pow256(|bs|)
  {
    if |bs| == 0 then 0
    else
      var r := Unsigned(bs[..|bs| - 1]) * 256 + bs[|bs| - 1] as int;
      assert Unsigned(bs[..|bs| - 1]) + 1 <= Pow256(|bs| - 1);
      assert r < (Unsigned(bs[..|bs| - 1]) + 1) * 256;
      r
  }

  lemma {:induction false} UnsignedBigEndian(x: nat, n: nat)
    requires x < Pow256(n)
    ensures Unsigned(BigEndian(x, n)) == x
  {
    if n > 0 {
      assert x / 256 < Pow256(n - 1);
      UnsignedBigEndian(x / 256, n - 1);
      var r := BigEndian(x, n);
      assert r[..|r| - 1] == BigEndian(x / 256, n - 1);
    }
  }

  lemma {:induction false} BigEndianUnsigned(bs: seq<byte>)
    ensures BigEndian(Unsigned(bs), |bs|) == bs
  {
    if |bs| > 0 {
      var u := Unsigned(bs[..|bs| - 1]);
      BigEndianUnsigned(bs[..|bs| - 1]);
      assert (u * 256 + bs[|bs| - 1] as int) / 256 == u;
      assert (u * 256 + bs[|bs| - 1] as int) % 256 == bs[|bs| - 1] as int;
    }
  }

  /** ByteBuffer.putInt / putLong: the two's-complement value in n bytes. */
  function EncodeSigned(x: int, n: nat): (r: seq<byte>)
    ensures |r| == n
  {
    BigEndian(x % Pow256(n), n)
  }

  /** ByteBuffer.getInt / RandomAccessFile.readLong and the like: n bytes read back as a signed value. */
  function DecodeSigned(bs: seq<byte>): int {
    var u := Unsigned(bs);
    if 2 * u >= Pow256(|bs|) then u - Pow256(|bs|) else u
  }

  predicate FitsSigned(x: int, n: nat) {
    -(Pow256(n) as int) <= 2 * x < Pow256(n)
  }

  lemma SignedRoundTrip(x: int, n: nat)
    requires FitsSigned(x, n)
    ensures DecodeSigned(EncodeSigned(x, n)) == x
  {
    var p := Pow256(n);
    if x >= 0 {
      ModOfSmall(x, p);
      UnsignedBigEndian(x, n);
    } else {
      ModOfNegative(x, p);
      UnsignedBigEndian(x + p, n);
    }
  }

  lemma ModOfSmall(x: int, p: int)
    requires 0 <= x < p
    ensures x % p == x
  {
  }

  lemma ModOfNegative(x: int, p: int)
    requires -p <= x < 0
    ensures x % p == x + p
  {
    assert (x + p) % p == x % p;
  }

  lemma Pow256Widths()
    ensures Pow256(2) == 0x1_0000
    ensures Pow256(4) == 0x1_0000_0000
    ensures Pow256(8) == 0x1_0000_0000_0000_0000
  {
    assert Pow256(1) == 256;
    assert Pow256(3) == 0x100_0000;
    assert Pow256(5) == 0x100_0000_0000;
    assert Pow256(6) == 0x1_0000_0000_0000;
    assert Pow256(7) == 0x100_0000_0000_0000;
  }

  function EncodeInt(x: int): (r: seq<byte>)
    ensures |r| == 4
  {
    EncodeSigned(x, 4)
  }

  function EncodeLong(x: int): (r: seq<byte>)
    ensures |r| == 8
  {
    EncodeSigned(x, 8)
  }

  /** putInt followed by getInt gives back every int. */
  lemma IntRoundTrip(x: int)
    requires IsInt32(x)
    ensures DecodeSigned(EncodeInt(x)) == x
  {
    Pow256Widths();
    SignedRoundTrip(x, 4);
  }

  predicate IsInt64(x: int) { -0x8000_0000_0000_0000 <= x < 0x8000_0000_0000_0000 }

  lemma LongRoundTrip(x: int)
    requires IsInt64(x)
    ensures DecodeSigned(EncodeLong(x)) == x
  {
    Pow256Widths();
    SignedRoundTrip(x, 8);
  }

  // ---------------------------------------------------------------- chars

  /**
   * The UTF-16 code unit putChar writes for a char. Chars outside the Basic
   * Multilingual Plane are written as U+FFFD here.
   */
  function CodeUnit(c: char): (u: nat)
    ensures u < 0x1_0000
  {
    if c as int < 0x1_0000 then c as int else 0xFFFD
  }

  /** The char readChar gives for a code unit; a lone surrogate becomes U+FFFD. */
  function UnitChar(u: nat): char
    requires u < 0x1_0000
  {
    if 0xD800 <= u < 0xE000 then '\U{FFFD}' else u as char
  }

  predicate InBmp(s: string) {
    forall i :: 0 <= i < |s| ==> s[i] as int < 0x1_0000
  }

  predicate NoNul(s: string) {
    forall i :: 0 <= i < |s| ==> s[i] != '\0'
  }

  /** The padded-char loops: the first n chars of s, then NUL chars up to n, two bytes each. */
  function PutChars(s: string, n: nat): (r: seq<byte>)
    ensures |r| == 2 * n
  {
    if n == 0 then []
    else if |s| == 0 then BigEndian(0, 2) + PutChars(s, n - 1)
    else BigEndian(CodeUnit(s[0]), 2) + PutChars(s[1..], n - 1)
  }

  /** The read loops of gatherVariables and copyVariables: n chars, NULs dropped. */
  function CharsSkippingNul(bs: seq<byte>, n: nat): string
    requires |bs| >= 2 * n
  {
    if n == 0 then ""
    else
      var u := Unsigned(bs[..2]);
      Pow256Widths();
      (if u == 0 then "" else [UnitChar(u)]) + CharsSkippingNul(bs[2..], n - 1)
  }

  /**
   * The read loop of verifyFiles: chars until the first NUL (which is consumed)
   * or until n chars; also how many chars were consumed. None when the bytes
   * run out first (readChar's EOFException).
   */
  function CharsToNul(bs: seq<byte>, n: nat): (r: Option<(string, nat)>)
    ensures r.Some? ==> r.value.1 <= n && 2 * r.value.1 <= |bs|
  {
    if n == 0 then Some(("", 0))
    else if |bs| < 2 then None
    else
      var u := Unsigned(bs[..2]);
      Pow256Widths();
      if u == 0 then Some(("", 1))
      else match CharsToNul(bs[2..], n - 1)
        case None => None
        case Some(rest) => Some(([UnitChar(u)] + rest.0, rest.1 + 1))
  }

  /** Reading one code unit off the front of written chars. */
  lemma CharsStep(u: nat, rest: seq<byte>, n: nat)
    requires u < 0x1_0000 && n > 0 && |rest| >= 2 * (n - 1)
    ensures CharsSkippingNul(BigEndian(u, 2) + rest, n)
            == (if u == 0 then "" else [UnitChar(u)]) + CharsSkippingNul(rest, n - 1)
  {
    Pow256Widths();
    var bs := BigEndian(u, 2) + rest;
    assert bs[..2] == BigEndian(u, 2) && bs[2..] == rest;
    UnsignedBigEndian(u, 2);
  }

  lemma {:induction false} CharsRoundTrip(s: string, n: nat)
    requires InBmp(s) && NoNul(s)
    ensures CharsSkippingNul(PutChars(s, n), n) == if |s| <= n then s else s[..n]
  {
    if n > 0 {
      if |s| == 0 {
        CharsStep(0, PutChars(s, n - 1), n);
        CharsRoundTrip(s, n - 1);
      } else {
        CharsFront(s, n);
        CharsRoundTrip(s[1..], n - 1);
        FirstThenRest(s, n);
      }
    }
  }

  /** The first n chars of s are its first char followed by the first n - 1 of the rest. */
  lemma FirstThenRest(s: string, n: nat)
    requires |s| > 0 && n > 0
    ensures [s[0]] + (if |s[1..]| <= n - 1 then s[1..] else s[1..][..n - 1]) == if |s| <= n then s else s[..n]
  {
    if |s| <= n {
      assert [s[0]] + s[1..] == s;
    } else {
      assert [s[0]] + s[1..][..n - 1] == s[..n];
    }
  }

  /** The first char of a written string is read back first. */
  lemma CharsFront(s: string, n: nat)
    requires InBmp(s) && NoNul(s) && |s| > 0 && n > 0
    ensures CharsSkippingNul(PutChars(s, n), n) == [s[0]] + CharsSkippingNul(PutChars(s[1..], n - 1), n - 1)
  {
    var c := s[0];
    assert c != '\0' && c as int < 0x1_0000;
    CharsStep(CodeUnit(c), PutChars(s[1..], n - 1), n);
    assert UnitChar(CodeUnit(c)) == c;
  }

  /** A name of at most n chars comes back whole, having consumed its NUL terminator when shorter than n. */
  lemma {:induction false} NameRoundTrip(s: string, n: nat)
    requires InBmp(s) && NoNul(s) && |s| <= n
    ensures CharsToNul(PutChars(s, n), n) == Some((s, if |s| < n then |s| + 1 else n))
  {
    Pow256Widths();
    if n > 0 {
      var bs := PutChars(s, n);
      if |s| == 0 {
        assert bs[..2] == BigEndian(0, 2);
        UnsignedBigEndian(0, 2);
      } else {
        assert bs[..2] == BigEndian(CodeUnit(s[0]), 2) && bs[2..] == PutChars(s[1..], n - 1);
        UnsignedBigEndian(CodeUnit(s[0]), 2);
        assert s[0] != '\0';
        NameRoundTrip(s[1..], n - 1);
        assert UnitChar(CodeUnit(s[0])) == s[0];
        assert [s[0]] + s[1..] == s;
      }
    }
  }

  // ---------------------------------------------------------------- header

  datatype Header = Header(availableVars: int, usedVars: int, availableFiles: int, usedFiles: int)

  /** createNewBinaryFile and updateBinary: the four counters as ints, in this order. */
  function EncodeHeader(h: Header): (r: seq<byte>)
    ensures |r| == HeaderSize
  {
    EncodeInt(h.availableVars) + EncodeInt(h.usedVars) + EncodeInt(h.availableFiles) + EncodeInt(h.usedFiles)
  }

  /** gatherHeader: four ints read back in the same order. */
  function DecodeHeader(bs: seq<byte>): Header
    requires |bs| >= HeaderSize
  {
    Header(DecodeSigned(bs[0..4]), DecodeSigned(bs[4..8]), DecodeSigned(bs[8..12]), DecodeSigned(bs[12..16]))
  }

  predicate HeaderFits(h: Header) {
    IsInt32(h.availableVars) && IsInt32(h.usedVars) && IsInt32(h.availableFiles) && IsInt32(h.usedFiles)
  }

  lemma HeaderRoundTrip(h: Header)
    requires HeaderFits(h)
    ensures DecodeHeader(EncodeHeader(h)) == h
  {
    var bs := EncodeHeader(h);
    assert bs[0..4] == EncodeInt(h.availableVars);
    assert bs[4..8] == EncodeInt(h.usedVars);
    assert bs[8..12] == EncodeInt(h.availableFiles);
    assert bs[12..] == EncodeInt(h.usedFiles);
    assert bs[12..16] == bs[12..];
    IntRoundTrip(h.availableVars);
    IntRoundTrip(h.usedVars);
    IntRoundTrip(h.availableFiles);
    IntRoundTrip(h.usedFiles);
  }

  // -------------------------------------------------------- variable entry

  /**
   * A variable entry as addVariable writes it: the three PDG codes as ints,
   * the block name in 20 chars and the description in 25 chars (cut or
   * NUL-padded), and the location of the variable's first value as a long.
   */
  function EncodeVarEntry(pdg: int, pdg2: int, pdg3: int, block: string, description: string, start: int): (r: seq<byte>)
    ensures |r| == VariableBinarySize
  {
    EncodeInt(pdg) + EncodeInt(pdg2) + EncodeInt(pdg3)
    + PutChars(block, VarBlockMaxChars) + PutChars(description, VarDescMaxChars) + EncodeLong(start)
  }

  datatype VarEntry = VarEntry(pdg: int, pdg2: int, pdg3: int, block: string, description: string, firstInstance: int)

  function DecodeVarEntry(bs: seq<byte>): VarEntry
    requires |bs| >= VariableBinarySize
  {
    VarEntry(DecodeSigned(bs[0..4]), DecodeSigned(bs[4..8]), DecodeSigned(bs[8..12]),
             CharsSkippingNul(bs[12..52], VarBlockMaxChars), CharsSkippingNul(bs[52..102], VarDescMaxChars),
             DecodeSigned(bs[102..110]))
  }

  /** The Variable gatherVariables and copyVariables build from an entry: PDGs printed, texts trimmed, no value. */
  function EntryVariable(e: VarEntry): Variable {
    NewVariable(Some(IntToString(e.pdg)), Some(IntToString(e.pdg2)), Some(IntToString(e.pdg3)),
                None, Some(Trim(e.description)), Some(Trim(e.block)))
  }

  /** What a stored entry must satisfy to be read back as the same Variable. */
  predicate Storable(v: Variable) {
    IsCanonicalInt(v.pdg) && IsCanonicalInt(v.pdg2) && IsCanonicalInt(v.pdg3)
    && |v.block| <= VarBlockMaxChars && InBmp(v.block) && NoNul(v.block)
  }

  /**
   * Writing a Variable's entry and reading it back gives a Variable equal to
   * it, and the stored start location, provided its PDG codes are printed
   * ints and its block name fits in 20 chars.
   */
  lemma VarEntryRoundTrip(v: Variable, start: int)
    requires IsNormal(v) && Storable(v) && IsInt64(start)
    ensures var bs := EncodeVarEntry(ParseInt(v.pdg).value, ParseInt(v.pdg2).value, ParseInt(v.pdg3).value,
                                     Trim(v.block), Trim(v.description), start);
            var e := DecodeVarEntry(bs);
            Equals(EntryVariable(e), v) && e.firstInstance == start
  {
    var p1, p2, p3 := ParseInt(v.pdg).value, ParseInt(v.pdg2).value, ParseInt(v.pdg3).value;
    TrimOfTrimmed(v.block);
    VarEntryFields(p1, p2, p3, v.block, Trim(v.description), start);
    CharsRoundTrip(v.block, VarBlockMaxChars);
    var e := DecodeVarEntry(EncodeVarEntry(p1, p2, p3, v.block, Trim(v.description), start));
    assert e.block == v.block;
    PrintedPdg(v.pdg);
    PrintedPdg(v.pdg2);
    PrintedPdg(v.pdg3);
    var w := EntryVariable(e);
    assert w.block == Trim(v.block) == v.block;
    EqualsIffSameKey(w, v);
  }

  /** A canonical PDG code printed again and normalised by the constructor is itself. */
  lemma PrintedPdg(p: string)
    requires IsCanonicalInt(p)
    ensures NormalisePdg(Some(IntToString(ParseInt(p).value))) == p
  {
    IntToStringIsToken(ParseInt(p).value);
  }

  /** Each field of a written entry is read back from its own bytes. */
  lemma VarEntryFields(p1: int, p2: int, p3: int, block: string, description: string, start: int)
    requires IsInt32(p1) && IsInt32(p2) && IsInt32(p3) && IsInt64(start)
    ensures var e := DecodeVarEntry(EncodeVarEntry(p1, p2, p3, block, description, start));
            e.pdg == p1 && e.pdg2 == p2 && e.pdg3 == p3 && e.firstInstance == start
            && e.block == CharsSkippingNul(PutChars(block, VarBlockMaxChars), VarBlockMaxChars)
  {
    var bs := EncodeVarEntry(p1, p2, p3, block, description, start);
    assert bs[0..4] == EncodeInt(p1);
    assert bs[4..8] == EncodeInt(p2);
    assert bs[8..12] == EncodeInt(p3);
    assert bs[12..52] == PutChars(block, VarBlockMaxChars);
    assert bs[102..110] == EncodeLong(start);
    IntRoundTrip(p1);
    IntRoundTrip(p2);
    IntRoundTrip(p3);
    LongRoundTrip(start);
  }

  // ------------------------------------------------------------ file entry

  /** A file entry as addFile writes it: last-modified time, the name in 25 NUL-padded chars, the slot number. */
  function EncodeFileEntry(lastModified: int, name: string, slot: int): (r: seq<byte>)
    ensures |r| == FileBinarySize
  {
    EncodeLong(lastModified) + PutChars(name, FileNameMaxChars) + EncodeInt(slot)
  }

  datatype FileEntry = FileEntry(lastModified: int, name: string, slot: int)

  /**
   * verifyFiles reading a file entry: the long, the name up to its first NUL,
   * then an int read right after the chars consumed -- inside the NUL padding
   * when the name is shorter than 24 chars. None when the bytes run out.
   */
  function ReadFileEntry(bs: seq<byte>): (r: Option<FileEntry>)
  {
    if |bs| < 8 then None
    else match CharsToNul(bs[8..], FileNameMaxChars)
      case None => None
      case Some(name) =>
        var at := 8 + 2 * name.1;
        if |bs| < at + 4 then None
        else Some(FileEntry(DecodeSigned(bs[..8]), name.0, DecodeSigned(bs[at..at + 4])))
  }

  /** An entry whose name fills all 25 chars is read back exactly. */
  lemma FileEntryRoundTrip(lastModified: int, name: string, slot: int)
    requires IsInt64(lastModified) && IsInt32(slot)
    requires InBmp(name) && NoNul(name) && |name| == FileNameMaxChars
    ensures ReadFileEntry(EncodeFileEntry(lastModified, name, slot)) == Some(FileEntry(lastModified, name, slot))
  {
    var bs := EncodeFileEntry(lastModified, name, slot);
    assert bs[..8] == EncodeLong(lastModified);
    assert bs[8..] == PutChars(name, FileNameMaxChars) + EncodeInt(slot);
    assert bs[58..62] == EncodeInt(slot);
    NameRoundTrip(name, FileNameMaxChars);
    assert PutChars(name, FileNameMaxChars) == bs[8..][..50];
    CharsPrefix(bs[8..], 50, FileNameMaxChars);
    LongRoundTrip(lastModified);
    IntRoundTrip(slot);
  }

  /** Only the first 2n bytes matter to CharsToNul. */
  lemma {:induction false} CharsPrefix(bs: seq<byte>, k: nat, n: nat)
    requires 2 * n <= k <= |bs|
    ensures CharsToNul(bs[..k], n) == CharsToNul(bs, n)
  {
    if n > 0 {
      assert bs[..k][..2] == bs[..2];
      assert bs[..k][2..] == bs[2..][..k - 2];
      CharsPrefix(bs[2..], k - 2, n - 1);
    }
  }

  /**
   * A name shorter than 23 chars is read back with slot 0 whatever slot was
   * written: the int is taken from the NUL padding.
   */
  lemma ShortNameReadsSlotZero(lastModified: int, name: string, slot: int)
    requires IsInt64(lastModified)
    requires InBmp(name) && NoNul(name) && |name| < FileNameMaxChars - 2
    ensures ReadFileEntry(EncodeFileEntry(lastModified, name, slot)) == Some(FileEntry(lastModified, name, 0))
  {
    var bs := EncodeFileEntry(lastModified, name, slot);
    ShortNameFields(lastModified, name, slot);
    LongRoundTrip(lastModified);
    ShortNamePadding(lastModified, name, slot);
    assert BigEndian(0, 4) == [0, 0, 0, 0];
    UnsignedBigEndian(0, 4);
  }

  /**
   * verifyFiles as evidently intended: the name is taken up to its first NUL
   * within the 25-char field, and the int is read where the field ends.
   */
  function CorrectedReadFileEntry(bs: seq<byte>): (r: Option<FileEntry>)
  {
    if |bs| < FileBinarySize then None
    else match CharsToNul(bs[8..58], FileNameMaxChars)
      case None => None
      case Some(name) => Some(FileEntry(DecodeSigned(bs[..8]), name.0, DecodeSigned(bs[58..62])))
  }

  /** With the corrected read every name of at most 25 chars, short ones too, comes back with its date and its slot. */
  lemma CorrectedFileEntryRoundTrip(lastModified: int, name: string, slot: int)
    requires IsInt64(lastModified) && IsInt32(slot)
    requires InBmp(name) && NoNul(name) && |name| <= FileNameMaxChars
    ensures CorrectedReadFileEntry(EncodeFileEntry(lastModified, name, slot)) == Some(FileEntry(lastModified, name, slot))
  {
    var bs := EncodeFileEntry(lastModified, name, slot);
    assert bs[..8] == EncodeLong(lastModified);
    assert bs[8..58] == PutChars(name, FileNameMaxChars);
    assert bs[58..62] == EncodeInt(slot);
    NameRoundTrip(name, FileNameMaxChars);
    LongRoundTrip(lastModified);
    IntRoundTrip(slot);
  }

  /** The long and the name of an entry whose name is short. */
  lemma ShortNameFields(lastModified: int, name: string, slot: int)
    requires InBmp(name) && NoNul(name) && |name| < FileNameMaxChars
    ensures var bs := EncodeFileEntry(lastModified, name, slot);
      bs[..8] == EncodeLong(lastModified) && CharsToNul(bs[8..], FileNameMaxChars) == Some((name, |name| + 1))
  {
    var bs := EncodeFileEntry(lastModified, name, slot);
    var p := PutChars(name, FileNameMaxChars);
    assert bs[..8] == EncodeLong(lastModified);
    assert bs[8..] == p + EncodeInt(slot);
    NameRoundTrip(name, FileNameMaxChars);
    assert p == bs[8..][..50];
    CharsPrefix(bs[8..], 50, FileNameMaxChars);
  }

  /** The four bytes after a short name's NUL are still padding. */
  lemma ShortNamePadding(lastModified: int, name: string, slot: int)
    requires |name| < FileNameMaxChars - 2
    ensures var bs := EncodeFileEntry(lastModified, name, slot); var at := 8 + 2 * (|name| + 1);
      bs[at..at + 4] == [0, 0, 0, 0]
  {
    var bs := EncodeFileEntry(lastModified, name, slot);
    var p := PutChars(name, FileNameMaxChars);
    assert bs[8..8 + 50] == p;
    var at := 8 + 2 * (|name| + 1);
    PaddingIsZero(name, FileNameMaxChars, |name| + 1);
    assert bs[at..at + 4] == p[2 * (|name| + 1)..2 * (|name| + 1) + 4];
  }

  /** Past the name, the padded chars are zero bytes. */
  lemma {:induction false} PaddingIsZero(s: string, n: nat, k: nat)
    requires |s| < k <= n
    ensures forall i :: 2 * k - 2 <= i < 2 * n ==> PutChars(s, n)[i] == 0
  {
    if |s| == 0 {
      ZeroChars(n);
    } else {
      PaddingIsZero(s[1..], n - 1, k - 1);
      var head := BigEndian(CodeUnit(s[0]), 2);
      assert PutChars(s, n) == head + PutChars(s[1..], n - 1);
      forall i | 2 * k - 2 <= i < 2 * n
        ensures PutChars(s, n)[i] == 0
      {
        assert PutChars(s, n)[i] == PutChars(s[1..], n - 1)[i - 2];
      }
    }
  }

  lemma {:induction false} ZeroChars(n: nat)
    ensures forall i :: 0 <= i < 2 * n ==> PutChars("", n)[i] == 0
  {
    if n > 0 {
      ZeroChars(n - 1);
      var z := BigEndian(0, 2);
      assert z == [0, 0];
      assert PutChars("", n) == z + PutChars("", n - 1);
    }
  }

  // ------------------------------------------------------------------ disk

  function Zeros(n: nat): (r: seq<byte>)
    ensures |r| == n && forall i :: 0 <= i < n ==> r[i] == 0
  {
    seq(n, _ => 0)
  }

  function Max(a: int, b: int): int { if a < b then b else a }

  /**
   * RandomAccessFile seek and write of one queued request: the bytes at loc
   * are replaced, and the file is extended with zeros when the write goes past
   * its end. A negative location fails in seek and the worker skips the request.
   */
  function Write(disk: seq<byte>, loc: int, data: seq<byte>): (r: seq<byte>)
    ensures loc < 0 || |data| == 0 ==> r == disk
    ensures loc >= 0 && |data| > 0 ==> |r| == Max(|disk|, loc + |data|)
    ensures loc >= 0 && |data| > 0 ==>
      forall i :: 0 <= i < |r| ==>
        r[i] == (if loc <= i < loc + |data| then data[i - loc] else if i < |disk| then disk[i] else 0)
  {
    if loc < 0 || |data| == 0 then disk
    else
      var ext := if |disk| < loc + |data| then disk + Zeros(loc + |data| - |disk|) else disk;
      ext[..loc] + data + ext[loc + |data|..]
  }

  datatype Request = Request(location: int, data: seq<byte>)

  /** The worker draining its queue: requests are applied first to last. */
  function ApplyAll(disk: seq<byte>, queue: seq<Request>): (r: seq<byte>)
    ensures |r| >= |disk|
    decreases |queue|
  {
    if |queue| == 0 then disk else ApplyAll(Write(disk, queue[0].location, queue[0].data), queue[1..])
  }

  lemma {:induction false} ApplyAllAppend(disk: seq<byte>, q1: seq<Request>, q2: seq<Request>)
    ensures ApplyAll(disk, q1 + q2) == ApplyAll(ApplyAll(disk, q1), q2)
    decreases |q1|
  {
    if |q1| > 0 {
      assert (q1 + q2)[1..] == q1[1..] + q2;
      ApplyAllAppend(Write(disk, q1[0].location, q1[0].data), q1[1..], q2);
    } else {
      assert q1 + q2 == q2;
    }
  }

  /** RandomAccessFile reads: n bytes at loc, None past the end (EOFException) or before the start. */
  function ReadAt(disk: seq<byte>, loc: int, n: nat): (r: Option<seq<byte>>)
    ensures r.Some? <==> 0 <= loc && loc + n <= |disk|
    ensures r.Some? ==> |r.value| == n
  {
    if 0 <= loc && loc + n <= |disk| then Some(disk[loc..loc + n]) else None
  }

  /** getData's read: the raw bits of the double at loc, Double.MAX_VALUE when the read fails. */
  function ReadDouble(disk: seq<byte>, loc: int): (r: nat)
    ensures ReadAt(disk, loc, 8).None? ==> r == MaxValueBits
  {
    match ReadAt(disk, loc, 8)
    case Some(bs) => Unsigned(bs)
    case None => MaxValueBits
  }

  /** Whatever was written last at a location is what is read there. */
  lemma ReadAfterWrite(disk: seq<byte>, loc: int, data: seq<byte>)
    requires loc >= 0 && |data| > 0
    ensures ReadAt(Write(disk, loc, data), loc, |data|) == Some(data)
  {
    var r := Write(disk, loc, data);
    assert r[loc..loc + |data|] == data;
  }

  /** A write leaves every byte outside its range as it was. */
  lemma WriteElsewhere(disk: seq<byte>, loc: int, data: seq<byte>, at: int, n: nat)
    requires at + n <= loc || loc + |data| <= at
    requires ReadAt(disk, at, n).Some?
    ensures ReadAt(Write(disk, loc, data), at, n) == ReadAt(disk, at, n)
  {
    var r := Write(disk, loc, data);
    if loc >= 0 && |data| > 0 {
      assert r[at..at + n] == disk[at..at + n];
    }
  }

  /**
   * ByteBuffer.putDouble(index, d) on a buffer: the eight bytes of d's bits
   * at index, None (IndexOutOfBoundsException) unless index <= capacity - 8.
   */
  function PutDouble(buf: seq<byte>, index: int, bits: nat): (r: Option<seq<byte>>)
    ensures r.Some? <==> 0 <= index <= |buf| - 8
    ensures r.Some? ==> |r.value| == |buf| && r.value[index..index + 8] == BigEndian(bits, 8)
    ensures r.Some? ==> r.value[..index] == buf[..index] && r.value[index + 8..] == buf[index + 8..]
  {
    if 0 <= index <= |buf| - 8 then Some(buf[..index] + BigEndian(bits, 8) + buf[index + 8..]) else None
  }
}
