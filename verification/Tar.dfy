/** The ustar writer (crates/vmforge-cli/src/tarball.rs) against a reader that
    follows the "ustar Interchange Format" section of the POSIX pax utility. */
module Ustar {
  import opened Forest

  type Byte = b: int | 0 <= b < 256
  type Bytes = seq<Byte>

  const BLOCK := 512
  const SPACE: Byte := 32
  const ZERO_CHAR: Byte := 48
  const SLASH: Byte := 47
  const MAGIC: Bytes := [117, 115, 116, 97, 114]   // "ustar"

  datatype Entry = Entry(name: Bytes, contents: Bytes, mtime: nat)

  // ---- octal fields -------------------------------------------------------------------------

  function Pow8(k: nat): nat { if k == 0 then 1 else 8 * Pow8(k - 1) }

  /** `value` in octal, zero-padded to `width` digits. */
  function Octal(value: nat, width: nat): (s: Bytes)
    ensures |s| == width
    ensures forall i :: 0 <= i < width ==> ZERO_CHAR <= s[i] < ZERO_CHAR + 8
  {
    if width == 0 then [] else Octal(value / 8, width - 1) + [ZERO_CHAR + value % 8]
  }

  predicate OctDigit(b: Byte) { ZERO_CHAR <= b < ZERO_CHAR + 8 }

  /** A numeric field: octal digits up to a NUL or a space. */
  function Numeric(s: Bytes, acc: nat): Option<nat>
    decreases |s|
  {
    if s == [] || s[0] == 0 || s[0] == SPACE then Some(acc)
    else if OctDigit(s[0]) then Numeric(s[1..], 8 * acc + (s[0] - ZERO_CHAR))
    else None
  }

  lemma {:induction false} NumericDigits(value: nat, width: nat, acc: nat, rest: Bytes)
    requires value < Pow8(width)
    ensures Numeric(Octal(value, width) + rest, acc) == Numeric(rest, Pow8(width) * acc + value)
    decreases width
  {
    if width == 0 {
      assert Octal(value, width) + rest == rest;
    } else {
      var last := [ZERO_CHAR + value % 8];
      assert Octal(value, width) + rest == Octal(value / 8, width - 1) + (last + rest);
      NumericDigits(value / 8, width - 1, acc, last + rest);
      assert (last + rest)[1..] == rest;
      Shifted(Pow8(width - 1), acc, value);
    }
  }

  lemma Shifted(p: nat, acc: nat, value: nat)
    ensures 8 * (p * acc + value / 8) + value % 8 == 8 * p * acc + value
  {
  }

  /** A field that fits reads back. */
  lemma FieldReadsBack(value: nat, width: nat, end: Byte, rest: Bytes)
    requires value < Pow8(width) && (end == 0 || end == SPACE)
    ensures Numeric(Octal(value, width) + [end] + rest, 0) == Some(value)
  {
    NumericDigits(value, width, 0, [end] + rest);
    assert Octal(value, width) + [end] + rest == Octal(value, width) + ([end] + rest);
  }

  // ---- headers ------------------------------------------------------------------------------

  function Sum(s: Bytes): nat {
    if s == [] then 0 else Sum(s[..|s| - 1]) + s[|s| - 1]
  }

  /** The sum adds up every byte. */
  lemma {:induction false} SumAdds(a: Bytes, x: Byte, b: Bytes)
    ensures Sum([]) == 0 && Sum(a + [x] + b) == Sum(a) + x + Sum(b)
    decreases |b|
  {
    if b == [] {
      assert a + [x] + b == a + [x] && (a + [x])[..|a|] == a;
    } else {
      assert (a + [x] + b)[..|a + [x] + b| - 1] == a + [x] + b[..|b| - 1];
      SumAdds(a, x, b[..|b| - 1]);
    }
  }

  lemma {:induction false} SumBound(s: Bytes)
    ensures Sum(s) <= 255 * |s|
    decreases |s|
  {
    if s != [] { SumBound(s[..|s| - 1]); }
  }

  /** An octal field followed by a NUL, at `off`. */
  function InField(off: nat, value: nat, width: nat, i: nat): Byte
    requires off <= i <= off + width
  {
    if i < off + width then Octal(value, width)[i - off] else 0
  }

  /** Byte `i` of a header whose checksum field holds spaces. */
  function BlankByte(name: Bytes, size: nat, mtime: nat, i: nat): Byte {
    if i < 100 then (if i < |name| then name[i] else 0)
    else if i < 108 then InField(100, 420, 7, i)         // mode 0644
    else if i < 116 then InField(108, 0, 7, i)           // uid
    else if i < 124 then InField(116, 0, 7, i)           // gid
    else if i < 136 then InField(124, size, 11, i)
    else if i < 148 then InField(136, mtime, 11, i)
    else if i < 156 then SPACE
    else if i == 156 then ZERO_CHAR                      // regular file
    else if 257 <= i < 262 then MAGIC[i - 257]
    else if 263 <= i < 265 then ZERO_CHAR                // version "00"
    else 0
  }

  function Blank(name: Bytes, size: nat, mtime: nat): (h: Bytes)
    ensures |h| == BLOCK && forall i :: 0 <= i < BLOCK ==> h[i] == BlankByte(name, size, mtime, i)
  {
    seq(BLOCK, i requires 0 <= i < BLOCK => BlankByte(name, size, mtime, i))
  }

  /** The header as written: six checksum digits, a NUL, a space. */
  function Header(name: Bytes, size: nat, mtime: nat): (h: Bytes)
    ensures |h| == BLOCK
    ensures forall i :: 0 <= i < BLOCK ==>
      h[i] == if 148 <= i < 155 then InField(148, Sum(Blank(name, size, mtime)), 6, i) else BlankByte(name, size, mtime, i)
  {
    var sum := Sum(Blank(name, size, mtime));
    seq(BLOCK, i requires 0 <= i < BLOCK =>
      if 148 <= i < 155 then InField(148, sum, 6, i) else BlankByte(name, size, mtime, i))
  }

  // ---- the reader ---------------------------------------------------------------------------

  /** A name: up to the first NUL, or the whole field. */
  function CString(s: Bytes): (r: Bytes)
    ensures r <= s && 0 !in r
  {
    if s == [] || s[0] == 0 then [] else [s[0]] + CString(s[1..])
  }

  /** A header with its checksum field read as spaces. */
  function Spaced(h: Bytes): (r: Bytes)
    requires |h| == BLOCK
    ensures |r| == BLOCK && forall i :: 0 <= i < BLOCK ==> r[i] == if 148 <= i < 156 then SPACE else h[i]
  {
    seq(BLOCK, i requires 0 <= i < BLOCK => if 148 <= i < 156 then SPACE else h[i])
  }

  /** Name, size and mtime of a regular file's header, if the header is sound. */
  function ParseHeader(h: Bytes): Option<(Bytes, nat, nat)>
    requires |h| == BLOCK
  {
    var sum, size, mtime := Numeric(h[148..156], 0), Numeric(h[124..136], 0), Numeric(h[136..148], 0);
    if h[257..263] != MAGIC + [0] || h[263..265] != [ZERO_CHAR, ZERO_CHAR] || h[156] != ZERO_CHAR then None
    else if sum != Some(Sum(Spaced(h))) || size.None? || mtime.None? then None
    else Some((FullName(h), size.value, mtime.value))
  }

  /** The prefix field, if it is used, a slash, and the name field. */
  function FullName(h: Bytes): Bytes
    requires |h| == BLOCK
  {
    if CString(h[345..500]) == [] then CString(h[..100]) else CString(h[345..500]) + [SLASH] + CString(h[..100])
  }

  function Padding(n: nat): nat { (BLOCK - n % BLOCK) % BLOCK }

  predicate AllZero(s: Bytes) { forall i :: 0 <= i < |s| ==> s[i] == 0 }

  /** Entries up to the two zero blocks that end an archive. */
  function Read(a: Bytes): Option<seq<Entry>>
    decreases |a|
  {
    if |a| < 2 * BLOCK then None
    else if AllZero(a[..2 * BLOCK]) then Some([])
    else match ParseHeader(a[..BLOCK])
      case None => None
      case Some((name, size, mtime)) =>
        var next := BLOCK * (1 + Blocks(size));
        if |a| < next then None else
        match Read(a[next..])
        case None => None
        case Some(rest) => Some([Entry(name, a[BLOCK..BLOCK + size], mtime)] + rest)
  }

  /** Blocks that hold `size` bytes. */
  function Blocks(size: nat): (n: nat)
    ensures BLOCK * n >= size && (size == 0 ==> n == 0) && (size > 0 ==> BLOCK * (n - 1) < size)
  {
    if size == 0 then 0 else (size - 1) / BLOCK + 1
  }

  /** The writer fills up the last block and no more. */
  lemma PaddingFills(size: nat)
    ensures size + Padding(size) == BLOCK * Blocks(size)
  {
  }

  // ---- what the writer writes ----------------------------------------------------------------

  function Zeros(n: nat): (z: Bytes)
    ensures |z| == n && AllZero(z)
  {
    seq(n, i => 0)
  }

  function EntryBytes(e: Entry): Bytes {
    Header(e.name, |e.contents|, e.mtime) + e.contents + Zeros(Padding(|e.contents|))
  }

  function Body(es: seq<Entry>): Bytes {
    if es == [] then [] else EntryBytes(es[0]) + Body(es[1..])
  }

  function Archive(es: seq<Entry>): Bytes { Body(es) + Zeros(2 * BLOCK) }

  /** What `append` accepts, with numbers that fit their fields. */
  predicate Storable(e: Entry) {
    |e.name| <= 100 && (e.name != [] ==> e.name[0] != SLASH) && |e.contents| < Pow8(11) && e.mtime < Pow8(11)
  }

  // ---- reading back -------------------------------------------------------------------------

  /** The checksum always fits its six digits. */
  lemma ChecksumFits(name: Bytes, size: nat, mtime: nat)
    ensures Sum(Blank(name, size, mtime)) < Pow8(6)
  {
    SumBound(Blank(name, size, mtime));
    assert Pow8(6) == 262144 by { assert Pow8(3) == 512; }
  }

  lemma SpacedIsBlank(name: Bytes, size: nat, mtime: nat)
    ensures Spaced(Header(name, size, mtime)) == Blank(name, size, mtime)
  {
    hide Octal, Sum, InField;
    var a, b := Spaced(Header(name, size, mtime)), Blank(name, size, mtime);
    forall i | 0 <= i < BLOCK ensures a[i] == b[i] { }
  }

  lemma FieldSlices(name: Bytes, size: nat, mtime: nat)
    ensures var h := Header(name, size, mtime); var sum := Sum(Blank(name, size, mtime));
            && h[124..136] == Octal(size, 11) + [0] + []
            && h[136..148] == Octal(mtime, 11) + [0] + []
            && h[148..156] == Octal(sum, 6) + [0] + [SPACE]
  {
    hide Octal, Sum;
    var h, sum := Header(name, size, mtime), Sum(Blank(name, size, mtime));
    assert h[124..136] == Octal(size, 11) + [0] + [];
    assert h[136..148] == Octal(mtime, 11) + [0] + [];
    assert h[148..156] == Octal(sum, 6) + [0] + [SPACE];
  }

  lemma FixedSlices(name: Bytes, size: nat, mtime: nat)
    ensures var h := Header(name, size, mtime);
            && h[257..263] == MAGIC + [0] && h[263..265] == [ZERO_CHAR, ZERO_CHAR] && h[156] == ZERO_CHAR
            && CString(h[345..500]) == []
  {
    hide Octal, Sum;
    var h := Header(name, size, mtime);
    assert h[257..263] == MAGIC + [0];
    assert h[263..265] == [ZERO_CHAR, ZERO_CHAR];
    assert h[345..500][0] == 0;
  }

  /** Owner and mode: 0644 and no ids. The fields that are not used are zero. */
  lemma HeaderModes(name: Bytes, size: nat, mtime: nat)
    ensures var h := Header(name, size, mtime);
            && Numeric(h[100..108], 0) == Some(6 * 64 + 4 * 8 + 4) && Numeric(h[108..116], 0) == Some(0) && Numeric(h[116..124], 0) == Some(0)
            && AllZero(h[157..257]) && AllZero(h[265..512])
  {
    hide Octal, Sum, Pow8, Numeric;
    var h := Header(name, size, mtime);
    SmallFits();
    assert h[100..108] == Octal(420, 7) + [0] + [];
    assert h[108..116] == Octal(0, 7) + [0] + [] && h[116..124] == Octal(0, 7) + [0] + [];
    FieldReadsBack(420, 7, 0, []);
    FieldReadsBack(0, 7, 0, []);
  }

  lemma {:induction false} CStringPadded(name: Bytes, k: nat)
    ensures CString(name + Zeros(k)) == CString(name)
    ensures CString(name) == name <==> 0 !in name
    decreases |name|
  {
    if name == [] {
      assert name + Zeros(k) == Zeros(k);
    } else if name[0] != 0 {
      assert (name + Zeros(k))[1..] == name[1..] + Zeros(k);
      CStringPadded(name[1..], k);
      assert name == [name[0]] + name[1..];
    } else {
      assert name[0] in name;
    }
  }

  lemma NameSlice(name: Bytes, size: nat, mtime: nat)
    requires |name| <= 100
    ensures Header(name, size, mtime)[..100] == name + Zeros(100 - |name|)
  {
    hide Octal, Sum, InField;
    var h, n := Header(name, size, mtime), name + Zeros(100 - |name|);
    forall i | 0 <= i < 100 ensures h[..100][i] == n[i] { }
  }

  /** A written header reads back, the name up to its first NUL. */
  lemma HeaderReadsBack(name: Bytes, size: nat, mtime: nat)
    requires |name| <= 100 && size < Pow8(11) && mtime < Pow8(11)
    ensures ParseHeader(Header(name, size, mtime)) == Some((CString(name), size, mtime))
  {
    hide Sum, Numeric, CString, Blank, Header, Spaced, Pow8, ParseHeader;
    FixedSlices(name, size, mtime);
    FieldsRead(name, size, mtime);
    SpacedIsBlank(name, size, mtime);
    NameSlice(name, size, mtime);
    CStringPadded(name, 100 - |name|);
    ParsesFrom(Header(name, size, mtime), CString(name), size, mtime);
  }

  lemma ParsesFrom(h: Bytes, name: Bytes, size: nat, mtime: nat)
    requires |h| == BLOCK && h[257..263] == MAGIC + [0] && h[263..265] == [ZERO_CHAR, ZERO_CHAR] && h[156] == ZERO_CHAR
    requires Numeric(h[124..136], 0) == Some(size) && Numeric(h[136..148], 0) == Some(mtime)
    requires Numeric(h[148..156], 0) == Some(Sum(Spaced(h))) && CString(h[..100]) == name && CString(h[345..500]) == []
    ensures ParseHeader(h) == Some((name, size, mtime))
  {
    hide Sum, Numeric, CString, Spaced;
  }

  lemma FieldsRead(name: Bytes, size: nat, mtime: nat)
    requires size < Pow8(11) && mtime < Pow8(11)
    ensures var h := Header(name, size, mtime);
            && Numeric(h[124..136], 0) == Some(size) && Numeric(h[136..148], 0) == Some(mtime)
            && Numeric(h[148..156], 0) == Some(Sum(Blank(name, size, mtime)))
  {
    hide Octal, Sum, Numeric, Blank, Header, Pow8;
    FieldSlices(name, size, mtime);
    ChecksumFits(name, size, mtime);
    FieldReadsBack(size, 11, 0, []);
    FieldReadsBack(mtime, 11, 0, []);
    FieldReadsBack(Sum(Blank(name, size, mtime)), 6, 0, [SPACE]);
  }

  function AsRead(es: seq<Entry>): (r: seq<Entry>)
    ensures |r| == |es|
    ensures forall i :: 0 <= i < |r| ==> r[i] == es[i].(name := CString(es[i].name))
  {
    seq(|es|, i requires 0 <= i < |es| => es[i].(name := CString(es[i].name)))
  }

  lemma EntryReads(e: Entry, rest: Bytes)
    requires Storable(e) && |rest| >= BLOCK
    ensures var a := EntryBytes(e) + rest; var end := BLOCK + |e.contents|;
            && |a| >= 2 * BLOCK && !AllZero(a[..2 * BLOCK])
            && ParseHeader(a[..BLOCK]) == Some((CString(e.name), |e.contents|, e.mtime))
            && |a| >= end + Padding(|e.contents|)
            && a[BLOCK..end] == e.contents && a[end + Padding(|e.contents|)..] == rest
  {
    hide ParseHeader, CString, Padding, Pow8, InField, Sum, Octal;
    var h, pad := Header(e.name, |e.contents|, e.mtime), Padding(|e.contents|);
    var a, end := EntryBytes(e) + rest, BLOCK + |e.contents|;
    assert a == h + e.contents + Zeros(pad) + rest;
    assert a[..BLOCK] == h;
    assert a[..2 * BLOCK][156] == h[156] == ZERO_CHAR;
    HeaderReadsBack(e.name, |e.contents|, e.mtime);
    assert a[BLOCK..end] == e.contents;
    assert a[end + pad..] == rest;
  }

  lemma ReadUnfolds(a: Bytes, name: Bytes, size: nat, mtime: nat)
    requires |a| >= 2 * BLOCK && !AllZero(a[..2 * BLOCK]) && ParseHeader(a[..BLOCK]) == Some((name, size, mtime))
    requires |a| >= BLOCK + size + Padding(size) && Read(a[BLOCK + size + Padding(size)..]).Some?
    ensures Read(a) == Some([Entry(name, a[BLOCK..BLOCK + size], mtime)] + Read(a[BLOCK + size + Padding(size)..]).value)
  {
    hide ParseHeader, Padding, AllZero, Blocks;
    PaddingFills(size);
  }

  lemma ReadEnds(a: Bytes)
    requires |a| >= 2 * BLOCK && AllZero(a[..2 * BLOCK])
    ensures Read(a) == Some([])
  {
    hide AllZero;
  }

  lemma {:induction false} ReadsArchive(es: seq<Entry>)
    requires forall i :: 0 <= i < |es| ==> Storable(es[i])
    ensures Read(Archive(es)) == Some(AsRead(es))
    decreases |es|
  {
    hide EntryBytes, ParseHeader, CString, Padding, Storable, Read;
    if es == [] {
      assert Archive(es) == Zeros(2 * BLOCK);
      assert Archive(es)[..2 * BLOCK] == Zeros(2 * BLOCK);
      ReadEnds(Archive(es));
    } else {
      assert Archive(es) == EntryBytes(es[0]) + Archive(es[1..]);
      EntryReads(es[0], Archive(es[1..]));
      ReadsArchive(es[1..]);
      ReadUnfolds(Archive(es), CString(es[0].name), |es[0].contents|, es[0].mtime);
      assert AsRead(es) == [es[0].(name := CString(es[0].name))] + AsRead(es[1..]);
    }
  }

  /** The archive gives back exactly what went in, in order, if and only if no
      name holds a NUL byte. */
  lemma RoundTripsExactly(es: seq<Entry>)
    requires forall i :: 0 <= i < |es| ==> Storable(es[i])
    ensures Read(Archive(es)) == Some(es) <==> forall i :: 0 <= i < |es| ==> 0 !in es[i].name
  {
    hide Read, Archive, CString, Storable;
    ReadsArchive(es);
    forall i | 0 <= i < |es| ensures AsRead(es)[i] == es[i] <==> 0 !in es[i].name {
      CStringPadded(es[i].name, 0);
    }
    if forall i :: 0 <= i < |es| ==> 0 !in es[i].name { assert AsRead(es) == es; }
  }

  /** Such a name reads back cut short. */
  lemma NulCutsName()
    ensures var e := Entry([97, 0, 98], [], 0);
            Storable(e) && Read(Archive([e])) == Some([e.(name := [97])]) && Read(Archive([e])) != Some([e])
  {
    hide Read, Archive, Storable;
    var e := Entry([97, 0, 98], [], 0);
    assert CString(e.name) == [97] by { assert e.name[1..] == [0, 98]; }
    ZeroFits();
    ReadsArchive([e]);
    assert AsRead([e]) == [e.(name := [97])];
  }

  lemma ZeroFits()
    ensures Storable(Entry([97, 0, 98], [], 0))
  {
    assert Pow8(11) > 0;
  }

  lemma {:induction false} WholeBlocks(es: seq<Entry>)
    ensures |Archive(es)| % BLOCK == 0
    decreases |es|
  {
    if es != [] {
      assert Archive(es) == EntryBytes(es[0]) + Archive(es[1..]);
      WholeBlocks(es[1..]);
      PadsToBlock(|es[0].contents|);
    }
  }

  lemma PadsToBlock(n: nat)
    ensures (n + Padding(n)) % BLOCK == 0
  {
  }

  lemma {:induction false} BodyAppends(es: seq<Entry>, e: Entry)
    ensures Body(es + [e]) == Body(es) + EntryBytes(e)
    decreases |es|
  {
    if es == [] {
      assert es + [e] == [e] && [e][1..] == [];
    } else {
      assert (es + [e])[1..] == es[1..] + [e];
      BodyAppends(es[1..], e);
    }
  }

  // ---- the writer ---------------------------------------------------------------------------

  /** `write_octal_n` into `field[off..]`. */
  method WriteOctal(header: array<Byte>, off: nat, value: nat, width: nat)
    requires off + width < header.Length && value < Pow8(width)
    modifies header
    ensures forall i :: off <= i <= off + width ==> header[i] == InField(off, value, width, i)
    ensures forall i :: 0 <= i < header.Length && !(off <= i <= off + width) ==> header[i] == old(header[i])
  {
    hide Octal, Pow8;
    var digits := Octal(value, width);
    for i := 0 to width
      invariant forall j :: off <= j < off + i ==> header[j] == digits[j - off]
      invariant forall j :: 0 <= j < header.Length && !(off <= j < off + i) ==> header[j] == old(header[j])
    {
      header[off + i] := digits[i];
    }
    header[off + width] := 0;
  }

  method Checksum(header: array<Byte>) returns (sum: nat)
    ensures sum == Sum(header[..])
  {
    sum := 0;
    for i := 0 to header.Length
      invariant sum == Sum(header[..i])
    {
      assert header[..i + 1][..i] == header[..i];
      sum := sum + header[i];
    }
    assert header[..header.Length] == header[..];
  }

  /** The header, field by field into a zeroed block, the checksum last. */
  method FillHeader(path: Bytes, size: nat, mtime: nat) returns (header: array<Byte>)
    requires |path| <= 100 && size < Pow8(11) && mtime < Pow8(11)
    ensures fresh(header) && header[..] == Header(path, size, mtime)
  {
    hide Octal, Sum, Pow8, Blank, Header;
    header := FillBlank(path, size, mtime);
    var checksum := Checksum(header);
    ChecksumFits(path, size, mtime);
    WriteOctal(header, 148, checksum, 6);
    header[155] := SPACE;
    assert forall i :: 0 <= i < BLOCK ==> header[i] == Header(path, size, mtime)[i];
  }

  method FillBlank(path: Bytes, size: nat, mtime: nat) returns (header: array<Byte>)
    requires |path| <= 100 && size < Pow8(11) && mtime < Pow8(11)
    ensures fresh(header) && header.Length == BLOCK && header[..] == Blank(path, size, mtime)
  {
    hide Octal, Blank, Pow8;
    header := new Byte[BLOCK](i => 0);
    for i := 0 to |path|
      invariant forall j :: 0 <= j < i ==> header[j] == path[j]
      invariant forall j :: i <= j < BLOCK ==> header[j] == 0
    {
      header[i] := path[i];
    }
    SmallFits();
    WriteOctal(header, 100, 420, 7);
    WriteOctal(header, 108, 0, 7);
    WriteOctal(header, 116, 0, 7);
    WriteOctal(header, 124, size, 11);
    WriteOctal(header, 136, mtime, 11);
    for i := 148 to 156
      invariant forall j :: 148 <= j < i ==> header[j] == SPACE
      invariant forall j :: 0 <= j < 148 ==> header[j] == BlankByte(path, size, mtime, j)
      invariant forall j :: i <= j < BLOCK ==> header[j] == 0
    {
      header[i] := SPACE;
    }
    header[156] := ZERO_CHAR;
    for i := 0 to 5
      invariant forall j :: 257 <= j < 257 + i ==> header[j] == MAGIC[j - 257]
      invariant forall j :: 0 <= j < 257 ==> header[j] == BlankByte(path, size, mtime, j)
      invariant forall j :: 257 + i <= j < BLOCK ==> header[j] == 0
    {
      header[257 + i] := MAGIC[i];
    }
    header[263], header[264] := ZERO_CHAR, ZERO_CHAR;
    assert forall i :: 0 <= i < BLOCK ==> header[i] == Blank(path, size, mtime)[i];
  }

  lemma SmallFits()
    ensures 420 < Pow8(7) && 0 < Pow8(7)
  {
    assert Pow8(3) == 512;
    assert Pow8(7) == 8 * Pow8(6) && Pow8(6) == 8 * Pow8(5) && Pow8(5) == 8 * Pow8(4) && Pow8(4) == 8 * Pow8(3);
  }

  datatype Appended = Written | Refused | Panicked

  class TarWriter {
    var out: Bytes
    ghost var entries: seq<Entry>

    /** What has been written is the entries appended so far. */
    ghost predicate Valid()
      reads this
    {
      out == Body(entries) && forall i :: 0 <= i < |entries| ==> Storable(entries[i])
    }

    constructor ()
      ensures Valid() && entries == []
    {
      out, entries := [], [];
    }

    /** Written exactly if the entry can be stored. A name that cannot is refused;
        a number that does not fit its field panics, in `copy_from_slice`, before
        anything is written. */
    method Append(path: Bytes, contents: Bytes, mtime: nat) returns (r: Appended)
      requires Valid()
      modifies this
      ensures Valid()
      ensures r.Written? <==> Storable(Entry(path, contents, mtime))
      ensures r.Refused? <==> |path| > 100 || (path != [] && path[0] == SLASH)
      ensures entries == if r.Written? then old(entries) + [Entry(path, contents, mtime)] else old(entries)
    {
      hide Body, EntryBytes, Pow8, Header, Padding;
      if |path| > 100 || (path != [] && path[0] == SLASH) { return Refused; }
      if |contents| >= Pow8(11) || mtime >= Pow8(11) { return Panicked; }
      var header := FillHeader(path, |contents|, mtime);
      ghost var e := Entry(path, contents, mtime);
      out := out + header[..];
      out := out + contents;
      out := out + Zeros(Padding(|contents|));
      AppendedIs(old(out), e);
      BodyAppends(entries, e);
      entries := entries + [e];
      return Written;
    }

    /** Two zero blocks, and the archive is done: what a reader makes of it is
        the subject of RoundTripsExactly. */
    method Finish() returns (archive: Bytes)
      requires Valid()
      modifies this
      ensures archive == Archive(old(entries)) && |archive| % BLOCK == 0
    {
      out := out + Zeros(2 * BLOCK);
      WholeBlocks(entries);
      return out;
    }
  }

  lemma AppendedIs(out: Bytes, e: Entry)
    ensures out + Header(e.name, |e.contents|, e.mtime) + e.contents + Zeros(Padding(|e.contents|)) == out + EntryBytes(e)
  {
    hide Header, Padding;
  }
}
