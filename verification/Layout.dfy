// The on-disk structures of the file system and their byte encodings: little-endian integers,
// 32-byte directory entries, 64-entry directory tables and the 512-cell cluster map.
module Layout {

  type byte = x: int | 0 <= x < 256
  type u16 = x: int | 0 <= x < 0x1_0000
  type u32 = x: int | 0 <= x < 0x1_0000_0000

  const BLOCK_SIZE := 512
  const CLUSTER_BLOCK_COUNT := 4
  const CLUSTER_SIZE := 2048
  const CLUSTER_MAP_SIZE := 512
  const TABLE_SIZE := 64
  /** The in-memory image is 4 MiB. */
  const DISK_CLUSTERS := 2048

  const BOOT_SECTOR := 0
  const FAT_CLUSTER_NUMBER := 1
  const ROOT_CLUSTER_NUMBER := 2

  const CLUSTER_0_VALUE: u32 := 0x0FFF_FFF0
  const CLUSTER_1_VALUE: u32 := 0x0FFF_FFFF
  const EOF: u32 := 0x0FFF_FFFF
  const EMPTY: u32 := 0

  const ATTR_SUBDIRECTORY: byte := 0x10
  const ATTR_ARCHIVE: byte := 0x20
  const UATTR_NOT_EMPTY: byte := 0xAA

  type Name = s: seq<byte> | |s| == 8 witness [0, 0, 0, 0, 0, 0, 0, 0]
  type Ext = s: seq<byte> | |s| == 3 witness [0, 0, 0]
  type Cluster = s: seq<byte> | |s| == 2048 witness seq(2048, _ => 0)

  const NO_NAME: Name := [0, 0, 0, 0, 0, 0, 0, 0]
  const NO_EXT: Ext := [0, 0, 0]
  /** "ROOT\0\0\0\0" */
  const ROOT_NAME: Name := [0x52, 0x4F, 0x4F, 0x54, 0, 0, 0, 0]
  const ZERO_CLUSTER: Cluster := seq(2048, _ => 0)

  // ----- integers -----

  function Lo(x: u16): byte { x % 256 }

  function Hi(x: u16): byte { x / 256 }

  function ToU16(lo: byte, hi: byte): u16 {
    lo as int + 256 * (hi as int)
  }

  lemma U16RoundTrip(lo: byte, hi: byte)
    ensures Lo(ToU16(lo, hi)) == lo && Hi(ToU16(lo, hi)) == hi
  {
  }

  function U32(x: u32): seq<byte> {
    [x % 256, (x / 256) % 256, (x / 65536) % 256, x / 16777216]
  }

  lemma U32Length(x: u32)
    ensures |U32(x)| == 4
  {
  }

  function ToU32(b: seq<byte>): u32
    requires |b| == 4
  {
    b[0] as int + 256 * (b[1] as int) + 65536 * (b[2] as int) + 16777216 * (b[3] as int)
  }

  lemma U32RoundTrip(y: u32)
    ensures ToU32(U32(y)) == y
  {
    assert y == y % 256 + 256 * (y / 256);
    assert y / 256 == (y / 256) % 256 + 256 * (y / 65536);
    assert y / 65536 == (y / 65536) % 256 + 256 * (y / 16777216);
  }

  lemma U32BytesRoundTrip(b: seq<byte>)
    requires |b| == 4
    ensures U32(ToU32(b)) == b
  {
    var v := ToU32(b);
    assert v / 256 == b[1] as int + 256 * (b[2] as int) + 65536 * (b[3] as int);
    assert v / 65536 == b[2] as int + 256 * (b[3] as int);
    assert v / 16777216 == b[3] as int;
  }

  // ----- directory entries -----

  datatype Entry = Entry(
    name: Name, ext: Ext, attribute: byte, userAttribute: byte,
    undelete: byte, createTime: u16, createDate: u16, accessDate: u16, clusterHigh: u16,
    modifiedTime: u16, modifiedDate: u16, clusterLow: u16, filesize: u32)

  type Table = t: seq<Entry> | |t| == 64 witness seq(64, _ => ZERO_ENTRY)

  const ZERO_ENTRY := Entry(NO_NAME, NO_EXT, 0, 0, 0, 0, 0, 0, 0, 0, 0, 0, 0)
  const ZERO_TABLE: Table := seq(64, _ => ZERO_ENTRY)

  /** The cluster number an entry carries in its two 16-bit halves. */
  function Head(e: Entry): u32 {
    e.clusterHigh * 0x1_0000 + e.clusterLow
  }

  function High(c: u32): u16 { c / 0x1_0000 }

  function Low(c: u32): u16 { c % 0x1_0000 }

  /** What `write` stores for a directory, and what slot 0 of the directory itself holds. */
  function DirEntry(name: Name, c: u32): (e: Entry)
    ensures Head(e) == c
  {
    Entry(name, NO_EXT, ATTR_SUBDIRECTORY, UATTR_NOT_EMPTY, 0, 0, 0, 0, High(c), 0, 0, Low(c), 0)
  }

  /** What `write` stores for a file. */
  function FileEntry(name: Name, ext: Ext, size: u32, c: u32): (e: Entry)
    ensures Head(e) == c
  {
    Entry(name, ext, ATTR_ARCHIVE, UATTR_NOT_EMPTY, 0, 0, 0, 0, High(c), 0, 0, Low(c), size)
  }

  function EncodeEntry(e: Entry): (b: seq<byte>)
    ensures |b| == 32
  {
    e.name + e.ext
    + [e.attribute, e.userAttribute, e.undelete,
       Lo(e.createTime), Hi(e.createTime), Lo(e.createDate), Hi(e.createDate),
       Lo(e.accessDate), Hi(e.accessDate), Lo(e.clusterHigh), Hi(e.clusterHigh),
       Lo(e.modifiedTime), Hi(e.modifiedTime), Lo(e.modifiedDate), Hi(e.modifiedDate),
       Lo(e.clusterLow), Hi(e.clusterLow)]
    + U32(e.filesize)
  }

  function DecodeEntry(b: seq<byte>): Entry
    requires |b| == 32
  {
    Entry(b[..8], b[8..11], b[11], b[12], b[13],
          ToU16(b[14], b[15]), ToU16(b[16], b[17]), ToU16(b[18], b[19]), ToU16(b[20], b[21]),
          ToU16(b[22], b[23]), ToU16(b[24], b[25]), ToU16(b[26], b[27]), ToU32(b[28..]))
  }

  lemma EntryRoundTrip(e: Entry)
    ensures DecodeEntry(EncodeEntry(e)) == e
  {
    var b := EncodeEntry(e);
    assert b[..8] == e.name;
    assert b[8..11] == e.ext;
    assert b[28..] == U32(e.filesize);
    U32RoundTrip(e.filesize);
  }

  lemma EntryBytesRoundTrip(b: seq<byte>)
    requires |b| == 32
    ensures EncodeEntry(DecodeEntry(b)) == b
  {
    hide Lo, Hi, ToU16, U32, ToU32;
    U32BytesRoundTrip(b[28..]);
    U16RoundTrip(b[14], b[15]);
    U16RoundTrip(b[16], b[17]);
    U16RoundTrip(b[18], b[19]);
    U16RoundTrip(b[20], b[21]);
    U16RoundTrip(b[22], b[23]);
    U16RoundTrip(b[24], b[25]);
    U16RoundTrip(b[26], b[27]);
    U32Length(ToU32(b[28..]));
    var e, c := DecodeEntry(b), EncodeEntry(DecodeEntry(b));
    assert c[..8] == e.name && c[8..11] == e.ext && c[28..] == U32(e.filesize);
    assert c[11] == b[11] && c[12] == b[12] && c[13] == b[13] && c[14] == b[14] && c[15] == b[15];
    assert c[16] == b[16] && c[17] == b[17] && c[18] == b[18] && c[19] == b[19] && c[20] == b[20];
    assert c[21] == b[21] && c[22] == b[22] && c[23] == b[23] && c[24] == b[24] && c[25] == b[25];
    assert c[26] == b[26] && c[27] == b[27];
    JoinParts(b, c);
  }

  lemma JoinParts(b: seq<byte>, c: seq<byte>)
    requires |b| == |c| == 32 && b[..8] == c[..8] && b[8..11] == c[8..11] && b[28..] == c[28..]
    requires forall k :: 11 <= k < 28 ==> b[k] == c[k]
    ensures b == c
  {
    forall k | 0 <= k < 32 ensures b[k] == c[k] {
      if k < 8 { assert b[k] == b[..8][k]; }
      else if k < 11 { assert b[k] == b[8..11][k - 8]; }
      else if k >= 28 { assert b[k] == b[28..][k - 28]; }
    }
  }

  // ----- directory tables -----

  function EncodeTable(t: Table): Cluster {
    EncodeSlots(t)
  }

  function EncodeSlots(t: seq<Entry>): (b: seq<byte>)
    ensures |b| == 32 * |t|
  {
    if t == [] then [] else EncodeSlots(t[..|t| - 1]) + EncodeEntry(t[|t| - 1])
  }

  function DecodeTable(c: Cluster): Table {
    DecodeSlots(c)
  }

  function DecodeSlots(b: seq<byte>): (t: seq<Entry>)
    ensures |t| == |b| / 32
  {
    if |b| < 32 then [] else DecodeSlots(b[..|b| - 32]) + [DecodeEntry(b[|b| - 32..])]
  }

  /** Slot `i` of a table is at byte 32 i. */
  lemma {:induction false} EncodedSlot(t: seq<Entry>, i: nat)
    requires i < |t|
    ensures EncodeSlots(t)[32 * i..32 * i + 32] == EncodeEntry(t[i])
  {
    hide EncodeEntry;
    var b, init := EncodeSlots(t), EncodeSlots(t[..|t| - 1]);
    if i < |t| - 1 {
      EncodedSlot(t[..|t| - 1], i);
      assert b[32 * i..32 * i + 32] == init[32 * i..32 * i + 32];
    }
  }

  lemma {:induction false} SlotsRoundTrip(t: seq<Entry>)
    ensures DecodeSlots(EncodeSlots(t)) == t
  {
    hide EncodeEntry, DecodeEntry;
    if t != [] {
      var b := EncodeSlots(t);
      SlotsRoundTrip(t[..|t| - 1]);
      EntryRoundTrip(t[|t| - 1]);
      assert b[..|b| - 32] == EncodeSlots(t[..|t| - 1]) && b[|b| - 32..] == EncodeEntry(t[|t| - 1]);
    }
  }

  lemma {:induction false} SlotBytesRoundTrip(b: seq<byte>)
    requires |b| % 32 == 0
    ensures EncodeSlots(DecodeSlots(b)) == b
  {
    hide EncodeEntry, DecodeEntry;
    if b != [] {
      var t := DecodeSlots(b);
      SlotBytesRoundTrip(b[..|b| - 32]);
      EntryBytesRoundTrip(b[|b| - 32..]);
      assert t[..|t| - 1] == DecodeSlots(b[..|b| - 32]) && t[|t| - 1] == DecodeEntry(b[|b| - 32..]);
    }
  }

  lemma TableRoundTrip(t: Table)
    ensures DecodeTable(EncodeTable(t)) == t
  {
    SlotsRoundTrip(t);
  }

  lemma TableBytesRoundTrip(c: Cluster)
    ensures EncodeTable(DecodeTable(c)) == c
  {
    SlotBytesRoundTrip(c);
  }

  // ----- the cluster map -----

  type Fat = f: seq<u32> | |f| == 512 witness seq(512, _ => 0)

  function EncodeFat(f: Fat): Cluster {
    EncodeCells(f)
  }

  function EncodeCells(f: seq<u32>): (b: seq<byte>)
    ensures |b| == 4 * |f|
  {
    if f == [] then [] else EncodeCells(f[..|f| - 1]) + U32(f[|f| - 1])
  }

  function DecodeFat(c: Cluster): Fat {
    DecodeCells(c)
  }

  function DecodeCells(b: seq<byte>): (f: seq<u32>)
    ensures |f| == |b| / 4
  {
    if |b| < 4 then [] else DecodeCells(b[..|b| - 4]) + [ToU32(b[|b| - 4..])]
  }

  /** Cell `i` of the map is at byte 4 i. */
  lemma {:induction false} EncodedCell(f: seq<u32>, i: nat)
    requires i < |f|
    ensures EncodeCells(f)[4 * i..4 * i + 4] == U32(f[i])
  {
    hide U32;
    var b, init := EncodeCells(f), EncodeCells(f[..|f| - 1]);
    U32Length(f[|f| - 1]);
    if i < |f| - 1 {
      EncodedCell(f[..|f| - 1], i);
      assert b[4 * i..4 * i + 4] == init[4 * i..4 * i + 4];
    }
  }

  lemma {:induction false} CellsRoundTrip(f: seq<u32>)
    ensures DecodeCells(EncodeCells(f)) == f
  {
    hide U32, ToU32;
    if f != [] {
      var b := EncodeCells(f);
      CellsRoundTrip(f[..|f| - 1]);
      U32RoundTrip(f[|f| - 1]);
      U32Length(f[|f| - 1]);
      assert b[..|b| - 4] == EncodeCells(f[..|f| - 1]) && b[|b| - 4..] == U32(f[|f| - 1]);
    }
  }

  lemma FatRoundTrip(f: Fat)
    ensures DecodeFat(EncodeFat(f)) == f
  {
    CellsRoundTrip(f);
  }

  // ----- the boot signature -----

  const SIGNATURE_TEXT :=
    "Course          " + "Designed by     " + "Lab Sister ITB  " + "Made with <3    "
    + "-----------2023\n"

  /** One block: the text, zero padding, and 'O', 'k' in the last two bytes. */
  function Signature(): (b: seq<byte>)
    ensures |b| == 512
  {
    seq(512, k requires 0 <= k < 512 =>
      if k < |SIGNATURE_TEXT| && SIGNATURE_TEXT[k] < 256 as char then SIGNATURE_TEXT[k] as byte
      else if k == 510 then 0x4F
      else if k == 511 then 0x6B
      else 0)
  }

  // ----- what the bytes are -----

  /** A map cell in cluster 1: four bytes, the lowest first. */
  lemma CellBytes(f: Fat, i: nat)
    requires i < 512
    ensures EncodeFat(f)[4 * i] == f[i] % 256
    ensures EncodeFat(f)[4 * i + 1] == (f[i] / 256) % 256
    ensures EncodeFat(f)[4 * i + 2] == (f[i] / 65536) % 256
    ensures EncodeFat(f)[4 * i + 3] == f[i] / 16777216
  {
    EncodedCell(f, i);
    hide EncodeCells;
    var b := EncodeFat(f)[4 * i..4 * i + 4];
    assert b[0] == EncodeFat(f)[4 * i] && b[1] == EncodeFat(f)[4 * i + 1];
    assert b[2] == EncodeFat(f)[4 * i + 2] && b[3] == EncodeFat(f)[4 * i + 3];
  }

  /** And a cell is loaded from them in that order. */
  lemma {:induction false} LoadedCell(b: seq<byte>, i: nat)
    requires 4 * i + 4 <= |b| && |b| % 4 == 0
    ensures DecodeCells(b)[i] == b[4 * i] as int + 256 * (b[4 * i + 1] as int) + 65536 * (b[4 * i + 2] as int)
                               + 16777216 * (b[4 * i + 3] as int)
  {
    if 4 * i + 4 < |b| { LoadedCell(b[..|b| - 4], i); }
  }

  /** Where each field of a directory entry lies, 16-bit fields and the size with the lowest byte first. */
  lemma FieldBytes(e: Entry)
    ensures var b := EncodeEntry(e);
            && b[..8] == e.name && b[8..11] == e.ext
            && b[11] == e.attribute && b[12] == e.userAttribute && b[13] == e.undelete
            && b[14] == e.createTime % 256 && b[15] == e.createTime / 256
            && b[16] == e.createDate % 256 && b[17] == e.createDate / 256
            && b[18] == e.accessDate % 256 && b[19] == e.accessDate / 256
            && b[20] == e.clusterHigh % 256 && b[21] == e.clusterHigh / 256
            && b[22] == e.modifiedTime % 256 && b[23] == e.modifiedTime / 256
            && b[24] == e.modifiedDate % 256 && b[25] == e.modifiedDate / 256
            && b[26] == e.clusterLow % 256 && b[27] == e.clusterLow / 256
            && b[28] == e.filesize % 256 && b[29] == (e.filesize / 256) % 256
            && b[30] == (e.filesize / 65536) % 256 && b[31] == e.filesize / 16777216
  {
  }

  /** Slot `i` of a table, byte by byte. */
  lemma SlotBytes(t: Table, i: nat, j: nat)
    requires i < 64 && j < 32
    ensures EncodeTable(t)[32 * i + j] == EncodeEntry(t[i])[j]
  {
    EncodedSlot(t, i);
    hide EncodeSlots, EncodeEntry;
    assert EncodeTable(t)[32 * i..32 * i + 32][j] == EncodeEntry(t[i])[j];
  }

  lemma HalfBytes(c: u32)
    ensures Lo(High(c)) == (c / 65536) % 256 && Hi(High(c)) == c / 16777216
    ensures Lo(Low(c)) == c % 256 && Hi(Low(c)) == (c / 256) % 256
    ensures Lo(0) == 0 == Hi(0)
  {
  }

  /** The 32 bytes of a directory's entry. */
  lemma DirEntryBytes(name: Name, c: u32)
    ensures EncodeEntry(DirEntry(name, c)) ==
            name + [0, 0, 0, 0x10, 0xAA, 0, 0, 0, 0, 0, 0, 0, (c / 65536) % 256, c / 16777216, 0, 0, 0, 0,
                    c % 256, (c / 256) % 256, 0, 0, 0, 0]
  {
    HalfBytes(c);
    hide Lo, Hi, High, Low;
  }

  /** The 32 bytes of a file's entry. */
  lemma FileEntryBytes(name: Name, ext: Ext, size: u32, c: u32)
    ensures EncodeEntry(FileEntry(name, ext, size, c)) ==
            name + ext + [0x20, 0xAA, 0, 0, 0, 0, 0, 0, 0, (c / 65536) % 256, c / 16777216, 0, 0, 0, 0,
                          c % 256, (c / 256) % 256,
                          size % 256, (size / 256) % 256, (size / 65536) % 256, size / 16777216]
  {
    HalfBytes(c);
    hide Lo, Hi, High, Low;
  }

  /** The reserved values of the map, the name of the root and the blank slot. */
  lemma ReservedValues()
    ensures CLUSTER_0_VALUE == 268435440 && CLUSTER_1_VALUE == EOF == 268435455 && EMPTY == 0
    ensures ROOT_NAME == [0x52, 0x4F, 0x4F, 0x54, 0, 0, 0, 0] && NO_NAME == [0, 0, 0, 0, 0, 0, 0, 0]
    ensures forall k :: 0 <= k < 32 ==> EncodeEntry(ZERO_ENTRY)[k] == 0
    ensures forall k :: 0 <= k < 2048 ==> ZERO_CLUSTER[k] == 0
  {
  }

  lemma SignatureText(n: nat)
    requires n < 5
    ensures |SIGNATURE_TEXT| == 80
    ensures forall k :: 16 * n <= k < 16 * n + 16 && SIGNATURE_TEXT[k] < 256 as char ==>
              Signature()[k] == SIGNATURE_TEXT[k] as byte
  {
  }

  lemma SignatureRow0()
    ensures Signature()[0..16] ==
            [0x43, 0x6F, 0x75, 0x72, 0x73, 0x65, 0x20, 0x20,
             0x20, 0x20, 0x20, 0x20, 0x20, 0x20, 0x20, 0x20]
  {
    SignatureText(0);
  }

  lemma SignatureRow1()
    ensures Signature()[16..32] ==
            [0x44, 0x65, 0x73, 0x69, 0x67, 0x6E, 0x65, 0x64,
             0x20, 0x62, 0x79, 0x20, 0x20, 0x20, 0x20, 0x20]
  {
    SignatureText(1);
  }

  lemma SignatureRow2()
    ensures Signature()[32..48] ==
            [0x4C, 0x61, 0x62, 0x20, 0x53, 0x69, 0x73, 0x74,
             0x65, 0x72, 0x20, 0x49, 0x54, 0x42, 0x20, 0x20]
  {
    SignatureText(2);
  }

  lemma SignatureRow3()
    ensures Signature()[48..64] ==
            [0x4D, 0x61, 0x64, 0x65, 0x20, 0x77, 0x69, 0x74,
             0x68, 0x20, 0x3C, 0x33, 0x20, 0x20, 0x20, 0x20]
  {
    SignatureText(3);
  }

  lemma SignatureRow4()
    ensures Signature()[64..80] ==
            [0x2D, 0x2D, 0x2D, 0x2D, 0x2D, 0x2D, 0x2D, 0x2D,
             0x2D, 0x2D, 0x2D, 0x32, 0x30, 0x32, 0x33, 0x0A]
  {
    SignatureText(4);
  }

  /** The signature: five rows of text, zeroes, and two letters at the end of the block. */
  lemma SignatureEnd()
    ensures forall k :: 80 <= k < 510 ==> Signature()[k] == 0
    ensures Signature()[510] == 0x4F && Signature()[511] == 0x6B
  {
  }
}
