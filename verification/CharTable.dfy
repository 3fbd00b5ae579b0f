/** The decompressor's lookup table, and that it agrees with the format for every tag byte. */
module CharTable {
  import opened Bytes
  import opened SnappyFormat

  // The table, eight entries to a row and eight rows to a function.

  function Rows0(r: nat): (row: seq<nat>)
    requires r < 8
    ensures |row| == 8
  {
    match r
    case 0 => [0x0001, 0x0804, 0x1001, 0x2001, 0x0002, 0x0805, 0x1002, 0x2002]
    case 1 => [0x0003, 0x0806, 0x1003, 0x2003, 0x0004, 0x0807, 0x1004, 0x2004]
    case 2 => [0x0005, 0x0808, 0x1005, 0x2005, 0x0006, 0x0809, 0x1006, 0x2006]
    case 3 => [0x0007, 0x080a, 0x1007, 0x2007, 0x0008, 0x080b, 0x1008, 0x2008]
    case 4 => [0x0009, 0x0904, 0x1009, 0x2009, 0x000a, 0x0905, 0x100a, 0x200a]
    case 5 => [0x000b, 0x0906, 0x100b, 0x200b, 0x000c, 0x0907, 0x100c, 0x200c]
    case 6 => [0x000d, 0x0908, 0x100d, 0x200d, 0x000e, 0x0909, 0x100e, 0x200e]
    case _ => [0x000f, 0x090a, 0x100f, 0x200f, 0x0010, 0x090b, 0x1010, 0x2010]
  }

  function Rows1(r: nat): (row: seq<nat>)
    requires r < 8
    ensures |row| == 8
  {
    match r
    case 0 => [0x0011, 0x0a04, 0x1011, 0x2011, 0x0012, 0x0a05, 0x1012, 0x2012]
    case 1 => [0x0013, 0x0a06, 0x1013, 0x2013, 0x0014, 0x0a07, 0x1014, 0x2014]
    case 2 => [0x0015, 0x0a08, 0x1015, 0x2015, 0x0016, 0x0a09, 0x1016, 0x2016]
    case 3 => [0x0017, 0x0a0a, 0x1017, 0x2017, 0x0018, 0x0a0b, 0x1018, 0x2018]
    case 4 => [0x0019, 0x0b04, 0x1019, 0x2019, 0x001a, 0x0b05, 0x101a, 0x201a]
    case 5 => [0x001b, 0x0b06, 0x101b, 0x201b, 0x001c, 0x0b07, 0x101c, 0x201c]
    case 6 => [0x001d, 0x0b08, 0x101d, 0x201d, 0x001e, 0x0b09, 0x101e, 0x201e]
    case _ => [0x001f, 0x0b0a, 0x101f, 0x201f, 0x0020, 0x0b0b, 0x1020, 0x2020]
  }

  function Rows2(r: nat): (row: seq<nat>)
    requires r < 8
    ensures |row| == 8
  {
    match r
    case 0 => [0x0021, 0x0c04, 0x1021, 0x2021, 0x0022, 0x0c05, 0x1022, 0x2022]
    case 1 => [0x0023, 0x0c06, 0x1023, 0x2023, 0x0024, 0x0c07, 0x1024, 0x2024]
    case 2 => [0x0025, 0x0c08, 0x1025, 0x2025, 0x0026, 0x0c09, 0x1026, 0x2026]
    case 3 => [0x0027, 0x0c0a, 0x1027, 0x2027, 0x0028, 0x0c0b, 0x1028, 0x2028]
    case 4 => [0x0029, 0x0d04, 0x1029, 0x2029, 0x002a, 0x0d05, 0x102a, 0x202a]
    case 5 => [0x002b, 0x0d06, 0x102b, 0x202b, 0x002c, 0x0d07, 0x102c, 0x202c]
    case 6 => [0x002d, 0x0d08, 0x102d, 0x202d, 0x002e, 0x0d09, 0x102e, 0x202e]
    case _ => [0x002f, 0x0d0a, 0x102f, 0x202f, 0x0030, 0x0d0b, 0x1030, 0x2030]
  }

  function Rows3(r: nat): (row: seq<nat>)
    requires r < 8
    ensures |row| == 8
  {
    match r
    case 0 => [0x0031, 0x0e04, 0x1031, 0x2031, 0x0032, 0x0e05, 0x1032, 0x2032]
    case 1 => [0x0033, 0x0e06, 0x1033, 0x2033, 0x0034, 0x0e07, 0x1034, 0x2034]
    case 2 => [0x0035, 0x0e08, 0x1035, 0x2035, 0x0036, 0x0e09, 0x1036, 0x2036]
    case 3 => [0x0037, 0x0e0a, 0x1037, 0x2037, 0x0038, 0x0e0b, 0x1038, 0x2038]
    case 4 => [0x0039, 0x0f04, 0x1039, 0x2039, 0x003a, 0x0f05, 0x103a, 0x203a]
    case 5 => [0x003b, 0x0f06, 0x103b, 0x203b, 0x003c, 0x0f07, 0x103c, 0x203c]
    case 6 => [0x0801, 0x0f08, 0x103d, 0x203d, 0x1001, 0x0f09, 0x103e, 0x203e]
    case _ => [0x1801, 0x0f0a, 0x103f, 0x203f, 0x2001, 0x0f0b, 0x1040, 0x2040]
  }

  function CharTable(c: byte): nat {
    var r, j := c / 8 % 8, c % 8;
    match c / 64
    case 0 => Rows0(r)[j]
    case 1 => Rows1(r)[j]
    case 2 => Rows2(r)[j]
    case _ => Rows3(r)[j]
  }

  /** Length in bits 0-7, offset over 256 in bits 8-10, extra bytes in bits 11-13. */
  function Entry(c: byte): nat {
    ExtraBytes(c) * 2048
    + (if c % 4 == COPY_1_BYTE_OFFSET then c / 32 * 256 + c / 4 % 8 + 4
       else if c % 4 == LITERAL && c / 4 >= 60 then 1
       else c / 4 + 1)
  }

  /** Eight entries of the table, from tag byte `c` on. */
  ghost predicate IsFormat(row: seq<nat>, c: nat)
    requires |row| == 8 && c + 8 <= 256
  {
    && row[0] == Entry(c) && row[1] == Entry(c + 1)
    && row[2] == Entry(c + 2) && row[3] == Entry(c + 3)
    && row[4] == Entry(c + 4) && row[5] == Entry(c + 5)
    && row[6] == Entry(c + 6) && row[7] == Entry(c + 7)
  }

  /** The entries of the four tag bytes from `4 * q` on. */
  lemma EntriesAt(q: nat)
    requires q < 64
    ensures Entry(4 * q) == if q < 60 then q + 1 else 2048 * (q - 59) + 1
    ensures Entry(4 * q + 1) == 2048 + 256 * (q / 8) + q % 8 + 4
    ensures Entry(4 * q + 2) == 4096 + q + 1
    ensures Entry(4 * q + 3) == 8192 + q + 1
  {
  }

  lemma Rows0AreFormat(r: nat)
    requires r < 8
    ensures IsFormat(Rows0(r), 8 * r)
  {
    hide Entry;
    EntriesAt(2 * r);
    EntriesAt(2 * r + 1);
  }

  lemma Rows1AreFormat(r: nat)
    requires r < 8
    ensures IsFormat(Rows1(r), 64 + 8 * r)
  {
    hide Entry;
    EntriesAt(16 + 2 * r);
    EntriesAt(16 + 2 * r + 1);
  }

  lemma Rows2AreFormat(r: nat)
    requires r < 8
    ensures IsFormat(Rows2(r), 128 + 8 * r)
  {
    hide Entry;
    EntriesAt(32 + 2 * r);
    EntriesAt(32 + 2 * r + 1);
  }

  lemma Rows3AreFormat(r: nat)
    requires r < 8
    ensures IsFormat(Rows3(r), 192 + 8 * r)
  {
    hide Entry;
    EntriesAt(48 + 2 * r);
    EntriesAt(48 + 2 * r + 1);
  }

  /** All 256 entries say what the format says about a tag with that first byte. */
  lemma TableIsFormat(c: byte)
    ensures CharTable(c) == Entry(c)
  {
    hide Entry, Rows0, Rows1, Rows2, Rows3;
    var r := c / 8 % 8;
    Rows0AreFormat(r);
    Rows1AreFormat(r);
    Rows2AreFormat(r);
    Rows3AreFormat(r);
    assert c == 64 * (c / 64) + 8 * r + c % 8;
  }

  /** How the decompressor takes an entry apart. */
  lemma EntryFields(c: byte)
    ensures CharTable(c) / 2048 == ExtraBytes(c)
    ensures c % 4 != LITERAL ==>
              forall x: nat :: TagFrom(c, x) == CopyTag(CharTable(c) / 256 % 8 * 256 + x, CharTable(c) % 256)
    ensures c % 4 != LITERAL ==> CharTable(c) % 256 <= 64
  {
    hide CharTable, Entry;
    TableIsFormat(c);
    EntriesAt(c / 4);
    assert c == 4 * (c / 4) + c % 4;
    match c % 4 {
      case 0 =>
      case 1 => ShortCopyFields(c / 4);
      case 2 => LongCopyFields(c / 4, 2);
      case 3 => LongCopyFields(c / 4, 4);
    }
  }

  lemma LongCopyFields(q: nat, n: nat)
    requires q < 64 && (n == 2 || n == 4)
    ensures var e := 2048 * n + q + 1;
      e / 2048 == n && e / 256 % 8 == 0 && e % 256 == q + 1
  {
  }

  lemma ShortCopyFields(q: nat)
    requires q < 64
    ensures var e := 2048 + 256 * (q / 8) + q % 8 + 4;
      e / 2048 == 1 && e / 256 % 8 == q / 8 && e % 256 == q % 8 + 4
  {
  }
}
