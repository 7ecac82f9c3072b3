/** The 32-byte directory entry: section 6 of the Microsoft FAT Specification, as struct FAT32_NODE lays it out. */
module DirEntries {
  import opened Bytes

  datatype Node = Node(filename: seq<byte>, attributes: byte, times: seq<byte>, startHigh: u16,
                       modified: seq<byte>, startLow: u16, size: u32)

  type Entry = n: Node | |n.filename| == 11 && |n.times| == 8 && |n.modified| == 4
    witness Node(seq(11, _ => 0), 0, seq(8, _ => 0), 0, seq(4, _ => 0), 0, 0)

  const DELETED: byte := 0xE5
  const DIRECTORY: byte := 0x10

  function Render(n: Entry): (r: seq<byte>)
    ensures |r| == 32
  {
    n.filename + [n.attributes] + n.times + HalfBytes(n.startHigh) + n.modified + HalfBytes(n.startLow)
      + WordBytes(n.size)
  }

  function Parse(s: seq<byte>): Entry
    requires |s| == 32
  {
    Node(s[..11], s[11], s[12..20], Half(s, 20), s[22..26], Half(s, 26), Word(s, 28))
  }

  lemma ParseRender(n: Entry)
    ensures Parse(Render(n)) == n
  {
    var s := Render(n);
    WordOfWordBytes(n.size);
    assert s[12..20] == n.times && s[22..26] == n.modified && s[..11] == n.filename;
    assert s[28..32] == WordBytes(n.size);
  }

  /** Where the fields of an entry lie, byte by byte, and what two of them mean. */
  lemma EntryLayout(e: Entry)
    ensures var r := Render(e);
      && r[..11] == e.filename && r[11] == e.attributes && r[12..20] == e.times && r[22..26] == e.modified
      && StartOf(e) == r[26] as int + 0x100 * r[27] as int + 0x1_0000 * r[20] as int + 0x100_0000 * r[21] as int
      && e.size == r[28] as int + 0x100 * r[29] as int + 0x1_0000 * r[30] as int + 0x100_0000 * r[31] as int
      && (IsDirectory(e) <==> r[11] / 0x10 % 2 == 1)
  {
    ParseRender(e);
  }

  /** A new size changes the last four bytes of an entry, lowest first, and none of the others. */
  lemma SizeBytes(e: Entry, size: u32)
    ensures var r := Render(WithSize(e, size));
      && r[..28] == Render(e)[..28]
      && size == r[28] as int + 0x100 * r[29] as int + 0x1_0000 * r[30] as int + 0x100_0000 * r[31] as int
  {
    EntryLayout(WithSize(e, size));
  }

  lemma RenderParse(s: seq<byte>)
    requires |s| == 32
    ensures Render(Parse(s)) == s
  {
    var r := Render(Parse(s));
    BytesOfHalf(s, 20);
    BytesOfHalf(s, 26);
    BytesOfWord(s, 28);
    assert s == s[..11] + [s[11]] + s[12..20] + s[20..22] + s[22..26] + s[26..28] + s[28..32];
  }

  lemma BytesOfHalf(s: seq<byte>, at: nat)
    requires at + 2 <= |s|
    ensures HalfBytes(Half(s, at)) == s[at..at + 2]
  {
  }

  lemma BytesOfWord(s: seq<byte>, at: nat)
    requires at + 4 <= |s|
    ensures WordBytes(Word(s, at)) == s[at..at + 4]
  {
    var w: int := Word(s, at);
    assert w / 0x100 == s[at + 1] as int + 0x100 * s[at + 2] as int + 0x1_0000 * s[at + 3] as int;
    assert w / 0x1_0000 == s[at + 2] as int + 0x100 * s[at + 3] as int;
    assert w / 0x100_0000 == s[at + 3] as int;
  }

  /** The first cluster, split over two fields of the entry. */
  function StartOf(n: Node): u32 {
    0x1_0000 * n.startHigh as int + n.startLow as int
  }

  /** The entry with its first cluster set, as the two 16-bit stores set it. */
  function WithStart(n: Entry, c: u32): (r: Entry)
    ensures StartOf(r) == c
  {
    n.(startHigh := c / 0x1_0000, startLow := c % 0x1_0000)
  }

  function WithSize(e: Entry, size: u32): Entry {
    e.(size := size)
  }

  predicate IsDirectory(n: Node) {
    n.attributes / DIRECTORY as int % 2 == 1
  }

  /** Where an entry was found, the entry itself, and the first cluster of the directory searched. */
  datatype NodeInfo = NodeInfo(descriptorCluster: u32, descriptorOffset: nat, node: Entry, parentCluster: u32)
}
