/** The packed 12-bit table: what a formatter writes and what the driver decodes. */
module Fat12Tables {
  import opened Bytes
  import opened OnDisk
  import opened Volumes

  type Entry12 = n: int | 0 <= n < 0x1000

  /** Two entries share three bytes: the low 12 bits and the high 12 bits of them. */
  function Packed(entries: seq<Entry12>): (table: seq<byte>)
    decreases |entries|
  {
    if entries == [] then []
    else if |entries| == 1 then [entries[0] % 0x100, entries[0] / 0x100]
    else
      [entries[0] % 0x100, entries[0] / 0x100 + 16 * (entries[1] % 16), entries[1] / 16] + Packed(entries[2..])
  }

  lemma {:induction false} PackedLength(entries: seq<Entry12>)
    ensures |Packed(entries)| == (|entries| * 3 + 1) / 2
    decreases |entries|
  {
    if |entries| >= 2 {
      PackedLength(entries[2..]);
    }
  }

  /** The 12 bits that the even/odd rule takes out of the two bytes at `c * 3 / 2`. */
  function Unpacked(table: seq<byte>, c: nat): int
    requires c * 3 / 2 + 1 < |table|
  {
    var word := Le16(table, c * 3 / 2);
    if c % 2 == 0 then word % 0x1000 else word / 16
  }

  lemma EvenRoundTrip(a: Entry12, low: nat)
    requires low < 16
    ensures (a as int % 0x100 + 0x100 * (a as int / 0x100 + 16 * low)) % 0x1000 == a
  {
    assert a as int % 0x100 + 0x100 * (a as int / 0x100 + 16 * low) == a as int + 0x1000 * low;
  }

  lemma OddRoundTrip(high: nat, b: Entry12)
    requires high < 16
    ensures (high + 16 * (b as int % 16) + 0x100 * (b as int / 16)) / 16 == b
  {
    assert high + 16 * (b as int % 16) + 0x100 * (b as int / 16) == high + 16 * b as int;
  }

  lemma FirstEntry(entries: seq<Entry12>)
    requires |entries| > 0
    ensures |Packed(entries)| >= 2 && Le16(Packed(entries), 0) % 0x1000 == entries[0]
  {
    var a, low := entries[0], if |entries| > 1 then entries[1] as int % 16 else 0;
    var table := Packed(entries);
    assert table[0] as int == a as int % 0x100 && table[1] as int == a as int / 0x100 + 16 * low;
    assert Le16(table, 0) == a as int % 0x100 + 0x100 * (a as int / 0x100 + 16 * low);
    EvenRoundTrip(a, low);
  }

  lemma SecondEntry(entries: seq<Entry12>)
    requires |entries| > 1
    ensures |Packed(entries)| >= 3 && Le16(Packed(entries), 1) / 16 == entries[1]
  {
    OddRoundTrip(entries[0] as int / 0x100, entries[1]);
  }

  /** From the third entry on, the table is the table of the remaining entries. */
  lemma LaterEntry(entries: seq<Entry12>, c: nat)
    requires c + 2 < |entries| && c * 3 / 2 + 1 < |Packed(entries[2..])|
    ensures (c + 2) * 3 / 2 + 1 < |Packed(entries)| && Unpacked(Packed(entries), c + 2) == Unpacked(Packed(entries[2..]), c)
  {
    ThreeBytesOn(c);
    var j, table, rest := c * 3 / 2, Packed(entries), Packed(entries[2..]);
    assert table[j + 3] == rest[j] && table[j + 4] == rest[j + 1];
    assert Le16(table, j + 3) == Le16(rest, j);
  }

  lemma ThreeBytesOn(c: nat)
    ensures (c + 2) * 3 / 2 == c * 3 / 2 + 3 && (c + 2) % 2 == c % 2
  {
  }

  lemma {:induction false} PackRoundTrip(entries: seq<Entry12>, c: nat)
    requires c < |entries|
    ensures c * 3 / 2 + 1 < |Packed(entries)| && Unpacked(Packed(entries), c) == entries[c]
    decreases |entries|
  {
    if c == 0 {
      FirstEntry(entries);
    } else if c == 1 {
      SecondEntry(entries);
    } else {
      PackRoundTrip(entries[2..], c - 2);
      LaterEntry(entries, c - 2);
    }
  }

  /** On a volume whose table holds the packed entries, the driver's decoding gives every one of
      them back, wherever its two bytes lie; marks from 0xFF8 on read as end of chain. */
  lemma TableDecodes(v: Volume, entries: seq<Entry12>, table: seq<byte>, c: u32)
    requires v.fatType == 12 && c < |entries| && v.HasWindow(c) && table == Packed(entries) && TableOnDisk(v, table)
    ensures v.Next(c) == if entries[c] >= 0xFF8 then 0xFFFF_F000 + entries[c] as int else entries[c] as int
    ensures IsEnd(v.Next(c)) <==> entries[c] >= 0xFF8
  {
    PackRoundTrip(entries, c);
    var i := v.FatIndex(c);
    TableWord(v, table, i);
    var raw := Unpacked(table, c);
    assert v.Next(c) == v.Decode(c, Le16(table, i)) == if raw >= 0xFF8 then raw + 0xFFFF_F000 else raw;
  }
}
