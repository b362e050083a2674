// The packed FAT12 table: two 12-bit entries share three bytes. Three pieces of
// code decode it independently: stage 2, the host tool and the boot sector.
module FatTable {
  import opened Words

  type u12 = x: int | 0 <= x < 0x1000

  // The packing the FAT12 format prescribes: an even entry takes one byte and
  // the low nibble of the next, an odd entry the high nibble and a whole byte.
  function Packed(entries: seq<u12>): seq<byte> {
    if |entries| == 0 then []
    else if |entries| == 1 then [entries[0] % 0x100, entries[0] / 0x100]
    else [entries[0] % 0x100, Shared(entries[0], entries[1]), entries[1] / 0x10]
         + Packed(entries[2..])
  }

  function Shared(even: u12, odd: u12): byte {
    even / 0x100 + odd % 0x10 * 0x10
  }

  // Byte offset of the word that holds an entry.
  function WordOffset(cluster: nat): nat {
    cluster * 3 / 2
  }

  // A cluster number whose entry lies inside the table.
  predicate InTable(fat: seq<byte>, cluster: nat) {
    WordOffset(cluster) + 1 < |fat|
  }

  // A little-endian word, read in one access.
  function WordAt(fat: seq<byte>, i: nat): u16
    requires i + 1 < |fat|
  {
    var low: int, high: int := fat[i], fat[i + 1];
    low + high * 0x100
  }

  // FAT_NextCluster of stage 2: two byte reads through a far pointer.
  function NextCluster(fat: seq<byte>, cluster: nat): u12
    requires InTable(fat, cluster)
  {
    var index := WordOffset(cluster);
    var low: int, high: int := fat[index], fat[index + 1];
    var val := low + high * 0x100;
    if cluster % 2 == 0 then val % 0x1000 else val / 0x10
  }

  // readFile of the host tool: one word read.
  function HostNext(fat: seq<byte>, cluster: u16): u12
    requires InTable(fat, cluster)
  {
    var val := WordAt(fat, WordOffset(cluster));
    if cluster % 2 == 0 then val % 0x1000 else val / 0x10
  }

  // The boot sector: `mul` by 3 into DX:AX, `div` by 2, and the parity is taken
  // from the remainder of the tripled number rather than from the number.
  function BootNext(fat: seq<byte>, cluster: u16): u12
    requires InTable(fat, cluster)
  {
    var product: int := cluster * 3;
    var ax, dx := product / 2, product % 2;
    var val := WordAt(fat, ax);
    if dx != 0 then val / 0x10 else val % 0x1000
  }

  lemma SharedNibbles(a: u12, b: u12)
    ensures (a % 0x100 + Shared(a, b) * 0x100) % 0x1000 == a
    ensures (Shared(a, b) + b / 0x10 * 0x100) / 0x10 == b
  {
  }

  // Skipping one packed pair skips three bytes and two cluster numbers.
  lemma SkipPair(pair: seq<byte>, rest: seq<byte>, c: nat)
    requires |pair| == 3 && c >= 2 && InTable(rest, c - 2)
    ensures InTable(pair + rest, c) && NextCluster(pair + rest, c) == NextCluster(rest, c - 2)
  {
    assert WordOffset(c) == WordOffset(c - 2) + 3;
  }

  lemma {:induction false} DecodePacked(entries: seq<u12>, c: nat)
    requires c < |entries|
    ensures InTable(Packed(entries), c)
    ensures NextCluster(Packed(entries), c) == entries[c]
  {
    if |entries| == 1 {
      SingleDecodes(entries[0]);
    } else if c < 2 {
      PairDecodes(entries[0], entries[1], Packed(entries[2..]));
    } else {
      var pair := [entries[0] % 0x100, Shared(entries[0], entries[1]), entries[1] / 0x10];
      DecodePacked(entries[2..], c - 2);
      SkipPair(pair, Packed(entries[2..]), c);
      hide NextCluster, InTable, Shared;
    }
  }

  lemma SingleDecodes(a: u12)
    ensures InTable([a % 0x100, a / 0x100], 0) && NextCluster([a % 0x100, a / 0x100], 0) == a
  {
  }

  lemma PairDecodes(a: u12, b: u12, rest: seq<byte>)
    ensures var fat := [a % 0x100, Shared(a, b), b / 0x10] + rest;
      InTable(fat, 0) && NextCluster(fat, 0) == a && InTable(fat, 1) && NextCluster(fat, 1) == b
  {
    SharedNibbles(a, b);
    hide Shared;
  }

  lemma TriplingKeepsParity(c: nat)
    ensures c * 3 % 2 == c % 2
  {
  }

  // The other two decoders are the first one, on any table.
  lemma HostDecodes(fat: seq<byte>, c: u16)
    requires InTable(fat, c)
    ensures HostNext(fat, c) == NextCluster(fat, c)
  {
  }

  lemma BootDecodes(fat: seq<byte>, c: u16)
    requires InTable(fat, c)
    ensures BootNext(fat, c) == NextCluster(fat, c)
  {
    TriplingKeepsParity(c);
  }

  // All decoders return entry c of a packed table, for every c it holds.
  lemma DecodersAgree(entries: seq<u12>, c: u16)
    requires c < |entries|
    ensures InTable(Packed(entries), c)
    ensures NextCluster(Packed(entries), c) == entries[c]
    ensures HostNext(Packed(entries), c) == entries[c] && BootNext(Packed(entries), c) == entries[c]
  {
    DecodePacked(entries, c);
    HostDecodes(Packed(entries), c);
    BootDecodes(Packed(entries), c);
    hide Packed, NextCluster, HostNext, BootNext, InTable;
  }
}
