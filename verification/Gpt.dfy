/** The two copies of a GPT: mirroring entries and headers, and keeping their checksums right. */
module Gpt {
  import opened Words

  const TWO64: int := 0x1_0000_0000_0000_0000

  type Long = x: nat | x < 0x1_0000_0000_0000_0000
  type Guid = s: seq<byte> | |s| == 16 witness seq(16, _ => 0)
  type Signature = s: seq<byte> | |s| == 8 witness seq(8, _ => 0)
  type CrcFn = seq<byte> -> word

  const SIGNATURE: Signature := [0x45, 0x46, 0x49, 0x20, 0x50, 0x41, 0x52, 0x54]   // EFI PART
  const SIGNATURE2: Signature := [0x43, 0x48, 0x52, 0x4F, 0x4D, 0x45, 0x4F, 0x53]  // CHROMEOS
  const HEADER_STRUCT := 92
  const SECTOR := 512
  const MASK_PRIMARY := 1
  const MASK_SECONDARY := 2
  const MASK_BOTH := 3

  datatype Header = Header(
    signature: Signature, revision: word, size: word, header_crc32: word, reserved_zero: word,
    my_lba: Long, alternate_lba: Long, first_usable_lba: Long, last_usable_lba: Long, disk_uuid: Guid,
    entries_lba: Long, number_of_entries: word, size_of_entry: word, entries_crc32: word)

  datatype Part = Header1 | Header2 | Entries1 | Entries2

  /** The packed structure as it lies on disk. */
  function HeaderBytes(h: Header): (s: seq<byte>)
    ensures |s| == HEADER_STRUCT
  {
    FrontBytes(h) + LbaBytes(h) + h.disk_uuid + TableBytes(h)
  }

  function FrontBytes(h: Header): (s: seq<byte>)
    ensures |s| == 24
  {
    h.signature + LeBytes(h.revision, 4) + LeBytes(h.size, 4) + LeBytes(h.header_crc32, 4) + LeBytes(h.reserved_zero, 4)
  }

  function LbaBytes(h: Header): (s: seq<byte>)
    ensures |s| == 32
  {
    LeBytes(h.my_lba, 8) + LeBytes(h.alternate_lba, 8) + LeBytes(h.first_usable_lba, 8) + LeBytes(h.last_usable_lba, 8)
  }

  function TableBytes(h: Header): (s: seq<byte>)
    ensures |s| == 20
  {
    LeBytes(h.entries_lba, 8) + LeBytes(h.number_of_entries, 4) + LeBytes(h.size_of_entry, 4)
    + LeBytes(h.entries_crc32, 4)
  }

  /** The product of two 32-bit fields is computed in 32 bits. */
  function EntriesSize(h: Header): word
  {
    (h.number_of_entries * h.size_of_entry) % BASE
  }

  function EntriesSectors(h: Header): Long
  {
    (EntriesSize(h) + SECTOR - 1) / SECTOR
  }

  function Sub64(x: int, y: int): Long
  {
    (x - y) % TWO64
  }

  predicate Synonymous(a: Header, b: Header)
  {
    && a.first_usable_lba == b.first_usable_lba && a.last_usable_lba == b.last_usable_lba
    && a.number_of_entries == b.number_of_entries && a.size_of_entry == b.size_of_entry
    && a.disk_uuid == b.disk_uuid
  }

  function EntriesCrc(crc: CrcFn, h: Header, entries: seq<byte>): word
    requires EntriesSize(h) <= |entries|
  {
    crc(entries[..EntriesSize(h)])
  }

  /** The checksum of a header is taken with the checksum field zero. */
  function OwnCrc(crc: CrcFn, h: Header): word
  {
    crc(HeaderBytes(h.(header_crc32 := 0)))
  }

  /** One copy is self-consistent: both its checksums are right. */
  predicate Sealed(crc: CrcFn, h: Header, entries: seq<byte>)
  {
    EntriesSize(h) <= |entries| && h.entries_crc32 == EntriesCrc(crc, h, entries) && h.header_crc32 == OwnCrc(crc, h)
  }

  /** The two copies agree and locate each other. */
  predicate Mirrored(h1: Header, h2: Header, e1: seq<byte>, e2: seq<byte>, sectors: Long)
  {
    && EntriesSize(h1) <= |e1| && EntriesSize(h1) <= |e2|
    && e2[..EntriesSize(h1)] == e1[..EntriesSize(h1)]
    && Synonymous(h1, h2)
    && h2.my_lba == (if sectors > 0 then sectors - 1 else TWO64 - 1) && h2.alternate_lba == h1.my_lba
    && EntriesSize(h1) <= 512 * SectorsBetween(h2.entries_lba, h2.my_lba) < EntriesSize(h1) + 512
  }

  /** How far on the second address is, counting modulo the width of an address. */
  function SectorsBetween(first: Long, last: Long): nat
  {
    if first <= last then last - first else TWO64 - first + last
  }

  /** The first n bytes of one buffer put over those of another. */
  function Overlaid(target: seq<byte>, source: seq<byte>, n: nat): seq<byte>
    requires n <= |target| && n <= |source|
  {
    source[..n] + target[n..]
  }

  /** A secondary header made from the primary. */
  function SecondaryOf(h1: Header, sectors: Long): Header
  {
    var my := Sub64(sectors, 1);
    h1.(my_lba := my, alternate_lba := h1.my_lba, entries_lba := Sub64(my, EntriesSectors(h1)))
  }

  function PrimaryOf(h2: Header): Header
  {
    h2.(my_lba := 1, alternate_lba := h2.my_lba, entries_lba := 2)
  }

  /** A header with the table's checksum, its own, or both brought up to date, in this order. */
  function Sealing(crc: CrcFn, h: Header, entries: seq<byte>, table: bool, own: bool): Header
    requires table ==> EntriesSize(h) <= |entries|
  {
    var h' := if table then h.(entries_crc32 := EntriesCrc(crc, h, entries)) else h;
    if own then h'.(header_crc32 := OwnCrc(crc, h')) else h'
  }

  /** What an update reads and writes. */
  datatype Copies = Copies(h1: Header, h2: Header, e1: seq<byte>, e2: seq<byte>)

  /** Tables are mirrored when some header is trusted and the disk allows it. */
  predicate CopiesTable(c: Copies, valid: word)
  {
    c.h1.signature != SIGNATURE2 && (valid % 2 == 1 || valid / 2 % 2 == 1)
  }

  /** The size by which they are copied: that in the primary header if it is trusted. */
  function TrustedSize(c: Copies, valid: word): word
  {
    if valid % 2 == 1 then EntriesSize(c.h1) else EntriesSize(c.h2)
  }

  class GptData {
    const crc: CrcFn
    const sectors: Long
    const primaryEntries: array<byte>
    const secondaryEntries: array<byte>
    var primaryHeader: Header
    var secondaryHeader: Header
    var validHeaders: word
    var modified: set<Part>

    constructor (crc: CrcFn, sectors: Long, h1: Header, h2: Header, e1: array<byte>, e2: array<byte>, valid: word)
      requires e1 != e2
      ensures this.crc == crc && this.sectors == sectors && primaryEntries == e1 && secondaryEntries == e2
      ensures primaryHeader == h1 && secondaryHeader == h2 && validHeaders == valid && modified == {}
    {
      this.crc, this.sectors, primaryEntries, secondaryEntries := crc, sectors, e1, e2;
      primaryHeader, secondaryHeader, validHeaders, modified := h1, h2, valid, {};
    }

    ghost function Abs(): Copies
      reads this, primaryEntries, secondaryEntries
    {
      Copies(primaryHeader, secondaryHeader, primaryEntries[..], secondaryEntries[..])
    }

    /** Copies entries from the valid table to the other one, unless the disk must not be mirrored. */
    method RepairEntries(valid_entries: word) returns (r: set<Part>)
      requires primaryEntries != secondaryEntries
      requires CopiesTable(Abs(), validHeaders) && 1 <= valid_entries <= 3 ==>
                 && TrustedSize(Abs(), validHeaders) <= primaryEntries.Length
                 && TrustedSize(Abs(), validHeaders) <= secondaryEntries.Length
      modifies primaryEntries, secondaryEntries
      ensures var c := old(Abs()); var copies, n := CopiesTable(c, validHeaders), TrustedSize(c, validHeaders);
              if copies && (valid_entries == MASK_BOTH || valid_entries == MASK_PRIMARY)
              then && Abs() == c.(e2 := Overlaid(c.e2, c.e1, n))
                   && r == (if valid_entries == MASK_BOTH && c.e1[..n] == c.e2[..n] then {} else {Entries2})
              else if copies && valid_entries == MASK_SECONDARY
              then Abs() == c.(e1 := Overlaid(c.e1, c.e2, n)) && r == {Entries1}
              else Abs() == c && r == {}
    {
      hide EntriesSize;
      if primaryHeader.signature == SIGNATURE2 {
        return {};
      }
      var h;
      if validHeaders % 2 == 1 {
        h := primaryHeader;
      } else if validHeaders / 2 % 2 == 1 {
        h := secondaryHeader;
      } else {
        return {};
      }
      var n := EntriesSize(h);
      if valid_entries == MASK_BOTH {
        if primaryEntries[..n] != secondaryEntries[..n] {
          CopyBytes(secondaryEntries, primaryEntries, n);
          return {Entries2};
        }
        assert secondaryEntries[..] == secondaryEntries[..n] + secondaryEntries[n..];
      } else if valid_entries == MASK_PRIMARY {
        CopyBytes(secondaryEntries, primaryEntries, n);
        return {Entries2};
      } else if valid_entries == MASK_SECONDARY {
        CopyBytes(primaryEntries, secondaryEntries, n);
        return {Entries1};
      }
      return {};
    }

    /** Makes the headers agree, trusting the primary when both are valid. */
    method RepairHeader(valid_headers: word) returns (r: set<Part>)
      modifies `primaryHeader, `secondaryHeader
      ensures var h1, h2 := old(primaryHeader), old(secondaryHeader);
              if valid_headers == MASK_BOTH
              then && primaryHeader == h1 && Synonymous(h1, secondaryHeader)
                   && secondaryHeader == h2.(first_usable_lba := h1.first_usable_lba, last_usable_lba := h1.last_usable_lba,
                                             number_of_entries := h1.number_of_entries, size_of_entry := h1.size_of_entry,
                                             disk_uuid := h1.disk_uuid)
                   && r == (if Synonymous(h1, h2) then {} else {Header2})
              else if valid_headers == MASK_PRIMARY
              then primaryHeader == h1 && secondaryHeader == SecondaryOf(h1, sectors) && r == {Header2}
              else if valid_headers == MASK_SECONDARY
              then primaryHeader == PrimaryOf(h2) && secondaryHeader == h2 && r == {Header1}
              else primaryHeader == h1 && secondaryHeader == h2 && r == {}
    {
      if valid_headers == MASK_BOTH {
        if !Synonymous(primaryHeader, secondaryHeader) {
          secondaryHeader := secondaryHeader.(first_usable_lba := primaryHeader.first_usable_lba);
          secondaryHeader := secondaryHeader.(last_usable_lba := primaryHeader.last_usable_lba);
          secondaryHeader := secondaryHeader.(number_of_entries := primaryHeader.number_of_entries);
          secondaryHeader := secondaryHeader.(size_of_entry := primaryHeader.size_of_entry);
          secondaryHeader := secondaryHeader.(disk_uuid := primaryHeader.disk_uuid);
          return {Header2};
        }
      } else if valid_headers == MASK_PRIMARY {
        secondaryHeader := primaryHeader;
        secondaryHeader := secondaryHeader.(my_lba := Sub64(sectors, 1));
        secondaryHeader := secondaryHeader.(alternate_lba := primaryHeader.my_lba);
        secondaryHeader := secondaryHeader.(entries_lba := Sub64(secondaryHeader.my_lba, EntriesSectors(primaryHeader)));
        return {Header2};
      } else if valid_headers == MASK_SECONDARY {
        primaryHeader := secondaryHeader;
        primaryHeader := primaryHeader.(my_lba := 1);
        primaryHeader := primaryHeader.(alternate_lba := secondaryHeader.my_lba);
        primaryHeader := primaryHeader.(entries_lba := primaryHeader.my_lba + 1);
        return {Header1};
      }
      return {};
    }

    /** Recomputes the checksums of what was modified; tables before headers, as a header covers its table's. */
    method UpdateCrc()
      requires Entries1 in modified && primaryHeader.signature != SIGNATURE2 ==>
                 EntriesSize(primaryHeader) <= primaryEntries.Length
      requires Entries2 in modified ==> EntriesSize(secondaryHeader) <= secondaryEntries.Length
      modifies `primaryHeader, `secondaryHeader
      ensures primaryHeader == Sealing(crc, old(primaryHeader), primaryEntries[..],
                                       Entries1 in modified && old(primaryHeader).signature != SIGNATURE2,
                                       Header1 in modified)
      ensures secondaryHeader == Sealing(crc, old(secondaryHeader), secondaryEntries[..],
                                         Entries2 in modified, Header2 in modified)
    {
      hide HeaderBytes, EntriesSize;
      if Entries1 in modified && primaryHeader.signature != SIGNATURE2 {
        primaryHeader := primaryHeader.(entries_crc32 := crc(primaryEntries[..EntriesSize(primaryHeader)]));
      }
      if Entries2 in modified {
        secondaryHeader := secondaryHeader.(entries_crc32 := crc(secondaryEntries[..EntriesSize(secondaryHeader)]));
      }
      if Header1 in modified {
        primaryHeader := primaryHeader.(header_crc32 := 0);
        primaryHeader := primaryHeader.(header_crc32 := crc(HeaderBytes(primaryHeader)));
      }
      if Header2 in modified {
        secondaryHeader := secondaryHeader.(header_crc32 := 0);
        secondaryHeader := secondaryHeader.(header_crc32 := crc(HeaderBytes(secondaryHeader)));
      }
    }

    /** Brings the whole GPT in line with the primary copy. */
    method UpdateAllEntries()
      requires primaryEntries != secondaryEntries && Updatable(Abs(), validHeaders)
      modifies this, primaryEntries, secondaryEntries
      ensures validHeaders == old(validHeaders)
      ensures Abs() == Updated(crc, sectors, old(Abs()), old(validHeaders))
      ensures modified == old(modified) + {Header1, Header2, Entries1, Entries2}
    {
      hide EntriesSize, HeaderBytes, Sub64, EntriesSectors;
      ghost var c := Abs();
      SameSizes(primaryHeader, sectors);
      var r := RepairEntries(MASK_PRIMARY);
      r := RepairHeader(MASK_PRIMARY);
      modified := modified + {Header1, Entries1, Header2, Entries2};
      UpdateCrc();
    }
  }

  /** The buffers hold the tables that the headers announce. */
  predicate Updatable(c: Copies, valid: word)
  {
    && EntriesSize(c.h1) <= |c.e1| && EntriesSize(c.h1) <= |c.e2|
    && (CopiesTable(c, valid) ==> TrustedSize(c, valid) <= |c.e1| && TrustedSize(c, valid) <= |c.e2|)
  }

  function Updated(crc: CrcFn, sectors: Long, c: Copies, valid: word): Copies
    requires Updatable(c, valid)
  {
    var e2 := if CopiesTable(c, valid) then Overlaid(c.e2, c.e1, TrustedSize(c, valid)) else c.e2;
    var h2 := SecondaryOf(c.h1, sectors);
    SameSizes(c.h1, sectors);
    Copies(Sealing(crc, c.h1, c.e1, c.h1.signature != SIGNATURE2, true), Sealing(crc, h2, e2, true, true), c.e1, e2)
  }

  lemma SameSizes(h1: Header, sectors: Long)
    ensures EntriesSize(SecondaryOf(h1, sectors)) == EntriesSize(h1)
  {
  }

  method CopyBytes(target: array<byte>, source: array<byte>, n: nat)
    requires target != source && n <= target.Length && n <= source.Length
    modifies target
    ensures target[..] == Overlaid(old(target[..]), source[..], n)
  {
    forall i | 0 <= i < n {
      target[i] := source[i];
    }
  }

  // Sizes and places

  /** The table fills its sectors but for less than one; its size is the product of the fields if that fits. */
  lemma SectorsCover(h: Header)
    ensures var n, s := EntriesSize(h), EntriesSectors(h);
            && n <= 512 * s < n + 512
            && (h.number_of_entries * h.size_of_entry < BASE ==> n == h.number_of_entries * h.size_of_entry)
  {
    hide EntriesSize;
    RoundUp(EntriesSize(h));
    SizeFits(h, h.number_of_entries * h.size_of_entry);
  }

  lemma RoundUp(n: nat)
    ensures n <= 512 * ((n + 511) / 512) < n + 512
  {
  }

  lemma SizeFits(h: Header, p: int)
    requires p == h.number_of_entries * h.size_of_entry
    ensures EntriesSize(h) == p % BASE && (0 <= p < BASE ==> p % BASE == p)
    ensures p >= 0
  {
  }

  lemma CountedBack(x: Long, d: Long)
    ensures SectorsBetween(Sub64(x, d), x) == d
    ensures Sub64(x, d) == if d <= x then x - d else TWO64 - d + x
  {
    if d <= x {
      assert Sub64(x, d) == x - d;
    } else {
      assert (x - d) / TWO64 == -1;
    }
  }

  /** The secondary header goes to the last sector and its table right before it. */
  lemma SecondaryPlaces(h1: Header, sectors: Long)
    ensures var h2 := SecondaryOf(h1, sectors); var n := EntriesSize(h1);
            && h2.my_lba == (if sectors > 0 then sectors - 1 else TWO64 - 1)
            && n <= 512 * SectorsBetween(h2.entries_lba, h2.my_lba) < n + 512
  {
    hide EntriesSize, EntriesSectors, Sub64, SectorsBetween;
    SectorsCover(h1);
    CountedBack(sectors, 1);
    CountedBack(Sub64(sectors, 1), EntriesSectors(h1));
  }

  /** A primary comes back from its secondary exactly when it was in its usual place and named the last sector. */
  lemma PrimaryComesBack(h1: Header, sectors: Long)
    ensures PrimaryOf(SecondaryOf(h1, sectors)) == h1 <==>
            h1.my_lba == 1 && h1.entries_lba == 2 && h1.alternate_lba == (if sectors > 0 then sectors - 1 else TWO64 - 1)
  {
    SecondaryPlaces(h1, sectors);
    hide EntriesSize, Sub64, EntriesSectors;
  }

  /** A secondary that the reader lets through comes back from its primary exactly when it named sector 1. */
  lemma SecondaryComesBack(h2: Header, streaming: Long, sectors: Long, external: bool)
    requires Plausible(h2, true, streaming, sectors, external)
    ensures var h1 := PrimaryOf(h2);
            && Plausible(h1, false, streaming, sectors, external)
            && Synonymous(h1, h2) && h1.alternate_lba == h2.my_lba && h1.entries_lba == h1.my_lba + 1
            && (SecondaryOf(h1, sectors) == h2 <==> h2.alternate_lba == 1)
  {
    hide Sub64;
    assert EntriesSectors(PrimaryOf(h2)) == EntriesSectors(h2);
  }

  // The header on disk

  lemma WordInside(a: seq<byte>, part: seq<byte>, b: seq<byte>, k: nat)
    requires k + 4 <= |part|
    ensures LeWord(a + part + b, |a| + k) == LeWord(part, k)
  {
    hide Pack32;
  }

  lemma LongInside(a: seq<byte>, part: seq<byte>, b: seq<byte>, k: nat)
    requires k + 8 <= |part|
    ensures LeLong(a + part + b, |a| + k) == LeLong(part, k)
  {
    hide Pack32;
  }

  lemma FrontFields(h: Header)
    ensures var s := FrontBytes(h);
            && s[..8] == h.signature && LeWord(s, 8) == h.revision && LeWord(s, 12) == h.size
            && LeWord(s, 16) == h.header_crc32 && LeWord(s, 20) == h.reserved_zero
  {
    hide LeBytes, LeWord;
    var s, r, z := FrontBytes(h), LeBytes(h.revision, 4), LeBytes(h.size, 4);
    var c, o := LeBytes(h.header_crc32, 4), LeBytes(h.reserved_zero, 4);
    ReadWord(h.signature, h.revision, z + c + o);
    assert s == h.signature + r + (z + c + o);
    ReadWord(h.signature + r, h.size, c + o);
    assert s == (h.signature + r) + z + (c + o);
    ReadWord(h.signature + r + z, h.header_crc32, o);
    ReadWord(h.signature + r + z + c, h.reserved_zero, []);
    assert s == (h.signature + r + z + c) + o + [];
  }

  lemma LbaFields(h: Header)
    ensures var s := LbaBytes(h);
            && LeLong(s, 0) == h.my_lba && LeLong(s, 8) == h.alternate_lba
            && LeLong(s, 16) == h.first_usable_lba && LeLong(s, 24) == h.last_usable_lba
  {
    hide LeBytes, LeLong;
    var s, m, a := LbaBytes(h), LeBytes(h.my_lba, 8), LeBytes(h.alternate_lba, 8);
    var f, l := LeBytes(h.first_usable_lba, 8), LeBytes(h.last_usable_lba, 8);
    ReadLong([], h.my_lba, a + f + l);
    assert s == [] + m + (a + f + l);
    ReadLong(m, h.alternate_lba, f + l);
    assert s == m + a + (f + l);
    ReadLong(m + a, h.first_usable_lba, l);
    ReadLong(m + a + f, h.last_usable_lba, []);
    assert s == (m + a + f) + l + [];
  }

  lemma TableFields(h: Header)
    ensures var s := TableBytes(h);
            && LeLong(s, 0) == h.entries_lba && LeWord(s, 8) == h.number_of_entries
            && LeWord(s, 12) == h.size_of_entry && LeWord(s, 16) == h.entries_crc32
  {
    hide LeBytes, LeLong, LeWord;
    var s, e, n := TableBytes(h), LeBytes(h.entries_lba, 8), LeBytes(h.number_of_entries, 4);
    var z, c := LeBytes(h.size_of_entry, 4), LeBytes(h.entries_crc32, 4);
    ReadLong([], h.entries_lba, n + z + c);
    assert s == [] + e + (n + z + c);
    ReadWord(e, h.number_of_entries, z + c);
    assert s == e + n + (z + c);
    ReadWord(e + n, h.size_of_entry, c);
    ReadWord(e + n + z, h.entries_crc32, []);
    assert s == (e + n + z) + c + [];
  }

  /** Every field is found at the offset that section 5.3.2 of the UEFI specification gives it. */
  lemma HeaderOnDisk(h: Header)
    ensures var s := HeaderBytes(h);
            && s[..8] == h.signature && LeWord(s, 8) == h.revision && LeWord(s, 12) == h.size
            && LeWord(s, 16) == h.header_crc32 && LeWord(s, 20) == h.reserved_zero
            && LeLong(s, 24) == h.my_lba && LeLong(s, 32) == h.alternate_lba
            && LeLong(s, 40) == h.first_usable_lba && LeLong(s, 48) == h.last_usable_lba && s[56..72] == h.disk_uuid
            && LeLong(s, 72) == h.entries_lba && LeWord(s, 80) == h.number_of_entries
            && LeWord(s, 84) == h.size_of_entry && LeWord(s, 88) == h.entries_crc32
  {
    hide LeLong, LeWord, FrontBytes, LbaBytes, TableBytes;
    var s, f, l, u, t := HeaderBytes(h), FrontBytes(h), LbaBytes(h), h.disk_uuid, TableBytes(h);
    FrontFields(h);
    LbaFields(h);
    TableFields(h);
    assert s == [] + f + (l + u + t) && s == f + l + (u + t) && s == (f + l + u) + t + [];
    WordInside([], f, l + u + t, 8);
    WordInside([], f, l + u + t, 12);
    WordInside([], f, l + u + t, 16);
    WordInside([], f, l + u + t, 20);
    LongInside(f, l, u + t, 0);
    LongInside(f, l, u + t, 8);
    LongInside(f, l, u + t, 16);
    LongInside(f, l, u + t, 24);
    LongInside(f + l + u, t, [], 0);
    WordInside(f + l + u, t, [], 8);
    WordInside(f + l + u, t, [], 12);
    WordInside(f + l + u, t, [], 16);
  }

  // What an update achieves

  /** Mirrored tables, headers that match, and all four checksums right at once. */
  lemma UpdateMirrors(crc: CrcFn, sectors: Long, c: Copies, valid: word)
    requires Updatable(c, valid) && valid % 2 == 1 && c.h1.signature != SIGNATURE2
    ensures var c' := Updated(crc, sectors, c, valid);
            && Mirrored(c'.h1, c'.h2, c'.e1, c'.e2, sectors)
            && Sealed(crc, c'.h1, c'.e1) && Sealed(crc, c'.h2, c'.e2)
            && c'.e1 == c.e1 && c'.e2[EntriesSize(c.h1)..] == c.e2[EntriesSize(c.h1)..]
            && c'.h1 == c.h1.(entries_crc32 := c'.h1.entries_crc32, header_crc32 := c'.h1.header_crc32)
            && c'.h1.entries_crc32 == c'.h2.entries_crc32
  {
    hide HeaderBytes, Sub64, EntriesSectors;
    var c' := Updated(crc, sectors, c, valid);
    var n := EntriesSize(c.h1);
    SecondaryPlaces(c.h1, sectors);
    assert c'.e2[..n] == c.e1[..n];
    assert c'.h1.(header_crc32 := 0) == c.h1.(entries_crc32 := c'.h1.entries_crc32, header_crc32 := 0);
    assert c'.h2.(header_crc32 := 0) == SecondaryOf(c.h1, sectors).(entries_crc32 := c'.h2.entries_crc32, header_crc32 := 0);
  }

  /** The headers point at each other exactly when the primary named the last sector to begin with. */
  lemma UpdatePointsBack(crc: CrcFn, sectors: Long, c: Copies, valid: word)
    requires Updatable(c, valid)
    ensures var c' := Updated(crc, sectors, c, valid);
            && c'.h2.alternate_lba == c'.h1.my_lba
            && (c'.h1.alternate_lba == c'.h2.my_lba <==> c.h1.alternate_lba == Sub64(sectors, 1))
  {
    hide HeaderBytes, EntriesSize, Sub64, EntriesSectors;
  }

  /** Every primary that names sector 0 still does after an update, and the secondary is elsewhere. */
  lemma PointsElsewhere(crc: CrcFn, sectors: Long, c: Copies, valid: word)
    requires Updatable(c, valid) && sectors > 1 && c.h1.alternate_lba == 0
    ensures var c' := Updated(crc, sectors, c, valid); c'.h1.alternate_lba == 0 != c'.h2.my_lba
  {
    hide HeaderBytes, EntriesSize, EntriesSectors;
    UpdatePointsBack(crc, sectors, c, valid);
  }

  /** A disk with the alternate signature keeps both its tables, and its primary keeps the table checksum. */
  lemma AlternateSignature(crc: CrcFn, sectors: Long, c: Copies, valid: word)
    requires Updatable(c, valid) && c.h1.signature == SIGNATURE2
    ensures var c' := Updated(crc, sectors, c, valid);
            && c'.e1 == c.e1 && c'.e2 == c.e2 && c'.h1.entries_crc32 == c.h1.entries_crc32
            && c'.h1.header_crc32 == OwnCrc(crc, c'.h1) && Sealed(crc, c'.h2, c'.e2)
  {
    hide HeaderBytes, Sub64;
    var c' := Updated(crc, sectors, c, valid);
    assert c'.h1.(header_crc32 := 0) == c.h1.(header_crc32 := 0);
    assert c'.h2.(header_crc32 := 0) == SecondaryOf(c.h1, sectors).(entries_crc32 := c'.h2.entries_crc32, header_crc32 := 0);
  }

  /**
   * A second update finds nothing to do, except where the first one copied by a smaller size, that in the
   * secondary header, and the tables differ in what it did not copy.
   */
  lemma UpdateTwice(crc: CrcFn, sectors: Long, c: Copies, valid: word)
    requires Updatable(c, valid)
    ensures var c', m, n := Updated(crc, sectors, c, valid), TrustedSize(c, valid), EntriesSize(c.h1);
            && Updatable(c', valid)
            && (Updated(crc, sectors, c', valid) == c'
                <==> (CopiesTable(c, valid) ==> n <= m || c.e1[m..n] == c.e2[m..n]))
  {
    hide HeaderBytes, Sub64;
    var c' := Updated(crc, sectors, c, valid);
    var c'' := Updated(crc, sectors, c', valid);
    var m, n := TrustedSize(c, valid), EntriesSize(c.h1);
    assert TrustedSize(c', valid) == n && CopiesTable(c', valid) == CopiesTable(c, valid);
    if CopiesTable(c, valid) {
      CopiedPart(c.e1, c.e2, m, n);
    }
    if CopiesTable(c, valid) ==> c'.e2[..n] == c.e1[..n] {
      assert c''.e2 == c'.e2;
      assert c'.h1.(header_crc32 := 0) == c.h1.(entries_crc32 := c'.h1.entries_crc32, header_crc32 := 0);
      assert c''.h1 == c'.h1;
      assert SecondaryOf(c'.h1, sectors).(entries_crc32 := 0, header_crc32 := 0)
          == SecondaryOf(c.h1, sectors).(entries_crc32 := 0, header_crc32 := 0);
      assert c''.h2.(header_crc32 := 0) == c'.h2.(header_crc32 := 0);
    } else {
      assert c''.e2[..n] == c.e1[..n];
    }
  }

  /** After copying m bytes the first n agree exactly when they agreed from m on. */
  lemma CopiedPart(e1: seq<byte>, e2: seq<byte>, m: nat, n: nat)
    requires m <= |e1| && m <= |e2| && n <= |e1| && n <= |e2|
    ensures Overlaid(e2, e1, m)[..n] == e1[..n] <==> n <= m || e1[m..n] == e2[m..n]
  {
    var r := Overlaid(e2, e1, m);
    if n > m {
      assert r[..n] == e1[..m] + e2[m..n] && e1[..n] == e1[..m] + e1[m..n];
      assert r[..n][m..] == e2[m..n] && e1[..n][m..] == e1[m..n];
    } else {
      assert r[..n] == e1[..n];
    }
  }

  // The good table

  /** One table passes its check over the trusted size. */
  ghost predicate HasGoodTable(check: seq<byte> -> bool, e1: seq<byte>, e2: seq<byte>, m: nat)
    requires m <= |e1| && m <= |e2|
  {
    check(e1[..m]) || check(e2[..m])
  }

  /**
   * An update always copies from the primary table, whichever table passed its check. A good table survives
   * exactly when the primary one is good or the alternate signature forbids copying.
   */
  lemma GoodTableSurvives(check: seq<byte> -> bool, crc: CrcFn, sectors: Long, c: Copies, valid: word)
    requires Updatable(c, valid) && (valid % 2 == 1 || valid / 2 % 2 == 1)
    requires var m := TrustedSize(c, valid); m <= |c.e1| && m <= |c.e2| && HasGoodTable(check, c.e1, c.e2, m)
    ensures var c', m := Updated(crc, sectors, c, valid), TrustedSize(c, valid);
            && |c'.e1| == |c.e1| && |c'.e2| == |c.e2|
            && (HasGoodTable(check, c'.e1, c'.e2, m) <==> check(c.e1[..m]) || c.h1.signature == SIGNATURE2)
  {
    hide HeaderBytes, EntriesSize, Sub64, EntriesSectors;
    var c', m := Updated(crc, sectors, c, valid), TrustedSize(c, valid);
    if CopiesTable(c, valid) {
      assert c'.e2[..m] == c.e1[..m];
    }
  }

  // What the reader of a GPT then says

  /** The header check; tail is what follows the structure in its sector. */
  predicate CheckHeader(crc: CrcFn, h: Header, tail: seq<byte>, secondary: bool,
                        streaming: Long, sectors: Long, external: bool)
    requires |tail| == SECTOR - HEADER_STRUCT
  {
    && Plausible(h, secondary, streaming, sectors, external)
    && crc((HeaderBytes(h.(header_crc32 := 0)) + tail)[..h.size]) == h.header_crc32
  }

  /** Everything but the checksum. */
  predicate Plausible(h: Header, secondary: bool, streaming: Long, sectors: Long, external: bool)
  {
    && (h.signature == SIGNATURE || h.signature == SIGNATURE2)
    && h.revision == 0x1_0000
    && HEADER_STRUCT <= h.size <= SECTOR
    && h.reserved_zero == 0
    && h.size_of_entry == 128
    && 16 <= h.number_of_entries <= 128 && (!external ==> h.number_of_entries == 128)
    && (if secondary
        then h.my_lba == Sub64(sectors, 1) && h.entries_lba == Sub64(h.my_lba, EntriesSectors(h))
        else h.my_lba == 1 && h.entries_lba >= 2)
    && h.first_usable_lba <= h.last_usable_lba
    && (if external
        then h.last_usable_lba < streaming
        else h.first_usable_lba >= 2 + EntriesSectors(h)
             && h.last_usable_lba < Sub64(streaming, 1 + EntriesSectors(h)))
  }

  /** The updated headers keep everything but their checksums, whatever the checksum function. */
  lemma UpdatePlausible(crc: CrcFn, c: Copies, valid: word, streaming: Long, sectors: Long, external: bool)
    requires Updatable(c, valid) && Plausible(c.h1, false, streaming, sectors, external)
    ensures var c' := Updated(crc, sectors, c, valid);
            && Plausible(c'.h1, false, streaming, sectors, external) && Plausible(c'.h2, true, streaming, sectors, external)
            && c'.h1.size == c'.h2.size == c.h1.size
            && c'.h1.header_crc32 == OwnCrc(crc, c'.h1) && c'.h2.header_crc32 == OwnCrc(crc, c'.h2)
  {
    hide HeaderBytes, Sub64;
    var c' := Updated(crc, sectors, c, valid);
    assert EntriesSectors(c'.h1) == EntriesSectors(c'.h2) == EntriesSectors(c.h1);
    assert c'.h1.(header_crc32 := 0) == c.h1.(entries_crc32 := c'.h1.entries_crc32, header_crc32 := 0);
    assert c'.h2.(header_crc32 := 0)
        == SecondaryOf(c.h1, sectors).(entries_crc32 := c'.h2.entries_crc32, header_crc32 := 0);
  }

  /** An updated header that states the size of the structure passes the check, under every checksum function. */
  lemma UpdateRevalidates(crc: CrcFn, c: Copies, valid: word, tail1: seq<byte>, tail2: seq<byte>,
                          streaming: Long, sectors: Long, external: bool)
    requires Updatable(c, valid) && |tail1| == |tail2| == SECTOR - HEADER_STRUCT
    requires Plausible(c.h1, false, streaming, sectors, external) && c.h1.size == HEADER_STRUCT
    ensures var c' := Updated(crc, sectors, c, valid);
            && CheckHeader(crc, c'.h1, tail1, false, streaming, sectors, external)
            && CheckHeader(crc, c'.h2, tail2, true, streaming, sectors, external)
  {
    hide HeaderBytes, Plausible, Updated;
    UpdatePlausible(crc, c, valid, streaming, sectors, external);
    var c' := Updated(crc, sectors, c, valid);
    var b1, b2 := HeaderBytes(c'.h1.(header_crc32 := 0)), HeaderBytes(c'.h2.(header_crc32 := 0));
    assert (b1 + tail1)[..HEADER_STRUCT] == b1 && (b2 + tail2)[..HEADER_STRUCT] == b2;
  }

  /** A checksum function that tells strings of 92 bytes from all others. */
  function Separating(v: word): CrcFn
  {
    s => if |s| == HEADER_STRUCT then (v + 1) % BASE else v
  }

  /** With any other size, the check can pass before an update and fail after it, for both headers. */
  lemma LongHeaderRejected(c: Copies, valid: word, tail1: seq<byte>, tail2: seq<byte>,
                           streaming: Long, sectors: Long, external: bool)
    requires Updatable(c, valid) && |tail1| == |tail2| == SECTOR - HEADER_STRUCT
    requires Plausible(c.h1, false, streaming, sectors, external) && c.h1.size != HEADER_STRUCT
    ensures var crc := Separating(c.h1.header_crc32); var c' := Updated(crc, sectors, c, valid);
            && CheckHeader(crc, c.h1, tail1, false, streaming, sectors, external)
            && !CheckHeader(crc, c'.h1, tail1, false, streaming, sectors, external)
            && !CheckHeader(crc, c'.h2, tail2, true, streaming, sectors, external)
  {
    hide HeaderBytes, Plausible, Updated;
    assert HEADER_STRUCT < c.h1.size <= SECTOR by { SizeInRange(c.h1, false, streaming, sectors, external); }
    UpdatePlausible(Separating(c.h1.header_crc32), c, valid, streaming, sectors, external);
  }

  lemma SizeInRange(h: Header, secondary: bool, streaming: Long, sectors: Long, external: bool)
    requires Plausible(h, secondary, streaming, sectors, external)
    ensures HEADER_STRUCT <= h.size <= SECTOR
  {
  }

  /** A valid disk stays valid through an update under every checksum function exactly when its header states 92 bytes. */
  lemma SurvivesUpdate(c: Copies, valid: word, tail1: seq<byte>, tail2: seq<byte>,
                       streaming: Long, sectors: Long, external: bool)
    requires Updatable(c, valid) && |tail1| == |tail2| == SECTOR - HEADER_STRUCT
    requires Plausible(c.h1, false, streaming, sectors, external)
    ensures (forall crc: CrcFn :: CheckHeader(crc, c.h1, tail1, false, streaming, sectors, external) ==>
               CheckHeader(crc, Updated(crc, sectors, c, valid).h1, tail1, false, streaming, sectors, external))
            <==> c.h1.size == HEADER_STRUCT
    ensures (forall crc: CrcFn :: CheckHeader(crc, c.h1, tail1, false, streaming, sectors, external) ==>
               CheckHeader(crc, Updated(crc, sectors, c, valid).h2, tail2, true, streaming, sectors, external))
            <==> c.h1.size == HEADER_STRUCT
  {
    hide CheckHeader, Plausible, Updated, Updatable;
    if c.h1.size == HEADER_STRUCT {
      forall crc: CrcFn
        ensures CheckHeader(crc, Updated(crc, sectors, c, valid).h1, tail1, false, streaming, sectors, external)
        ensures CheckHeader(crc, Updated(crc, sectors, c, valid).h2, tail2, true, streaming, sectors, external)
      {
        UpdateRevalidates(crc, c, valid, tail1, tail2, streaming, sectors, external);
      }
    } else {
      LongHeaderRejected(c, valid, tail1, tail2, streaming, sectors, external);
    }
  }

  // States that the reader lets through

  /** Sizes are fixed unless the GPT is on a device of its own: then a second update never changes anything. */
  lemma UpdateTwiceInternal(crc: CrcFn, c: Copies, valid: word, streaming: Long, sectors: Long)
    requires Updatable(c, valid)
    requires Plausible(c.h1, false, streaming, sectors, false) && Plausible(c.h2, true, streaming, sectors, false)
    ensures var c' := Updated(crc, sectors, c, valid); Updatable(c', valid) && Updated(crc, sectors, c', valid) == c'
  {
    hide HeaderBytes, Sub64, Updated, EntriesSectors;
    UpdateTwice(crc, sectors, c, valid);
  }

  /** A header for an external GPT of 1000 sectors. */
  function External(entries: word, my: Long, entries_lba: Long): Header
  {
    Header(SIGNATURE, 0x1_0000, HEADER_STRUCT, 0, 0, my, 0, 34, 900, seq(16, _ => 0), entries_lba, entries, 128, 0)
  }

  /** The headers state 20 and 17 entries, only the secondary is trusted, and the tables differ in the eighteenth. */
  function UnevenDisk(): Copies
  {
    Copies(External(20, 1, 2), External(17, 999, 994), Zeros(2560), Zeros(2560)[2176 := 1])
  }

  /** There the second update does change the table. */
  lemma UpdatedTwiceDiffers(crc: CrcFn)
    ensures var c := UnevenDisk();
            && Plausible(c.h1, false, 1000, 1000, true) && Plausible(c.h2, true, 1000, 1000, true)
            && Updatable(c, MASK_SECONDARY) && Updatable(Updated(crc, 1000, c, MASK_SECONDARY), MASK_SECONDARY)
            && Updated(crc, 1000, Updated(crc, 1000, c, MASK_SECONDARY), MASK_SECONDARY)
               != Updated(crc, 1000, c, MASK_SECONDARY)
  {
    hide HeaderBytes, Updated, Zeros;
    var c := UnevenDisk();
    assert EntriesSize(c.h1) == 2560 && EntriesSize(c.h2) == 2176;
    assert c.e1[2176..2560][0] == 0 && c.e2[2176..2560][0] == 1;
    UpdateTwice(crc, 1000, c, MASK_SECONDARY);
  }

  /** And there a table that alone passes its check is lost. */
  lemma GoodTableLost(crc: CrcFn)
    ensures var c := UnevenDisk(); var check := (t: seq<byte>) => t == c.e2[..2560];
            && Updatable(c, MASK_PRIMARY) && HasGoodTable(check, c.e1, c.e2, 2560)
            && var c' := Updated(crc, 1000, c, MASK_PRIMARY);
            |c'.e1| == |c'.e2| == 2560 && !HasGoodTable(check, c'.e1, c'.e2, 2560)
  {
    hide HeaderBytes, Updated, Zeros;
    var c := UnevenDisk();
    var check := (t: seq<byte>) => t == c.e2[..2560];
    assert EntriesSize(c.h1) == 2560;
    assert c.e1[..2560][2176] == 0 && c.e2[..2560][2176] == 1;
    GoodTableSurvives(check, crc, 1000, c, MASK_PRIMARY);
  }
}
