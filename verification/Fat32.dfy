/** Cluster chains of kernel/fs/drivers/fat32.cpp: reading a file along its chain and allocating a
    cluster. LBAs are relative to the partition; an LBA outside the disk map cannot be read. */
module Fat32 {
  import opened Basics
  import opened Modular

  type Disk = map<nat, seq<byte>>

  const EOF: nat := 0x0FFF_FFF8
  const ENTRY: nat := 0x1000_0000  // FAT entries are 28 bits wide
  const FREE: nat := 0

  datatype Geometry = Geometry(
    bytesPerSector: nat,
    sectorsPerCluster: nat,
    fatStart: nat,
    numFats: nat,
    sectorsPerFat: nat,
    totalClusters: nat,
    clusterSize: nat
  )

  function DataStart(g: Geometry): nat { g.fatStart + g.numFats * g.sectorsPerFat }

  /** The size of count sectors. */
  function Bytes(count: nat, sectorSize: nat): nat
  {
    if count == 0 then 0 else Bytes(count - 1, sectorSize) + sectorSize
  }

  /** What a formatted volume guarantees. */
  ghost predicate GeometryOk(g: Geometry)
  {
    && g.bytesPerSector > 0 && g.bytesPerSector % 4 == 0
    && g.sectorsPerCluster > 0 && g.numFats > 0
    && g.clusterSize == Bytes(g.sectorsPerCluster, g.bytesPerSector) > 0
    && g.totalClusters + 2 <= EOF
  }

  /** The FAT is large enough for an entry per cluster. */
  ghost predicate FatFits(g: Geometry)
  {
    (g.totalClusters + 2) * 4 <= g.sectorsPerFat * g.bytesPerSector
  }

  ghost predicate SectorsOk(g: Geometry, disk: Disk)
  {
    forall k :: k in disk ==> |disk[k]| == g.bytesPerSector
  }

  // --- FAT entries ---

  /** A little-endian 32-bit word. */
  function Word(s: seq<byte>, o: nat): (w: nat)
    requires o + 4 <= |s|
    ensures w < 0x1_0000_0000
  {
    var b0: int, b1: int, b2: int, b3: int := s[o], s[o + 1], s[o + 2], s[o + 3];
    b0 + 0x100 * b1 + 0x1_0000 * b2 + 0x100_0000 * b3
  }

  function SetWord(s: seq<byte>, o: nat, w: nat): (t: seq<byte>)
    requires o + 4 <= |s| && w < 0x1_0000_0000
    ensures |t| == |s|
  {
    s[o := w % 0x100][o + 1 := w / 0x100 % 0x100][o + 2 := w / 0x1_0000 % 0x100][o + 3 := w / 0x100_0000]
  }

  lemma WordParts(w: nat)
    requires w < 0x1_0000_0000
    ensures w == w % 0x100 + 0x100 * (w / 0x100 % 0x100)
                 + 0x1_0000 * (w / 0x1_0000 % 0x100) + 0x100_0000 * (w / 0x100_0000)
  {
    var a := w / 0x100;
    var b := a / 0x100;
    assert w / 0x1_0000 == b && w / 0x100_0000 == b / 0x100;
  }

  lemma WordRoundTrip(s: seq<byte>, o: nat, w: nat, p: nat)
    requires o + 4 <= |s| && p + 4 <= |s| && w < 0x1_0000_0000
    requires p == o || p + 4 <= o || o + 4 <= p
    ensures Word(SetWord(s, o, w), p) == if p == o then w else Word(s, p)
  {
    var t := SetWord(s, o, w);
    if p == o {
      WordParts(w);
      assert t[o] == w % 0x100 && t[o + 1] == w / 0x100 % 0x100;
      assert t[o + 2] == w / 0x1_0000 % 0x100 && t[o + 3] == w / 0x100_0000;
    } else {
      assert t[p] == s[p] && t[p + 1] == s[p + 1] && t[p + 2] == s[p + 2] && t[p + 3] == s[p + 3];
    }
  }

  function FatSector(g: Geometry, c: nat): nat
    requires g.bytesPerSector > 0
  {
    c * 4 / g.bytesPerSector
  }

  function EntryOffset(g: Geometry, c: nat): nat
    requires g.bytesPerSector > 0
  {
    c * 4 % g.bytesPerSector
  }

  /** A cluster number is four bytes into the FAT, and never straddles a sector. */
  lemma EntryInSector(g: Geometry, c: nat)
    requires g.bytesPerSector > 0 && g.bytesPerSector % 4 == 0
    ensures EntryOffset(g, c) + 4 <= g.bytesPerSector && EntryOffset(g, c) % 4 == 0
  {
    var b := g.bytesPerSector / 4;
    assert g.bytesPerSector == 4 * b;
    var q, r := c / b, c % b;
    assert c == q * b + r;
    assert c * 4 == q * (4 * b) + 4 * r;
    Unique(c * 4, 4 * b, q, 4 * r);
  }

  lemma EntrySectorInFat(g: Geometry, c: nat)
    requires GeometryOk(g) && FatFits(g) && c < g.totalClusters + 2
    ensures FatSector(g, c) < g.sectorsPerFat
  {
    var s, b := FatSector(g, c), g.bytesPerSector;
    assert c * 4 == s * b + c * 4 % b;
    ProductBounds(g.sectorsPerFat - s, b);
    assert (g.sectorsPerFat - s) * b == g.sectorsPerFat * b - s * b;
  }

  /** Entries of different clusters do not overlap. */
  lemma EntriesApart(g: Geometry, c: nat, d: nat)
    requires g.bytesPerSector > 0 && g.bytesPerSector % 4 == 0 && c != d && FatSector(g, c) == FatSector(g, d)
    ensures EntryOffset(g, c) + 4 <= EntryOffset(g, d) || EntryOffset(g, d) + 4 <= EntryOffset(g, c)
  {
    var s, b := FatSector(g, c), g.bytesPerSector;
    assert c * 4 == s * b + EntryOffset(g, c);
    assert d * 4 == s * b + EntryOffset(g, d);
  }

  /** GetNextCluster: EOF outside the volume and when the FAT cannot be read. */
  function Next(g: Geometry, disk: Disk, c: nat): (n: nat)
    requires GeometryOk(g) && SectorsOk(g, disk)
    ensures n < ENTRY
  {
    if c < 2 || c >= g.totalClusters + 2 then EOF
    else
      var lba := g.fatStart + FatSector(g, c);
      if lba !in disk then EOF
      else
        EntryInSector(g, c);
        Word(disk[lba], EntryOffset(g, c)) % ENTRY
  }

  // --- following a chain ---

  predicate InChain(c: nat) { 2 <= c < EOF }

  /** The k-th cluster after c. */
  function Walk(g: Geometry, disk: Disk, c: nat, k: nat): nat
    requires GeometryOk(g) && SectorsOk(g, disk)
  {
    if k == 0 then c else Next(g, disk, Walk(g, disk, c, k - 1))
  }

  function ClusterLba(g: Geometry, c: nat): nat
    requires c >= 2
  {
    DataStart(g) + (c - 2) * g.sectorsPerCluster
  }

  /** Consecutive sectors can be read as a whole or not at all. */
  predicate Readable(disk: Disk, lba: nat, count: nat)
  {
    forall k :: lba <= k < lba + count ==> k in disk
  }

  function Sectors(disk: Disk, lba: nat, count: nat): seq<byte>
    requires Readable(disk, lba, count)
  {
    if count == 0 then [] else Sectors(disk, lba, count - 1) + disk[lba + count - 1]
  }

  lemma {:induction false} SectorsLength(g: Geometry, disk: Disk, lba: nat, count: nat)
    requires SectorsOk(g, disk) && Readable(disk, lba, count)
    ensures |Sectors(disk, lba, count)| == Bytes(count, g.bytesPerSector)
  {
    if count > 0 {
      SectorsLength(g, disk, lba, count - 1);
    }
  }

  predicate ClusterReadable(g: Geometry, disk: Disk, c: nat)
  {
    c >= 2 && Readable(disk, ClusterLba(g, c), g.sectorsPerCluster)
  }

  function ClusterBytes(g: Geometry, disk: Disk, c: nat): (b: seq<byte>)
    requires GeometryOk(g) && SectorsOk(g, disk) && ClusterReadable(g, disk, c)
    ensures |b| == g.clusterSize
  {
    SectorsLength(g, disk, ClusterLba(g, c), g.sectorsPerCluster);
    Sectors(disk, ClusterLba(g, c), g.sectorsPerCluster)
  }

  /** The k-th cluster of the file is on the chain and can be read. */
  ghost predicate HasCluster(g: Geometry, disk: Disk, first: nat, k: nat)
    requires GeometryOk(g) && SectorsOk(g, disk)
  {
    InChain(Walk(g, disk, first, k)) && ClusterReadable(g, disk, Walk(g, disk, first, k))
  }

  /** What cluster c adds to a file. A cluster that cannot be read counts as zeroes: fs_read may skip
      one but never delivers from it. */
  function Chunk(g: Geometry, disk: Disk, c: nat): (b: seq<byte>)
    requires GeometryOk(g) && SectorsOk(g, disk)
    ensures |b| == g.clusterSize
  {
    if ClusterReadable(g, disk, c) then ClusterBytes(g, disk, c) else seq(g.clusterSize, _ => 0)
  }

  /** The first n clusters of the chain, concatenated. */
  function Stream(g: Geometry, disk: Disk, first: nat, n: nat): seq<byte>
    requires GeometryOk(g) && SectorsOk(g, disk)
  {
    if n == 0 then [] else Stream(g, disk, first, n - 1) + Chunk(g, disk, Walk(g, disk, first, n - 1))
  }

  lemma {:induction false} StreamPrefix(g: Geometry, disk: Disk, first: nat, n: nat, m: nat)
    requires GeometryOk(g) && SectorsOk(g, disk) && n <= m
    ensures Stream(g, disk, first, n) <= Stream(g, disk, first, m)
  {
    if n < m {
      StreamPrefix(g, disk, first, n, m - 1);
    }
  }

  /** A file whose chain really holds its bytes: m readable clusters, enough for the size. */
  ghost predicate WellFormedFile(g: Geometry, disk: Disk, first: nat, fileSize: nat, m: nat)
    requires GeometryOk(g) && SectorsOk(g, disk)
  {
    && (forall k :: 0 <= k < m ==> HasCluster(g, disk, first, k))
    && fileSize <= |Stream(g, disk, first, m)|
  }

  // --- where it all lies on the disk ---

  /** The entry of cluster c is four bytes into the FAT, low byte first, of which the top four bits do not
      count. */
  lemma NextIs(g: Geometry, disk: Disk, c: nat)
    requires GeometryOk(g) && SectorsOk(g, disk)
    ensures c < 2 || c >= g.totalClusters + 2 || g.fatStart + c * 4 / g.bytesPerSector !in disk ==>
              Next(g, disk, c) == 0x0FFF_FFF8
    ensures 2 <= c < g.totalClusters + 2 && g.fatStart + c * 4 / g.bytesPerSector in disk ==>
              var s, o := disk[g.fatStart + c * 4 / g.bytesPerSector], c * 4 % g.bytesPerSector;
              o + 4 <= |s| && Next(g, disk, c) == Low28(s[o], s[o + 1], s[o + 2], s[o + 3])
  {
    EntryInSector(g, c);
    if 2 <= c < g.totalClusters + 2 && g.fatStart + c * 4 / g.bytesPerSector in disk {
      var s, o := disk[g.fatStart + c * 4 / g.bytesPerSector], c * 4 % g.bytesPerSector;
      WordLow(s, o);
    }
  }

  function Low28(b0: int, b1: int, b2: int, b3: int): int
  {
    b0 + 0x100 * b1 + 0x1_0000 * b2 + 0x100_0000 * (b3 % 16)
  }

  lemma WordLow(s: seq<byte>, o: nat)
    requires o + 4 <= |s|
    ensures Word(s, o) % ENTRY == Low28(s[o], s[o + 1], s[o + 2], s[o + 3])
  {
    LowBits(s[o], s[o + 1], s[o + 2], s[o + 3]);
  }

  lemma LowBits(b0: nat, b1: nat, b2: nat, b3: nat)
    requires b0 < 256 && b1 < 256 && b2 < 256 && b3 < 256
    ensures (b0 + 0x100 * b1 + 0x1_0000 * b2 + 0x100_0000 * b3) % 0x1000_0000 == Low28(b0, b1, b2, b3)
  {
    Unique(b0 + 0x100 * b1 + 0x1_0000 * b2 + 0x100_0000 * b3, 0x1000_0000, b3 / 16, Low28(b0, b1, b2, b3));
  }

  /** Byte y of sector s of cluster c is b; the data area starts with cluster 2, behind the reserved sectors and
      all FATs. */
  predicate ByteAt(g: Geometry, disk: Disk, c: nat, s: nat, y: nat, b: byte)
  {
    var lba := g.fatStart + g.numFats * g.sectorsPerFat + (c - 2) * g.sectorsPerCluster + s;
    c >= 2 && lba in disk && y < |disk[lba]| && disk[lba][y] == b
  }

  lemma {:induction false} BytesIs(count: nat, size: nat)
    ensures Bytes(count, size) == count * size
  {
    if count > 0 {
      BytesIs(count - 1, size);
      assert (count - 1) * size + size == count * size;
    }
  }

  /** The k-th sector's bytes, where they stand among those of all. */
  lemma {:induction false} SectorsChunk(disk: Disk, lba: nat, count: nat, size: nat, k: nat, at: nat)
    requires Readable(disk, lba, count) && (forall k :: k in disk ==> |disk[k]| == size) && k < count
    requires at == Bytes(k, size) && |Sectors(disk, lba, k)| == Bytes(k, size)
    ensures at + size <= |Sectors(disk, lba, count)| && Sectors(disk, lba, count)[at..at + size] == disk[lba + k]
  {
    var before := Sectors(disk, lba, count - 1);
    if k < count - 1 {
      SectorsChunk(disk, lba, count - 1, size, k, at);
      assert Sectors(disk, lba, count)[at..at + size] == before[at..at + size];
    }
  }

  lemma ChunkByte(g: Geometry, disk: Disk, c: nat, s: nat, y: nat)
    requires GeometryOk(g) && SectorsOk(g, disk) && ClusterReadable(g, disk, c)
    requires s < g.sectorsPerCluster && y < g.bytesPerSector
    ensures Bytes(s, g.bytesPerSector) + y < g.clusterSize
    ensures ByteAt(g, disk, c, s, y, Chunk(g, disk, c)[Bytes(s, g.bytesPerSector) + y])
  {
    var at, lba := Bytes(s, g.bytesPerSector), ClusterLba(g, c);
    SectorsLength(g, disk, lba, s);
    SectorsChunk(disk, lba, g.sectorsPerCluster, g.bytesPerSector, s, at);
    assert Chunk(g, disk, c)[at..at + g.bytesPerSector][y] == disk[lba + s][y];
  }

  /** Byte x of the k-th cluster, where it stands in the stream. */
  lemma StreamByte(g: Geometry, disk: Disk, first: nat, n: nat, k: nat, x: nat, j: nat)
    requires GeometryOk(g) && SectorsOk(g, disk) && k < n && x < g.clusterSize && j == |Stream(g, disk, first, k)| + x
    ensures j < |Stream(g, disk, first, n)|
    ensures Stream(g, disk, first, n)[j] == Chunk(g, disk, Walk(g, disk, first, k))[x]
  {
    StreamPrefix(g, disk, first, k + 1, n);
    StreamStep(g, disk, first, k);
    IndexPrefix(Stream(g, disk, first, k), Chunk(g, disk, Walk(g, disk, first, k)), Stream(g, disk, first, n), x, j);
  }

  lemma IndexPrefix(a: seq<byte>, b: seq<byte>, t: seq<byte>, x: nat, j: nat)
    requires a + b <= t && x < |b| && j == |a| + x
    ensures j < |t| && t[j] == b[x]
  {
    assert t[j] == (a + b)[j];
  }

  /** Sector s of the k-th cluster, counted in bytes. */
  lemma PlaceIs(g: Geometry, k: nat, s: nat)
    requires GeometryOk(g)
    ensures Bytes(k, g.clusterSize) + Bytes(s, g.bytesPerSector) == (k * g.sectorsPerCluster + s) * g.bytesPerSector
  {
    BytesIs(g.sectorsPerCluster, g.bytesPerSector);
    BytesIs(k, g.clusterSize);
    BytesIs(s, g.bytesPerSector);
    Distributes(k, g.sectorsPerCluster, s, g.bytesPerSector);
  }

  lemma Distributes(a: nat, b: nat, c: nat, d: nat)
    ensures (a * b + c) * d == a * (b * d) + c * d
  {
  }

  lemma PlaceBelow(g: Geometry, disk: Disk, first: nat, m: nat, k: nat, j: nat)
    requires GeometryOk(g) && SectorsOk(g, disk) && Bytes(k, g.clusterSize) <= j < |Stream(g, disk, first, m)|
    ensures k < m
  {
    StreamLength(g, disk, first, m);
    if k >= m {
      BytesGrow(k, m, g.clusterSize);
    }
  }

  lemma {:induction false} BytesGrow(k: nat, n: nat, size: nat)
    requires n <= k
    ensures Bytes(n, size) <= Bytes(k, size)
  {
    if n < k {
      BytesGrow(k - 1, n, size);
    }
  }

  lemma {:induction false} StreamLength(g: Geometry, disk: Disk, first: nat, n: nat)
    requires GeometryOk(g) && SectorsOk(g, disk)
    ensures |Stream(g, disk, first, n)| == Bytes(n, g.clusterSize)
  {
    if n > 0 {
      StreamLength(g, disk, first, n - 1);
    }
  }

  const SIZE_T: nat := 0x1_0000_0000_0000_0000
  const UINT32: nat := 0x1_0000_0000
  const INT_LIMIT: nat := 0x8000_0000

  /** A call of fs_read on a file of fileSize bytes. */
  datatype Request = Request(fileSize: nat, size: nat, offset: nat)

  predicate RequestOk(q: Request) { q.fileSize < UINT32 && q.size < SIZE_T && q.offset < SIZE_T }

  /** How many bytes fs_read wants after clamping to the file size. The sum is a size_t. */
  function Wanted(q: Request): nat
  {
    if q.offset >= q.fileSize then 0
    else if (q.offset + q.size) % SIZE_T > q.fileSize then q.fileSize - q.offset
    else q.size
  }

  /** The bytes of the file that were asked for: from offset up to min(offset + size, file size). */
  function Asked(q: Request): nat
  {
    if q.offset >= q.fileSize then 0
    else if q.size < q.fileSize - q.offset then q.size
    else q.fileSize - q.offset
  }

  predicate Wraps(q: Request) { q.offset < q.fileSize && q.offset + q.size >= 0x1_0000_0000_0000_0000 }

  /** The clamp works exactly if the sum does not wrap; otherwise all of size is wanted. */
  lemma WantedIffNoWrap(q: Request)
    requires RequestOk(q)
    ensures Wanted(q) == Asked(q) <==> !Wraps(q)
    ensures Wraps(q) ==> Wanted(q) == q.size > Asked(q) == q.fileSize - q.offset
  {
    if q.offset + q.size < SIZE_T {
      Small(q.offset + q.size, SIZE_T);
    } else {
      Unique(q.offset + q.size, SIZE_T, 1, q.offset + q.size - SIZE_T);
    }
  }

  /** out is what s holds from offset on, cut to what was wanted. */
  ghost predicate Cut(s: seq<byte>, offset: nat, want: nat, out: seq<byte>)
  {
    if |s| <= offset then out == []
    else if |s| - offset < want then out == s[offset..]
    else out == s[offset..offset + want]
  }

  lemma SliceAcross(s: seq<byte>, bytes: seq<byte>, from: nat, count: nat)
    requires from <= |s| && count <= |bytes|
    ensures (s + bytes)[from..|s| + count] == s[from..] + bytes[..count]
  {
    var l, r := (s + bytes)[from..|s| + count], s[from..] + bytes[..count];
    assert |l| == |r|;
    forall i | 0 <= i < |l|
      ensures l[i] == r[i]
    {
      assert l[i] == (s + bytes)[from + i];
    }
  }

  lemma SliceBeyond(s: seq<byte>, bytes: seq<byte>, from: nat, count: nat)
    requires |s| <= from && from - |s| + count <= |bytes|
    ensures (s + bytes)[from..from + count] == bytes[from - |s|..from - |s| + count]
  {
    var l, r := (s + bytes)[from..from + count], bytes[from - |s|..from - |s| + count];
    forall i | 0 <= i < count
      ensures l[i] == r[i]
    {
      assert l[i] == (s + bytes)[from + i];
    }
  }

  /** Appending the right slice of the next cluster continues the cut. */
  lemma CutMore(s: seq<byte>, bytes: seq<byte>, offset: nat, want: nat, out: seq<byte>, skip: nat, copy: nat)
    requires Cut(s, offset, want, out) && |out| < want && offset < |s| + |bytes|
    requires skip == if |s| < offset then offset - |s| else 0
    requires copy == if |bytes| - skip > want - |out| then want - |out| else |bytes| - skip
    ensures skip + copy <= |bytes|
    ensures Cut(s + bytes, offset, want, out + bytes[skip..skip + copy])
    ensures |out + bytes[skip..skip + copy]| <= want
  {
    var t := s + bytes;
    if |s| <= offset {
      SliceBeyond(s, bytes, offset, copy);
    } else {
      assert skip == 0 && bytes[skip..skip + copy] == bytes[..copy];
      SliceAcross(s, bytes, offset, copy);
    }
  }

  /** What fs_read has delivered after n clusters of the chain. */
  ghost predicate Delivered(g: Geometry, disk: Disk, first: nat, offset: nat, want: nat, n: nat, out: seq<byte>)
    requires GeometryOk(g) && SectorsOk(g, disk)
  {
    && (forall k :: 0 <= k < n ==> InChain(Walk(g, disk, first, k)))
    && |out| <= want
    && Cut(Stream(g, disk, first, n), offset, want, out)
  }

  lemma StreamStep(g: Geometry, disk: Disk, first: nat, n: nat)
    requires GeometryOk(g) && SectorsOk(g, disk)
    ensures Stream(g, disk, first, n + 1) == Stream(g, disk, first, n) + Chunk(g, disk, Walk(g, disk, first, n))
    ensures Walk(g, disk, first, n + 1) == Next(g, disk, Walk(g, disk, first, n))
  {
  }

  lemma CutNone(s: seq<byte>, bytes: seq<byte>, offset: nat, want: nat, out: seq<byte>)
    requires Cut(s, offset, want, out) && |s| + |bytes| <= offset
    ensures Cut(s + bytes, offset, want, out)
  {
  }

  /** A cluster that ends at or before offset delivers nothing. */
  lemma DeliverNone(g: Geometry, disk: Disk, first: nat, offset: nat, want: nat, n: nat, out: seq<byte>)
    requires GeometryOk(g) && SectorsOk(g, disk) && Delivered(g, disk, first, offset, want, n, out)
    requires InChain(Walk(g, disk, first, n)) && |Stream(g, disk, first, n)| + g.clusterSize <= offset
    ensures Delivered(g, disk, first, offset, want, n + 1, out)
    ensures |Stream(g, disk, first, n + 1)| == |Stream(g, disk, first, n)| + g.clusterSize
    ensures Walk(g, disk, first, n + 1) == Next(g, disk, Walk(g, disk, first, n))
  {
    StreamStep(g, disk, first, n);
    CutNone(Stream(g, disk, first, n), Chunk(g, disk, Walk(g, disk, first, n)), offset, want, out);
  }

  lemma DeliverMore(g: Geometry, disk: Disk, first: nat, offset: nat, want: nat, n: nat, out: seq<byte>,
                    skip: nat, copy: nat)
    requires GeometryOk(g) && SectorsOk(g, disk) && Delivered(g, disk, first, offset, want, n, out)
    requires |out| < want && HasCluster(g, disk, first, n)
    requires var at := |Stream(g, disk, first, n)|;
             && offset < at + g.clusterSize
             && skip == (if at < offset then offset - at else 0)
             && copy == (if g.clusterSize - skip > want - |out| then want - |out| else g.clusterSize - skip)
    ensures skip + copy <= g.clusterSize
    ensures Delivered(g, disk, first, offset, want, n + 1,
                      out + ClusterBytes(g, disk, Walk(g, disk, first, n))[skip..skip + copy])
    ensures |Stream(g, disk, first, n + 1)| == |Stream(g, disk, first, n)| + g.clusterSize
    ensures Walk(g, disk, first, n + 1) == Next(g, disk, Walk(g, disk, first, n))
  {
    StreamStep(g, disk, first, n);
    CutMore(Stream(g, disk, first, n), ClusterBytes(g, disk, Walk(g, disk, first, n)), offset, want, out, skip, copy);
  }

  /** out is the part of the bytes s that was asked for. */
  ghost predicate IsSlice(s: seq<byte>, q: Request, out: seq<byte>)
    requires q.fileSize <= |s|
  {
    out == if q.offset >= q.fileSize then [] else s[q.offset..q.offset + Asked(q)]
  }

  lemma CutWhole(s: seq<byte>, t: seq<byte>, q: Request, out: seq<byte>, whole: bool)
    requires s <= t && (whole ==> s == t) && Cut(s, q.offset, Asked(q), out)
    requires q.fileSize <= |t| && (|out| < Asked(q) ==> whole)
    ensures IsSlice(t, q, out)
  {
  }

  lemma CutSlice(t: seq<byte>, s: seq<byte>, q: Request, out: seq<byte>)
    requires t <= s && Cut(s, q.offset, Asked(q), out) && q.fileSize <= |t|
    ensures IsSlice(t, q, out)
  {
  }

  /** A read of fs_read has come to its end after n clusters. */
  ghost predicate Ended(g: Geometry, disk: Disk, first: nat, q: Request, n: nat, out: seq<byte>)
    requires GeometryOk(g) && SectorsOk(g, disk)
  {
    && Delivered(g, disk, first, q.offset, Wanted(q), n, out)
    && (|out| < Wanted(q) ==> !HasCluster(g, disk, first, n))
  }

  lemma ReadComplete(g: Geometry, disk: Disk, first: nat, q: Request, n: nat, out: seq<byte>, m: nat)
    requires GeometryOk(g) && SectorsOk(g, disk) && RequestOk(q) && Ended(g, disk, first, q, n, out)
    requires WellFormedFile(g, disk, first, q.fileSize, m) && !Wraps(q)
    ensures IsSlice(Stream(g, disk, first, m), q, out)
  {
    WantedIffNoWrap(q);
    if n <= m {
      StreamPrefix(g, disk, first, n, m);
      CutWhole(Stream(g, disk, first, n), Stream(g, disk, first, m), q, out, n == m);
    } else {
      StreamPrefix(g, disk, first, m, n);
      CutSlice(Stream(g, disk, first, m), Stream(g, disk, first, n), q, out);
    }
  }

  /** Sequences only: a wrapped request runs on to the end of t. */
  lemma CutAll(s: seq<byte>, t: seq<byte>, q: Request, out: seq<byte>, whole: bool)
    requires RequestOk(q) && Wraps(q) && s <= t && (whole ==> s == t) && Cut(s, q.offset, q.size, out)
    requires q.fileSize <= |t| && (|out| < q.size ==> whole)
    ensures IsSlice(t, q, out) <==> q.fileSize == |t|
    ensures |t| < SIZE_T ==> out == t[q.offset..]
  {
  }

  lemma WrappedRead(g: Geometry, disk: Disk, first: nat, q: Request, n: nat, out: seq<byte>, m: nat)
    requires GeometryOk(g) && SectorsOk(g, disk) && RequestOk(q) && Ended(g, disk, first, q, n, out)
    requires WellFormedFile(g, disk, first, q.fileSize, m) && !InChain(Walk(g, disk, first, m)) && Wraps(q)
    ensures IsSlice(Stream(g, disk, first, m), q, out) <==> q.fileSize == |Stream(g, disk, first, m)|
    ensures |Stream(g, disk, first, m)| < SIZE_T ==> out == Stream(g, disk, first, m)[q.offset..]
  {
    WantedIffNoWrap(q);
    assert n <= m;
    StreamPrefix(g, disk, first, n, m);
    CutAll(Stream(g, disk, first, n), Stream(g, disk, first, m), q, out, n == m);
  }

  /** On a well-formed file fs_read delivers what was asked for if offset + size does not wrap. */
  ghost predicate Complete(g: Geometry, disk: Disk, first: nat, q: Request, out: seq<byte>)
    requires GeometryOk(g) && SectorsOk(g, disk)
  {
    forall m :: WellFormedFile(g, disk, first, q.fileSize, m) && !Wraps(q) ==>
        IsSlice(Stream(g, disk, first, m), q, out)
  }

  /** If the chain ends with the file's m-th cluster that is exact: a wrapped request is answered with the
      whole rest of the chain, which is right only where the file fills its last cluster. */
  ghost predicate ExactIff(g: Geometry, disk: Disk, first: nat, q: Request, out: seq<byte>)
    requires GeometryOk(g) && SectorsOk(g, disk)
  {
    forall m :: WellFormedFile(g, disk, first, q.fileSize, m) && !InChain(Walk(g, disk, first, m)) ==>
      (IsSlice(Stream(g, disk, first, m), q, out) <==> !Wraps(q) || q.fileSize == |Stream(g, disk, first, m)|)
  }

  lemma EndedIsExact(g: Geometry, disk: Disk, first: nat, q: Request, n: nat, out: seq<byte>)
    requires GeometryOk(g) && SectorsOk(g, disk) && RequestOk(q) && Ended(g, disk, first, q, n, out)
    ensures Complete(g, disk, first, q, out) && ExactIff(g, disk, first, q, out)
  {
    forall m | WellFormedFile(g, disk, first, q.fileSize, m) && !Wraps(q)
      ensures IsSlice(Stream(g, disk, first, m), q, out)
    {
      ReadComplete(g, disk, first, q, n, out, m);
    }
    forall m | WellFormedFile(g, disk, first, q.fileSize, m) && !InChain(Walk(g, disk, first, m)) && Wraps(q)
      ensures IsSlice(Stream(g, disk, first, m), q, out) <==> q.fileSize == |Stream(g, disk, first, m)|
    {
      WrappedRead(g, disk, first, q, n, out, m);
    }
  }

  /** The loop of fs_read in front of the n-th cluster of the chain. */
  ghost predicate Reading(g: Geometry, disk: Disk, first: nat, offset: nat, want: nat, n: nat, out: seq<byte>,
                          cluster: nat, at: nat)
    requires GeometryOk(g) && SectorsOk(g, disk)
  {
    && Delivered(g, disk, first, offset, want, n, out)
    && cluster == Walk(g, disk, first, n) && at == |Stream(g, disk, first, n)|
  }

  /** One cluster taken care of: nothing if it ends at or before offset, else its bytes at and after
      offset, at most as many as are still wanted. */
  method CopyCluster(g: Geometry, disk: Disk, ghost first: nat, offset: nat, want: nat, ghost n: nat, out: seq<byte>,
                     cluster: nat, currentOffset: nat)
    returns (more: seq<byte>)
    requires GeometryOk(g) && SectorsOk(g, disk) && |out| < want && InChain(cluster)
    requires Reading(g, disk, first, offset, want, n, out, cluster, currentOffset)
    requires currentOffset + g.clusterSize <= offset || ClusterReadable(g, disk, cluster)
    ensures Reading(g, disk, first, offset, want, n + 1, more, Next(g, disk, cluster), currentOffset + g.clusterSize)
    ensures currentOffset < offset + want
  {
    if currentOffset + g.clusterSize <= offset {
      DeliverNone(g, disk, first, offset, want, n, out);
      more := out;
    } else {
      var skip := if currentOffset < offset then offset - currentOffset else 0;
      var copy := if g.clusterSize - skip > want - |out| then want - |out| else g.clusterSize - skip;
      DeliverMore(g, disk, first, offset, want, n, out, skip, copy);
      more := out + ClusterBytes(g, disk, cluster)[skip..skip + copy];
    }
  }

  lemma ReadingStarts(g: Geometry, disk: Disk, first: nat, offset: nat, want: nat)
    requires GeometryOk(g) && SectorsOk(g, disk)
    ensures Reading(g, disk, first, offset, want, 0, [], first, 0)
  {
  }

  /** The loop of fs_read: it ends when enough was read, the chain is over or a cluster cannot be read. */
  method ReadChain(g: Geometry, disk: Disk, first: nat, offset: nat, want: nat)
    returns (cluster: nat, out: seq<byte>, ghost n: nat)
    requires GeometryOk(g) && SectorsOk(g, disk)
    ensures Delivered(g, disk, first, offset, want, n, out) && cluster == Walk(g, disk, first, n)
    ensures |out| < want ==> !InChain(cluster) || !ClusterReadable(g, disk, cluster)
  {
    out, n, cluster := [], 0, first;
    var currentOffset := 0;
    ReadingStarts(g, disk, first, offset, want);
    while InChain(cluster) && |out| < want
          && (currentOffset + g.clusterSize <= offset || ClusterReadable(g, disk, cluster))
      invariant Reading(g, disk, first, offset, want, n, out, cluster, currentOffset)
      decreases offset + want - currentOffset
    {
      out := CopyCluster(g, disk, first, offset, want, n, out, cluster, currentOffset);
      currentOffset := currentOffset + g.clusterSize;
      cluster := Next(g, disk, cluster);
      n := n + 1;
    }
  }

  /** The count, a size_t, returned as an int. */
  function Narrowed(count: nat): int
  {
    var low := count % UINT32;
    if low < INT_LIMIT then low else low - UINT32
  }

  lemma NarrowedIff(count: nat)
    ensures Narrowed(count) == count <==> count < INT_LIMIT
  {
    if count < UINT32 {
      Small(count, UINT32);
    }
  }

  /** On a well-formed file an fs_read without wrap returns the number of bytes that it delivers exactly if
      fewer than 2^31 were asked for. */
  ghost predicate CountIff(g: Geometry, disk: Disk, first: nat, q: Request, result: int)
    requires GeometryOk(g) && SectorsOk(g, disk)
  {
    forall m :: WellFormedFile(g, disk, first, q.fileSize, m) && !Wraps(q) ==>
        (result == Asked(q) <==> Asked(q) < INT_LIMIT)
  }

  /** The first m clusters of the chain are data clusters whose sectors can all be read, and they have room
      for the file. */
  ghost predicate HoldsFile(g: Geometry, disk: Disk, first: nat, fileSize: nat, m: nat)
    requires GeometryOk(g) && SectorsOk(g, disk)
  {
    && (forall k :: 0 <= k < m ==> HoldsCluster(g, disk, Walk(g, disk, first, k)))
    && fileSize <= m * (g.sectorsPerCluster * g.bytesPerSector)
  }

  predicate HoldsCluster(g: Geometry, disk: Disk, c: nat)
  {
    && 2 <= c < 0x0FFF_FFF8
    && var lba := g.fatStart + g.numFats * g.sectorsPerFat + (c - 2) * g.sectorsPerCluster;
       forall k :: lba <= k < lba + g.sectorsPerCluster ==> k in disk
  }

  lemma HoldsFileIs(g: Geometry, disk: Disk, first: nat, fileSize: nat, m: nat)
    requires GeometryOk(g) && SectorsOk(g, disk)
    ensures HoldsFile(g, disk, first, fileSize, m) <==> WellFormedFile(g, disk, first, fileSize, m)
  {
    StreamLength(g, disk, first, m);
    BytesIs(m, g.clusterSize);
    BytesIs(g.sectorsPerCluster, g.bytesPerSector);
    forall k | 0 <= k < m
      ensures HoldsCluster(g, disk, Walk(g, disk, first, k)) <==> HasCluster(g, disk, first, k)
    {
      ReadableIs(g, disk, Walk(g, disk, first, k));
    }
  }

  lemma ReadableIs(g: Geometry, disk: Disk, c: nat)
    ensures HoldsCluster(g, disk, c) <==> InChain(c) && ClusterReadable(g, disk, c)
  {
    if c >= 2 {
      assert ClusterLba(g, c) == g.fatStart + g.numFats * g.sectorsPerFat + (c - 2) * g.sectorsPerCluster;
    }
  }

  /** As many bytes as were asked for and the file has, each from its place on the disk: byte y of sector s of
      the k-th cluster of the chain. */
  ghost predicate ReadRight(g: Geometry, disk: Disk, first: nat, q: Request, out: seq<byte>)
    requires GeometryOk(g) && SectorsOk(g, disk)
  {
    && |out| == (if q.offset >= q.fileSize then 0
                 else if q.size < q.fileSize - q.offset then q.size
                 else q.fileSize - q.offset)
    && forall i, k: nat, s: nat, y: nat ::
         && 0 <= i < |out| && s < g.sectorsPerCluster && y < g.bytesPerSector
         && q.offset + i == (k * g.sectorsPerCluster + s) * g.bytesPerSector + y ==>
           ByteAt(g, disk, Walk(g, disk, first, k), s, y, out[i])
  }

  lemma SliceIs(s: seq<byte>, q: Request, out: seq<byte>)
    requires q.fileSize <= |s| && IsSlice(s, q, out)
    ensures |out| == if q.offset >= q.fileSize then 0
                     else if q.size < q.fileSize - q.offset then q.size
                     else q.fileSize - q.offset
    ensures forall j :: 0 <= j < |out| ==> q.offset + j < |s| && out[j] == s[q.offset + j]
  {
  }

  lemma CompleteIsRight(g: Geometry, disk: Disk, first: nat, q: Request, out: seq<byte>, m: nat)
    requires GeometryOk(g) && SectorsOk(g, disk) && Complete(g, disk, first, q, out)
    requires HoldsFile(g, disk, first, q.fileSize, m) && !Wraps(q)
    ensures ReadRight(g, disk, first, q, out)
  {
    HoldsFileIs(g, disk, first, q.fileSize, m);
    var t := Stream(g, disk, first, m);
    SliceIs(t, q, out);
    forall i, k: nat, s: nat, y: nat |
      && 0 <= i < |out| && s < g.sectorsPerCluster && y < g.bytesPerSector
      && q.offset + i == (k * g.sectorsPerCluster + s) * g.bytesPerSector + y
      ensures ByteAt(g, disk, Walk(g, disk, first, k), s, y, out[i])
    {
      PlaceIs(g, k, s);
      PlaceBelow(g, disk, first, m, k, q.offset + i);
      assert HasCluster(g, disk, first, k);
      StreamAt(g, disk, first, m, k, s, y, q.offset + i);
    }
  }

  /** Byte y of sector s of the k-th cluster of a chain lies where the layout of the volume says. */
  lemma StreamAt(g: Geometry, disk: Disk, first: nat, m: nat, k: nat, s: nat, y: nat, j: nat)
    requires GeometryOk(g) && SectorsOk(g, disk) && k < m && HasCluster(g, disk, first, k)
    requires s < g.sectorsPerCluster && y < g.bytesPerSector
    requires j == Bytes(k, g.clusterSize) + Bytes(s, g.bytesPerSector) + y
    ensures j < |Stream(g, disk, first, m)|
    ensures ByteAt(g, disk, Walk(g, disk, first, k), s, y, Stream(g, disk, first, m)[j])
  {
    StreamLength(g, disk, first, k);
    ChunkByte(g, disk, Walk(g, disk, first, k), s, y);
    StreamByte(g, disk, first, m, k, Bytes(s, g.bytesPerSector) + y, j);
  }

  /** fs_read after path lookup; -1 is its error result. It delivers the chain's bytes in order and
      stops short only where the chain ends or a cluster cannot be read; on a well-formed file it
      delivers exactly the requested slice unless offset + size wraps. The result counts the bytes
      exactly if there are fewer than 2^31; 2^32 - 1 bytes read as an error. */
  method ReadFile(g: Geometry, disk: Disk, first: nat, q: Request)
    returns (result: int, out: seq<byte>, ghost n: nat)
    requires GeometryOk(g) && SectorsOk(g, disk) && RequestOk(q)
    ensures var failed := out == [] && 0 < Wanted(q) && InChain(Walk(g, disk, first, n));
            && result == (if failed then -1 else Narrowed(|out|))
            && (result == |out| <==> !failed && |out| < 0x8000_0000)
            && (result == -1 <==> failed || |out| % 0x1_0000_0000 == 0xFFFF_FFFF)
    ensures Ended(g, disk, first, q, n, out) && CountIff(g, disk, first, q, result)
    ensures Complete(g, disk, first, q, out) && ExactIff(g, disk, first, q, out)
    ensures forall m :: HoldsFile(g, disk, first, q.fileSize, m) && !Wraps(q) ==> ReadRight(g, disk, first, q, out)
  {
    var cluster;
    var want := Wanted(q);
    cluster, out, n := ReadChain(g, disk, first, q.offset, want);
    EndedIsExact(g, disk, first, q, n, out);
    NarrowedIff(|out|);
    result := if InChain(cluster) && |out| == 0 < want then -1 else Narrowed(|out|);
    forall m | WellFormedFile(g, disk, first, q.fileSize, m) && !Wraps(q)
      ensures |out| == Asked(q) && (result == Asked(q) <==> Asked(q) < INT_LIMIT)
    {
      WantedIffNoWrap(q);
      assert IsSlice(Stream(g, disk, first, m), q, out);
    }
    forall m | HoldsFile(g, disk, first, q.fileSize, m) && !Wraps(q)
      ensures ReadRight(g, disk, first, q, out)
    {
      CompleteIsRight(g, disk, first, q, out, m);
    }
  }

  /** A volume with 32 reserved sectors, two FATs of 512 sectors and 8 sectors to a cluster: the first cluster
      starts at sector 1056, and the second sector of a file in it is sector 1057. */
  lemma OrdinaryVolume(disk: Disk, q: Request, out: seq<byte>, i: nat)
    requires SectorsOk(ORDINARY, disk) && GeometryOk(ORDINARY) && ReadRight(ORDINARY, disk, 2, q, out)
    requires i < |out| && 512 <= q.offset + i < 1024
    ensures 1057 in disk && q.offset + i - 512 < |disk[1057]| && out[i] == disk[1057][q.offset + i - 512]
  {
    assert ByteAt(ORDINARY, disk, Walk(ORDINARY, disk, 2, 0), 1, q.offset + i - 512, out[i]);
  }

  const ORDINARY: Geometry := Geometry(512, 8, 32, 2, 512, 65000, 4096)

  // --- allocating a cluster ---

  function FatLba(g: Geometry, copy: nat, sector: nat): nat
  {
    g.fatStart + copy * g.sectorsPerFat + sector
  }

  /** The whole FAT area and all data clusters exist on the disk. */
  ghost predicate Present(g: Geometry, disk: Disk)
  {
    && (forall i, s :: 0 <= i < g.numFats && 0 <= s < g.sectorsPerFat ==> FatLba(g, i, s) in disk)
    && forall c :: 2 <= c < g.totalClusters + 2 ==> ClusterReadable(g, disk, c)
  }

  /** All FAT copies are equal. */
  ghost predicate CopiesEqual(g: Geometry, disk: Disk)
    requires Present(g, disk)
  {
    forall i, s :: 0 <= i < g.numFats && 0 <= s < g.sectorsPerFat ==> disk[FatLba(g, i, s)] == disk[FatLba(g, 0, s)]
  }

  lemma FatBeforeData(g: Geometry, i: nat, s: nat)
    requires i < g.numFats && s < g.sectorsPerFat
    ensures FatLba(g, i, s) < DataStart(g)
  {
    assert g.numFats * g.sectorsPerFat == i * g.sectorsPerFat + (g.numFats - i) * g.sectorsPerFat;
    ProductBounds(g.numFats - i, g.sectorsPerFat);
  }

  lemma FatLbaInjective(g: Geometry, i: nat, s: nat, j: nat, t: nat)
    requires s < g.sectorsPerFat && t < g.sectorsPerFat
    ensures FatLba(g, i, s) == FatLba(g, j, t) ==> i == j && s == t
  {
    if FatLba(g, i, s) == FatLba(g, j, t) {
      Unique(i * g.sectorsPerFat + s, g.sectorsPerFat, i, s);
      Unique(j * g.sectorsPerFat + t, g.sectorsPerFat, j, t);
    }
  }

  lemma ClusterAfterFat(g: Geometry, c: nat)
    requires 2 <= c
    ensures DataStart(g) <= ClusterLba(g, c)
  {
    ProductSign(c - 2, g.sectorsPerCluster);
  }

  /** Data clusters do not overlap. */
  lemma ClustersApart(g: Geometry, c: nat, d: nat, x: nat, y: nat)
    requires 2 <= c && 2 <= d && c != d && x < g.sectorsPerCluster && y < g.sectorsPerCluster
    ensures ClusterLba(g, c) + x != ClusterLba(g, d) + y
  {
    if ClusterLba(g, c) + x == ClusterLba(g, d) + y {
      Unique((c - 2) * g.sectorsPerCluster + x, g.sectorsPerCluster, c - 2, x);
      Unique((d - 2) * g.sectorsPerCluster + y, g.sectorsPerCluster, d - 2, y);
    }
  }

  /** SetFATEntry's new sector contents: 28 bits replaced, the top four kept. */
  function PatchedSector(g: Geometry, sector: seq<byte>, c: nat, value: nat): seq<byte>
    requires g.bytesPerSector > 0 && EntryOffset(g, c) + 4 <= |sector| && value < ENTRY
  {
    var o := EntryOffset(g, c);
    SetWord(sector, o, Word(sector, o) / ENTRY * ENTRY + value)
  }

  /** Writing one sector to FAT copies 0..n. */
  function Mirrored(g: Geometry, disk: Disk, s: nat, sector: seq<byte>, n: nat): Disk
  {
    if n == 0 then disk else Mirrored(g, disk, s, sector, n - 1)[FatLba(g, n - 1, s) := sector]
  }

  lemma {:induction false} MirroredFat(g: Geometry, disk: Disk, s: nat, sector: seq<byte>, n: nat, i: nat, t: nat)
    requires s < g.sectorsPerFat && t < g.sectorsPerFat && FatLba(g, i, t) in disk
    ensures FatLba(g, i, t) in Mirrored(g, disk, s, sector, n)
    ensures Mirrored(g, disk, s, sector, n)[FatLba(g, i, t)] ==
            if t == s && i < n then sector else disk[FatLba(g, i, t)]
  {
    if n > 0 {
      MirroredFat(g, disk, s, sector, n - 1, i, t);
      FatLbaInjective(g, n - 1, s, i, t);
    }
  }

  lemma {:induction false} MirroredData(g: Geometry, disk: Disk, s: nat, sector: seq<byte>, n: nat)
    requires Present(g, disk) && s < g.sectorsPerFat && n <= g.numFats
    ensures Mirrored(g, disk, s, sector, n).Keys == disk.Keys
    ensures forall k :: k in disk && k >= DataStart(g) ==> Mirrored(g, disk, s, sector, n)[k] == disk[k]
  {
    if n > 0 {
      MirroredData(g, disk, s, sector, n - 1);
      assert FatLba(g, n - 1, s) in disk;
      FatBeforeData(g, n - 1, s);
    }
  }

  /** WriteCluster with zeroes. */
  function Zeroed(g: Geometry, disk: Disk, lba: nat, count: nat): Disk
  {
    if count == 0 then disk else Zeroed(g, disk, lba, count - 1)[lba + count - 1 := seq(g.bytesPerSector, _ => 0)]
  }

  lemma {:induction false} ZeroedAt(g: Geometry, disk: Disk, lba: nat, count: nat)
    requires Readable(disk, lba, count)
    ensures Zeroed(g, disk, lba, count).Keys == disk.Keys
    ensures forall k :: k in disk ==>
              Zeroed(g, disk, lba, count)[k] ==
                  if lba <= k < lba + count then seq(g.bytesPerSector, _ => 0) else disk[k]
  {
    if count > 0 {
      ZeroedAt(g, disk, lba, count - 1);
    }
  }

  /** The FAT sector of cluster c after its entry was set to EOF. */
  function NewSector(g: Geometry, disk: Disk, c: nat): (sector: seq<byte>)
    requires GeometryOk(g) && SectorsOk(g, disk) && FatLba(g, 0, FatSector(g, c)) in disk
    ensures |sector| == g.bytesPerSector
  {
    EntryInSector(g, c);
    PatchedSector(g, disk[FatLba(g, 0, FatSector(g, c))], c, EOF)
  }

  /** The volume after cluster c was taken: entry EOF in every FAT copy, contents zeroed. */
  function Allocated(g: Geometry, disk: Disk, c: nat): Disk
    requires GeometryOk(g) && SectorsOk(g, disk) && 2 <= c && FatLba(g, 0, FatSector(g, c)) in disk
  {
    var mirrored := Mirrored(g, disk, FatSector(g, c), NewSector(g, disk, c), g.numFats);
    Zeroed(g, mirrored, ClusterLba(g, c), g.sectorsPerCluster)
  }

  /** What taking cluster c does to sector k. In every FAT copy the entry's four bytes become F8 FF FF and
      0F with the old top four bits; the cluster's sectors become zero; nothing else changes. */
  ghost predicate TakenAt(g: Geometry, before: Disk, after: Disk, c: nat, k: nat)
    requires g.bytesPerSector > 0
  {
    var data := g.fatStart + g.numFats * g.sectorsPerFat + (c - 2) * g.sectorsPerCluster;
    var fat, o := g.fatStart + c * 4 / g.bytesPerSector, c * 4 % g.bytesPerSector;
    && k in before && k in after && fat in before && o + 4 <= |before[fat]|
    && if exists i :: 0 <= i < g.numFats && k == g.fatStart + i * g.sectorsPerFat + c * 4 / g.bytesPerSector
       then after[k] == EndMarked(before[fat], o)
       else after[k] == if data <= k < data + g.sectorsPerCluster then seq(g.bytesPerSector, _ => 0) else before[k]
  }

  function EndMarked(s: seq<byte>, o: nat): seq<byte>
    requires o + 4 <= |s|
  {
    var top: int := s[o + 3] / 16;
    s[..o] + [0xF8, 0xFF, 0xFF, top * 16 + 15] + s[o + 4..]
  }

  lemma PatchedBytes(s: seq<byte>, o: nat)
    requires o + 4 <= |s|
    ensures Word(s, o) / ENTRY * ENTRY + EOF < 0x1_0000_0000
    ensures SetWord(s, o, Word(s, o) / ENTRY * ENTRY + EOF) == EndMarked(s, o)
  {
    var b3: int := s[o + 3];
    assert b3 == b3 / 16 * 16 + b3 % 16;
    assert Word(s, o) / ENTRY == b3 / 16;
  }

  lemma {:induction false} MirroredAt(g: Geometry, disk: Disk, s: nat, sector: seq<byte>, n: nat, k: nat)
    requires k in disk
    ensures k in Mirrored(g, disk, s, sector, n)
    ensures Mirrored(g, disk, s, sector, n)[k] ==
            if exists i :: 0 <= i < n && k == FatLba(g, i, s) then sector else disk[k]
  {
    if n > 0 {
      MirroredAt(g, disk, s, sector, n - 1, k);
    }
  }

  predicate FatCopy(g: Geometry, s: nat, k: nat)
  {
    exists i :: 0 <= i < g.numFats && k == FatLba(g, i, s)
  }

  lemma FatCopyBeforeData(g: Geometry, s: nat, k: nat)
    requires s < g.sectorsPerFat && FatCopy(g, s, k)
    ensures k < DataStart(g)
  {
    var i :| 0 <= i < g.numFats && k == FatLba(g, i, s);
    FatBeforeData(g, i, s);
  }

  lemma AllocatedSector(g: Geometry, disk: Disk, c: nat, k: nat)
    requires Allocatable(g, disk, c) && k in disk
    ensures k in Allocated(g, disk, c)
    ensures Allocated(g, disk, c)[k] ==
            if FatCopy(g, FatSector(g, c), k) then NewSector(g, disk, c)
            else if ClusterLba(g, c) <= k < ClusterLba(g, c) + g.sectorsPerCluster then seq(g.bytesPerSector, _ => 0)
            else disk[k]
  {
    var s, sector := FatSector(g, c), NewSector(g, disk, c);
    MirroredAt(g, disk, s, sector, g.numFats, k);
    MirroredData(g, disk, s, sector, g.numFats);
    ZeroedAt(g, Mirrored(g, disk, s, sector, g.numFats), ClusterLba(g, c), g.sectorsPerCluster);
    ClusterAfterFat(g, c);
    if FatCopy(g, s, k) {
      FatCopyBeforeData(g, s, k);
    }
  }

  lemma NewSectorIs(g: Geometry, disk: Disk, c: nat)
    requires Allocatable(g, disk, c)
    ensures c * 4 % g.bytesPerSector + 4 <= g.bytesPerSector
    ensures NewSector(g, disk, c) ==
            EndMarked(disk[FatLba(g, 0, FatSector(g, c))], c * 4 % g.bytesPerSector)
  {
    EntryInSector(g, c);
    PatchedBytes(disk[FatLba(g, 0, FatSector(g, c))], EntryOffset(g, c));
  }

  lemma AllocatedAt(g: Geometry, disk: Disk, c: nat, k: nat)
    requires Allocatable(g, disk, c) && k in disk
    ensures TakenAt(g, disk, Allocated(g, disk, c), c, k)
  {
    AllocatedSector(g, disk, c, k);
    NewSectorIs(g, disk, c);
    FatCopyIs(g, FatSector(g, c), k);
  }

  lemma FatCopyIs(g: Geometry, s: nat, k: nat)
    ensures FatCopy(g, s, k) <==> exists i :: 0 <= i < g.numFats && k == g.fatStart + i * g.sectorsPerFat + s
  {
    if i :| 0 <= i < g.numFats && k == FatLba(g, i, s) {
      assert k == g.fatStart + i * g.sectorsPerFat + s;
    }
    if i :| 0 <= i < g.numFats && k == g.fatStart + i * g.sectorsPerFat + s {
      assert k == FatLba(g, i, s);
    }
  }

  ghost predicate Allocatable(g: Geometry, disk: Disk, c: nat)
  {
    && GeometryOk(g) && SectorsOk(g, disk) && Present(g, disk) && 2 <= c < g.totalClusters + 2
    && FatSector(g, c) < g.sectorsPerFat && FatLba(g, 0, FatSector(g, c)) in disk
    && ClusterReadable(g, disk, c)
  }

  lemma CanAllocate(g: Geometry, disk: Disk, c: nat)
    requires GeometryOk(g) && FatFits(g) && SectorsOk(g, disk) && Present(g, disk) && 2 <= c < g.totalClusters + 2
    ensures Allocatable(g, disk, c)
  {
    EntrySectorInFat(g, c);
  }

  /** Every FAT copy gets the new sector; no other FAT sector changes. */
  lemma AllocatedFat(g: Geometry, disk: Disk, c: nat, i: nat, t: nat)
    requires Allocatable(g, disk, c) && i < g.numFats && t < g.sectorsPerFat
    ensures Allocated(g, disk, c).Keys == disk.Keys && FatLba(g, i, t) in disk
    ensures Allocated(g, disk, c)[FatLba(g, i, t)] ==
            if t == FatSector(g, c) then NewSector(g, disk, c) else disk[FatLba(g, i, t)]
  {
    var s := FatSector(g, c);
    var m := Mirrored(g, disk, s, NewSector(g, disk, c), g.numFats);
    MirroredFat(g, disk, s, NewSector(g, disk, c), g.numFats, i, t);
    MirroredData(g, disk, s, NewSector(g, disk, c), g.numFats);
    ZeroedAt(g, m, ClusterLba(g, c), g.sectorsPerCluster);
    FatBeforeData(g, i, t);
    ClusterAfterFat(g, c);
  }

  /** In the data area only the sectors of c change, to zeroes. */
  lemma AllocatedData(g: Geometry, disk: Disk, c: nat, k: nat)
    requires Allocatable(g, disk, c) && k in disk && k >= DataStart(g)
    ensures Allocated(g, disk, c).Keys == disk.Keys
    ensures Allocated(g, disk, c)[k] ==
            if ClusterLba(g, c) <= k < ClusterLba(g, c) + g.sectorsPerCluster then seq(g.bytesPerSector, _ => 0)
            else disk[k]
  {
    var s := FatSector(g, c);
    var m := Mirrored(g, disk, s, NewSector(g, disk, c), g.numFats);
    MirroredData(g, disk, s, NewSector(g, disk, c), g.numFats);
    ZeroedAt(g, m, ClusterLba(g, c), g.sectorsPerCluster);
  }

  lemma PresentKept(g: Geometry, a: Disk, b: Disk)
    requires Present(g, a) && a.Keys == b.Keys
    ensures Present(g, b)
  {
    forall c | 2 <= c < g.totalClusters + 2
      ensures ClusterReadable(g, b, c)
    {
      assert ClusterReadable(g, a, c);
    }
  }

  lemma ZeroedSizes(g: Geometry, disk: Disk, lba: nat, count: nat)
    requires SectorsOk(g, disk) && Readable(disk, lba, count)
    ensures SectorsOk(g, Zeroed(g, disk, lba, count))
  {
    ZeroedAt(g, disk, lba, count);
  }

  /** Taking a cluster keeps the shape of the volume. */
  lemma AllocatedShape(g: Geometry, disk: Disk, c: nat)
    requires Allocatable(g, disk, c)
    ensures Allocated(g, disk, c).Keys == disk.Keys
    ensures SectorsOk(g, Allocated(g, disk, c)) && Present(g, Allocated(g, disk, c))
  {
    var s := FatSector(g, c);
    var sector := NewSector(g, disk, c);
    var m := Mirrored(g, disk, s, sector, g.numFats);
    MirroredData(g, disk, s, sector, g.numFats);
    MirroredSizes(g, disk, s, sector, g.numFats);
    ZeroedAt(g, m, ClusterLba(g, c), g.sectorsPerCluster);
    ZeroedSizes(g, m, ClusterLba(g, c), g.sectorsPerCluster);
    PresentKept(g, disk, Allocated(g, disk, c));
  }

  lemma {:induction false} MirroredSizes(g: Geometry, disk: Disk, s: nat, sector: seq<byte>, n: nat)
    requires SectorsOk(g, disk) && |sector| == g.bytesPerSector
    ensures SectorsOk(g, Mirrored(g, disk, s, sector, n))
  {
    if n > 0 {
      MirroredSizes(g, disk, s, sector, n - 1);
    }
  }

  lemma PatchedWord(w: nat, value: nat)
    requires w < 0x1_0000_0000 && value < ENTRY
    ensures w / ENTRY * ENTRY + value < 0x1_0000_0000
    ensures (w / ENTRY * ENTRY + value) % ENTRY == value && (w / ENTRY * ENTRY + value) / ENTRY == w / ENTRY
  {
  }

  /** The patch changes one entry's 28 bits: it keeps that entry's top four bits and every other entry. */
  lemma PatchedEntries(g: Geometry, sector: seq<byte>, c: nat, value: nat, x: nat)
    requires g.bytesPerSector > 0 && g.bytesPerSector % 4 == 0 && |sector| == g.bytesPerSector && value < ENTRY
    requires FatSector(g, x) == FatSector(g, c)
    ensures EntryOffset(g, c) + 4 <= |sector| && EntryOffset(g, x) + 4 <= |sector|
    ensures |PatchedSector(g, sector, c, value)| == |sector|
    ensures var word := Word(PatchedSector(g, sector, c, value), EntryOffset(g, x));
            if x != c then word == Word(sector, EntryOffset(g, x))
            else word % ENTRY == value && word / ENTRY == Word(sector, EntryOffset(g, x)) / ENTRY
  {
    EntryInSector(g, c);
    EntryInSector(g, x);
    if x != c {
      EntriesApart(g, c, x);
    }
    PatchedAt(sector, EntryOffset(g, c), EntryOffset(g, x), value);
  }

  lemma PatchedAt(sector: seq<byte>, o: nat, p: nat, value: nat)
    requires o + 4 <= |sector| && p + 4 <= |sector| && value < ENTRY
    requires p == o || p + 4 <= o || o + 4 <= p
    ensures Word(sector, o) / ENTRY * ENTRY + value < 0x1_0000_0000
    ensures var word := Word(SetWord(sector, o, Word(sector, o) / ENTRY * ENTRY + value), p);
            if p != o then word == Word(sector, p)
            else word % ENTRY == value && word / ENTRY == Word(sector, o) / ENTRY
  {
    PatchedWord(Word(sector, o), value);
    WordRoundTrip(sector, o, Word(sector, o) / ENTRY * ENTRY + value, p);
  }

  /** Taking c sets its own entry to end-of-chain and changes no other entry. */
  lemma AllocatedEntry(g: Geometry, disk: Disk, c: nat, x: nat)
    requires Allocatable(g, disk, c) && FatFits(g)
    ensures SectorsOk(g, Allocated(g, disk, c))
    ensures Next(g, Allocated(g, disk, c), x) == if x == c then EOF else Next(g, disk, x)
  {
    AllocatedShape(g, disk, c);
    if 2 <= x < g.totalClusters + 2 {
      EntrySectorInFat(g, x);
      AllocatedFat(g, disk, c, 0, FatSector(g, x));
      if FatSector(g, x) == FatSector(g, c) {
        PatchedEntries(g, disk[FatLba(g, 0, FatSector(g, c))], c, EOF, x);
      }
    }
  }

  /** FAT copies that were equal stay equal. */
  lemma AllocatedCopies(g: Geometry, disk: Disk, c: nat)
    requires Allocatable(g, disk, c) && CopiesEqual(g, disk)
    ensures Present(g, Allocated(g, disk, c)) && CopiesEqual(g, Allocated(g, disk, c))
  {
    AllocatedShape(g, disk, c);
    forall i, s | 0 <= i < g.numFats && 0 <= s < g.sectorsPerFat
      ensures Allocated(g, disk, c)[FatLba(g, i, s)] == Allocated(g, disk, c)[FatLba(g, 0, s)]
    {
      AllocatedFat(g, disk, c, i, s);
      AllocatedFat(g, disk, c, 0, s);
    }
  }

  lemma {:induction false} SameSectors(a: Disk, b: Disk, lba: nat, count: nat)
    requires a.Keys == b.Keys && Readable(a, lba, count)
    requires forall k :: lba <= k < lba + count ==> a[k] == b[k]
    ensures Sectors(a, lba, count) == Sectors(b, lba, count)
  {
    if count > 0 {
      SameSectors(a, b, lba, count - 1);
    }
  }

  /** No other cluster's bytes change. */
  lemma AllocatedChunk(g: Geometry, disk: Disk, c: nat, d: nat)
    requires Allocatable(g, disk, c) && d != c
    ensures SectorsOk(g, Allocated(g, disk, c))
    ensures ClusterReadable(g, Allocated(g, disk, c), d) == ClusterReadable(g, disk, d)
    ensures Chunk(g, Allocated(g, disk, c), d) == Chunk(g, disk, d)
  {
    AllocatedShape(g, disk, c);
    if ClusterReadable(g, disk, d) {
      ClusterAfterFat(g, d);
      var lba := ClusterLba(g, d);
      forall k | lba <= k < lba + g.sectorsPerCluster
        ensures Allocated(g, disk, c)[k] == disk[k]
      {
        AllocatedData(g, disk, c, k);
        var x := k - ClusterLba(g, c);
        if 0 <= x < g.sectorsPerCluster {
          ClustersApart(g, c, d, x, k - lba);
        }
      }
      SameSectors(disk, Allocated(g, disk, c), lba, g.sectorsPerCluster);
    }
  }

  lemma {:induction false} ZeroSectors(g: Geometry, disk: Disk, lba: nat, count: nat)
    requires Readable(disk, lba, count)
    requires forall k :: lba <= k < lba + count ==> disk[k] == seq(g.bytesPerSector, _ => 0)
    ensures forall i :: 0 <= i < |Sectors(disk, lba, count)| ==> Sectors(disk, lba, count)[i] == 0
  {
    if count > 0 {
      ZeroSectors(g, disk, lba, count - 1);
    }
  }

  /** The new cluster reads as zeroes. */
  lemma AllocatedIsZero(g: Geometry, disk: Disk, c: nat)
    requires Allocatable(g, disk, c)
    ensures SectorsOk(g, Allocated(g, disk, c)) && ClusterReadable(g, Allocated(g, disk, c), c)
    ensures Chunk(g, Allocated(g, disk, c), c) == seq(g.clusterSize, _ => 0)
  {
    AllocatedShape(g, disk, c);
    ClusterAfterFat(g, c);
    var lba := ClusterLba(g, c);
    forall k | lba <= k < lba + g.sectorsPerCluster
      ensures Allocated(g, disk, c)[k] == seq(g.bytesPerSector, _ => 0)
    {
      AllocatedData(g, disk, c, k);
    }
    ZeroSectors(g, Allocated(g, disk, c), lba, g.sectorsPerCluster);
  }

  /** A chain in use: no cluster on it is marked free. */
  ghost predicate InUse(g: Geometry, disk: Disk, first: nat)
    requires GeometryOk(g) && SectorsOk(g, disk)
  {
    forall k: nat :: Next(g, disk, Walk(g, disk, first, k)) != FREE
  }

  lemma FreeIsOffChain(g: Geometry, disk: Disk, c: nat, first: nat, n: nat)
    requires GeometryOk(g) && SectorsOk(g, disk) && Next(g, disk, c) == FREE && InUse(g, disk, first)
    ensures Walk(g, disk, first, n) != c
  {
    assert Next(g, disk, Walk(g, disk, first, n)) != FREE;
  }

  /** Disks that agree on the entries along a chain have the same chain. */
  lemma {:induction false} SameWalk(g: Geometry, a: Disk, b: Disk, first: nat, n: nat)
    requires GeometryOk(g) && SectorsOk(g, a) && SectorsOk(g, b)
    requires forall k :: 0 <= k < n ==> Next(g, b, Walk(g, a, first, k)) == Next(g, a, Walk(g, a, first, k))
    ensures Walk(g, b, first, n) == Walk(g, a, first, n)
  {
    if n > 0 {
      SameWalk(g, a, b, first, n - 1);
    }
  }

  /** Disks that agree on the clusters along a chain have the same bytes on it. */
  lemma {:induction false} SameStream(g: Geometry, a: Disk, b: Disk, first: nat, n: nat)
    requires GeometryOk(g) && SectorsOk(g, a) && SectorsOk(g, b)
    requires forall k :: 0 <= k < n ==> Walk(g, b, first, k) == Walk(g, a, first, k)
    requires forall k :: 0 <= k < n ==> Chunk(g, b, Walk(g, a, first, k)) == Chunk(g, a, Walk(g, a, first, k))
    ensures Stream(g, b, first, n) == Stream(g, a, first, n)
  {
    if n > 0 {
      SameStream(g, a, b, first, n - 1);
    }
  }

  lemma WalkKept(g: Geometry, disk: Disk, after: Disk, c: nat, first: nat, n: nat)
    requires Allocatable(g, disk, c) && FatFits(g) && Next(g, disk, c) == FREE && InUse(g, disk, first)
    requires after == Allocated(g, disk, c) && SectorsOk(g, after)
    ensures Walk(g, after, first, n) == Walk(g, disk, first, n)
  {
    forall k | 0 <= k < n
      ensures Next(g, after, Walk(g, disk, first, k)) == Next(g, disk, Walk(g, disk, first, k))
    {
      FreeIsOffChain(g, disk, c, first, k);
      AllocatedEntry(g, disk, c, Walk(g, disk, first, k));
    }
    SameWalk(g, disk, after, first, n);
  }

  lemma StreamKept(g: Geometry, disk: Disk, after: Disk, c: nat, first: nat, n: nat)
    requires Allocatable(g, disk, c) && FatFits(g) && Next(g, disk, c) == FREE && InUse(g, disk, first)
    requires after == Allocated(g, disk, c) && SectorsOk(g, after)
    ensures Stream(g, after, first, n) == Stream(g, disk, first, n)
  {
    forall k | 0 <= k < n
      ensures Walk(g, after, first, k) == Walk(g, disk, first, k)
      ensures Chunk(g, after, Walk(g, disk, first, k)) == Chunk(g, disk, Walk(g, disk, first, k))
    {
      WalkKept(g, disk, after, c, first, k);
      FreeIsOffChain(g, disk, c, first, k);
      AllocatedChunk(g, disk, c, Walk(g, disk, first, k));
    }
    SameStream(g, disk, after, first, n);
  }

  /** A free cluster lies on no chain in use, and taking it leaves every such chain as it was: the same
      clusters in the same order with the same bytes, and so the same files. */
  lemma AllocationKeepsChain(g: Geometry, disk: Disk, c: nat, first: nat, n: nat)
    requires Allocatable(g, disk, c) && FatFits(g) && Next(g, disk, c) == FREE && InUse(g, disk, first)
    ensures SectorsOk(g, Allocated(g, disk, c))
    ensures Walk(g, disk, first, n) != c
    ensures Walk(g, Allocated(g, disk, c), first, n) == Walk(g, disk, first, n)
    ensures Stream(g, Allocated(g, disk, c), first, n) == Stream(g, disk, first, n)
    ensures HasCluster(g, Allocated(g, disk, c), first, n) == HasCluster(g, disk, first, n)
  {
    AllocatedShape(g, disk, c);
    FreeIsOffChain(g, disk, c, first, n);
    WalkKept(g, disk, Allocated(g, disk, c), c, first, n);
    StreamKept(g, disk, Allocated(g, disk, c), c, first, n);
    AllocatedChunk(g, disk, c, Walk(g, disk, first, n));
  }

  /** Well-formed files stay well-formed, and the new one-cluster chain is in use, so the next call
      cannot return c again. */
  lemma AllocationKeepsFiles(g: Geometry, disk: Disk, c: nat, first: nat, fileSize: nat, m: nat)
    requires Allocatable(g, disk, c) && FatFits(g) && Next(g, disk, c) == FREE && InUse(g, disk, first)
    ensures SectorsOk(g, Allocated(g, disk, c))
    ensures WellFormedFile(g, Allocated(g, disk, c), first, fileSize, m) == WellFormedFile(g, disk, first, fileSize, m)
    ensures InUse(g, Allocated(g, disk, c), first) && InUse(g, Allocated(g, disk, c), c)
  {
    var after := Allocated(g, disk, c);
    AllocationKeepsChain(g, disk, c, first, m);
    forall k: nat
      ensures HasCluster(g, after, first, k) == HasCluster(g, disk, first, k)
      ensures Next(g, after, Walk(g, after, first, k)) != FREE && Next(g, after, Walk(g, after, c, k)) != FREE
    {
      AllocationKeepsChain(g, disk, c, first, k);
      AllocatedEntry(g, disk, c, Walk(g, disk, first, k));
      NewChain(g, disk, c, k);
    }
  }

  /** The new chain is c alone. */
  lemma {:induction false} NewChain(g: Geometry, disk: Disk, c: nat, k: nat)
    requires Allocatable(g, disk, c) && FatFits(g)
    ensures SectorsOk(g, Allocated(g, disk, c))
    ensures Walk(g, Allocated(g, disk, c), c, k) == if k == 0 then c else EOF
    ensures Next(g, Allocated(g, disk, c), Walk(g, Allocated(g, disk, c), c, k)) == EOF
  {
    AllocatedEntry(g, disk, c, c);
    if k > 0 {
      NewChain(g, disk, c, k - 1);
    }
  }

  // --- the assumptions can be met ---

  /** Two FAT copies of one sector, two clusters: cluster 2 is free, cluster 3 a file of its own. */
  const TINY: Geometry := Geometry(16, 1, 0, 2, 1, 2, 16)

  function TinyDisk(): Disk
  {
    var fat: seq<byte> := [0, 0, 0, 0, 0, 0, 0, 0, 0, 0, 0, 0, 0xF8, 0xFF, 0xFF, 0x0F];
    var data: seq<byte> := [0, 0, 0, 0, 0, 0, 0, 0, 0, 0, 0, 0, 0, 0, 0, 0];
    map[0 := fat, 1 := fat, 2 := data, 3 := data]
  }

  lemma TinyShape()
    ensures GeometryOk(TINY) && FatFits(TINY) && SectorsOk(TINY, TinyDisk()) && TinyDisk().Keys == {0, 1, 2, 3}
  {
  }

  predicate IsTiny(g: Geometry)
  {
    g.fatStart == 0 && g.numFats == 2 && g.sectorsPerFat == 1 && g.sectorsPerCluster == 1 && g.totalClusters == 2
  }

  lemma TinyFat(g: Geometry, i: nat, s: nat)
    requires IsTiny(g) && i < g.numFats && s < g.sectorsPerFat
    ensures FatLba(g, i, s) == i && i < 2
  {
  }

  lemma TinyCluster(g: Geometry, disk: Disk, c: nat)
    requires IsTiny(g) && 2 in disk && 3 in disk && (c == 2 || c == 3)
    ensures ClusterReadable(g, disk, c)
  {
    assert ClusterLba(g, c) == c;
  }

  lemma TinyPresent(g: Geometry, disk: Disk)
    requires IsTiny(g) && 0 in disk && 1 in disk && 2 in disk && 3 in disk && disk[0] == disk[1]
    ensures Present(g, disk) && CopiesEqual(g, disk)
  {
    forall i, s | 0 <= i < g.numFats && 0 <= s < g.sectorsPerFat
      ensures FatLba(g, i, s) in disk && FatLba(g, 0, s) in disk
      ensures disk[FatLba(g, i, s)] == disk[FatLba(g, 0, s)]
    {
      TinyFat(g, i, s);
      TinyFat(g, 0, s);
    }
    forall c | 2 <= c < g.totalClusters + 2
      ensures ClusterReadable(g, disk, c)
    {
      TinyCluster(g, disk, c);
    }
  }

  lemma TinyEntries(disk: Disk)
    requires disk == TinyDisk() && GeometryOk(TINY) && SectorsOk(TINY, disk)
    ensures Next(TINY, disk, 2) == FREE && Next(TINY, disk, 3) == EOF && Next(TINY, disk, EOF) == EOF
  {
    assert FatSector(TINY, 2) == 0 && EntryOffset(TINY, 2) == 8;
    assert FatSector(TINY, 3) == 0 && EntryOffset(TINY, 3) == 12;
  }

  lemma {:induction false} TinyChain(g: Geometry, disk: Disk, k: nat)
    requires GeometryOk(g) && SectorsOk(g, disk) && Next(g, disk, 3) == EOF && Next(g, disk, EOF) == EOF
    ensures Walk(g, disk, 3, k) == if k == 0 then 3 else EOF
    ensures Next(g, disk, Walk(g, disk, 3, k)) == EOF
  {
    if k > 0 {
      TinyChain(g, disk, k - 1);
    }
  }

  lemma TinyFile(g: Geometry, disk: Disk)
    requires GeometryOk(g) && SectorsOk(g, disk) && Next(g, disk, 3) == EOF && Next(g, disk, EOF) == EOF
    requires ClusterReadable(g, disk, 3)
    ensures InUse(g, disk, 3) && WellFormedFile(g, disk, 3, g.clusterSize, 1)
  {
    forall k: nat
      ensures Next(g, disk, Walk(g, disk, 3, k)) != FREE
    {
      TinyChain(g, disk, k);
    }
    TinyChain(g, disk, 0);
    StreamStep(g, disk, 3, 0);
    assert HasCluster(g, disk, 3, 0);
  }

  /** A volume on which a cluster can be taken beside a file in use. */
  lemma TinyVolume(disk: Disk)
    requires disk == TinyDisk()
    ensures Allocatable(TINY, disk, 2) && FatFits(TINY) && CopiesEqual(TINY, disk) && Next(TINY, disk, 2) == FREE
    ensures InUse(TINY, disk, 3) && WellFormedFile(TINY, disk, 3, TINY.clusterSize, 1)
  {
    TinyShape();
    TinyPresent(TINY, disk);
    TinyEntries(disk);
    TinyCluster(TINY, disk, 3);
    TinyFile(TINY, disk);
    CanAllocate(TINY, disk, 2);
  }

  /** A file that is shorter than its one cluster: a wrapped request is answered with the rest of the
      cluster. On the volume above, 2^64 - 1 bytes from offset 1 of an 8-byte file give 15 bytes, not 7. */
  lemma WrapRunsOn(g: Geometry, disk: Disk, q: Request, n: nat, out: seq<byte>)
    requires GeometryOk(g) && SectorsOk(g, disk) && Next(g, disk, 3) == EOF && Next(g, disk, EOF) == EOF
    requires ClusterReadable(g, disk, 3) && q.fileSize < g.clusterSize < SIZE_T && RequestOk(q) && Wraps(q)
    requires Ended(g, disk, 3, q, n, out)
    ensures |out| == g.clusterSize - q.offset > Asked(q)
  {
    TinyFile(g, disk);
    TinyChain(g, disk, 1);
    StreamStep(g, disk, 3, 0);
    WrappedRead(g, disk, 3, q, n, out, 1);
    WantedIffNoWrap(q);
  }

  /** fs_read itself on that volume. */
  method ReadPastEnd() returns (result: int, out: seq<byte>)
    ensures result == |out| == 15 && Asked(Request(8, SIZE_T - 1, 1)) == 7
  {
    var q := Request(8, SIZE_T - 1, 1);
    var disk := TinyDisk();
    ghost var n;
    TinyShape();
    TinyEntries(disk);
    TinyCluster(TINY, disk, 3);
    result, out, n := ReadFile(TINY, disk, 3, q);
    WrapRunsOn(TINY, disk, q, n, out);
  }

  /** The mounted volume's device, written by AllocateCluster. Writes past what Present covers and failed
      I/O are outside this class. */
  class Volume {
    const g: Geometry
    var disk: Disk

    ghost predicate Valid()
      reads this
    {
      GeometryOk(g) && FatFits(g) && SectorsOk(g, disk) && Present(g, disk)
    }

    constructor (geometry: Geometry, contents: Disk)
      requires GeometryOk(geometry) && FatFits(geometry) && SectorsOk(geometry, contents) && Present(geometry, contents)
      ensures Valid() && g == geometry && disk == contents
    {
      g, disk := geometry, contents;
    }

    /** SetFATEntry on a readable FAT: read from the first copy, write to all of them. */
    method SetEntry(c: nat, value: nat)
      requires Allocatable(g, disk, c) && value < ENTRY
      modifies this
      ensures EntryOffset(g, c) + 4 <= g.bytesPerSector
      ensures disk == Mirrored(g, old(disk), FatSector(g, c),
                               PatchedSector(g, old(disk)[FatLba(g, 0, FatSector(g, c))], c, value), g.numFats)
    {
      EntryInSector(g, c);
      var s := FatSector(g, c);
      var sector := PatchedSector(g, disk[g.fatStart + s], c, value);
      var i := 0;
      while i < g.numFats
        invariant i <= g.numFats
        invariant disk == Mirrored(g, old(disk), s, sector, i)
      {
        disk := disk[FatLba(g, i, s) := sector];
        i := i + 1;
      }
    }

    /** WriteCluster with a buffer of zeroes. */
    method ClearCluster(c: nat)
      requires 2 <= c
      modifies this
      ensures disk == Zeroed(g, old(disk), ClusterLba(g, c), g.sectorsPerCluster)
    {
      var i := 0;
      while i < g.sectorsPerCluster
        invariant i <= g.sectorsPerCluster
        invariant disk == Zeroed(g, old(disk), ClusterLba(g, c), i)
      {
        disk := disk[ClusterLba(g, c) + i := seq(g.bytesPerSector, _ => 0)];
        i := i + 1;
      }
    }

    /** AllocateCluster: the lowest free cluster is taken; 0 and no change exactly when there is none. */
    method AllocateCluster() returns (c: nat)
      requires Valid()
      modifies this
      ensures Valid()
      ensures forall d :: 2 <= d < (if c == 0 then g.totalClusters + 2 else c) ==> Next(g, old(disk), d) != FREE
      ensures c == 0 ==> disk == old(disk)
      ensures c != 0 ==> && Allocatable(g, old(disk), c) && Next(g, old(disk), c) == 0
                         && disk == Allocated(g, old(disk), c)
                         && disk.Keys == old(disk).Keys && forall k :: k in disk ==> TakenAt(g, old(disk), disk, c, k)
    {
      c := 2;
      while c < g.totalClusters + 2
        invariant 2 <= c <= g.totalClusters + 2 && disk == old(disk)
        invariant forall d :: 2 <= d < c ==> Next(g, disk, d) != FREE
      {
        if Next(g, disk, c) == FREE {
          CanAllocate(g, disk, c);
          AllocatedShape(g, disk, c);
          forall k | k in disk
            ensures TakenAt(g, disk, Allocated(g, disk, c), c, k)
          {
            AllocatedAt(g, disk, c, k);
          }
          SetEntry(c, EOF);
          ClearCluster(c);
          return;
        }
        c := c + 1;
      }
      c := 0;
    }
  }
}
