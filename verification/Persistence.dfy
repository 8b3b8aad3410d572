/** Saving, flushing and loading the state bytes through 4096-byte pages. */
module Persistence {
  import opened Geometry
  import opened ZoneTypes

  const PAGE_SIZE: nat := 4096
  const HEADER_SIZE: nat := 16
  const MAGIC: u32 := 0xBEEF_BEEF

  type Bytes = seq<u8>
  type Page = p: Bytes | |p| == PAGE_SIZE witness Zeros(PAGE_SIZE)

  function Zeros(n: nat): (b: Bytes)
    ensures |b| == n && forall k :: 0 <= k < n ==> b[k] == 0
  {
    seq(n, i => 0)
  }

  /** The checksum; nothing is assumed of it. */
  type Checksum = Bytes -> u32

  datatype Option<T> = None | Some(value: T)

  // ------------------------------------------------------ little-endian fields

  function Le16(x: u16): (b: Bytes)
    ensures |b| == 2
  {
    [x % 0x100, x / 0x100]
  }

  function Le32(x: u32): (b: Bytes)
    ensures |b| == 4
  {
    [x % 0x100, x / 0x100 % 0x100, x / 0x1_0000 % 0x100, x / 0x100_0000]
  }

  function Read16(b: Bytes, at: nat): u16
    requires at + 2 <= |b|
  {
    b[at] as int + 0x100 * b[at + 1] as int
  }

  function Read32(b: Bytes, at: nat): u32
    requires at + 4 <= |b|
  {
    b[at] as int + 0x100 * b[at + 1] as int + 0x1_0000 * b[at + 2] as int + 0x100_0000 * b[at + 3] as int
  }

  lemma Le16RoundTrip(b: Bytes, at: nat, x: u16)
    requires at + 2 <= |b| && b[at..at + 2] == Le16(x)
    ensures Read16(b, at) == x
  {
    assert b[at] == Le16(x)[0] && b[at + 1] == Le16(x)[1];
  }

  /** The four digits of `x` to base 256. */
  lemma FourDigits(x: int)
    ensures x == x % 0x100 + 0x100 * (x / 0x100)
    ensures x / 0x100 == x / 0x100 % 0x100 + 0x100 * (x / 0x1_0000)
    ensures x / 0x1_0000 == x / 0x1_0000 % 0x100 + 0x100 * (x / 0x100_0000)
  {}

  lemma Le32RoundTrip(b: Bytes, at: nat, x: u32)
    requires at + 4 <= |b| && b[at..at + 4] == Le32(x)
    ensures Read32(b, at) == x
  {
    var q := b[at..at + 4];
    assert b[at] == q[0] && b[at + 1] == q[1] && b[at + 2] == q[2] && b[at + 3] == q[3];
    FourDigits(x as int);
  }

  // --------------------------------------------------------------- disk pages

  const ZERO_PAGE: Page := Zeros(PAGE_SIZE)

  /** A page of the persistence area; a page that cannot be read leaves the zeroed buffer. */
  function PageAt(disk: seq<Page>, k: nat): Page {
    if k < |disk| then disk[k] else ZERO_PAGE
  }

  function DiskByte(disk: seq<Page>, i: nat): u8 {
    PageAt(disk, i / PAGE_SIZE)[i % PAGE_SIZE]
  }

  /** The first `n` bytes of the persistence area. */
  function DiskBytes(disk: seq<Page>, n: nat): (b: Bytes)
    ensures |b| == n
  {
    seq(n, i requires 0 <= i < n => DiskByte(disk, i))
  }

  /** The pages hold the bytes; whatever follows the last byte in its page is of no account. */
  ghost predicate Holds(disk: seq<Page>, bytes: Bytes) {
    forall i :: 0 <= i < |bytes| ==> DiskByte(disk, i) == bytes[i]
  }

  function PagesFor(n: nat): nat { n / PAGE_SIZE + if n % PAGE_SIZE != 0 then 1 else 0 }

  // ------------------------------------------------------------- state bytes

  /** The state bytes begin with the magic number and their own length. */
  predicate WellFormed(bytes: Bytes) {
    && HEADER_SIZE <= |bytes| < TWO32
    && Read32(bytes, 0) == MAGIC
    && Read32(bytes, 4) == |bytes|
  }

  predicate ChecksumOk(crc: Checksum, bytes: Bytes)
    requires |bytes| >= HEADER_SIZE
  {
    Read32(bytes, 12) == crc(bytes[HEADER_SIZE..])
  }

  /** The bytes with the checksum of the body stored in the header. */
  function WithChecksum(crc: Checksum, bytes: Bytes): (b: Bytes)
    requires |bytes| >= HEADER_SIZE
    ensures |b| == |bytes|
  {
    bytes[..12] + Le32(crc(bytes[HEADER_SIZE..])) + bytes[HEADER_SIZE..]
  }

  lemma WithChecksumOk(crc: Checksum, bytes: Bytes)
    requires |bytes| >= HEADER_SIZE
    ensures
      var b := WithChecksum(crc, bytes);
      && ChecksumOk(crc, b)
      && b[HEADER_SIZE..] == bytes[HEADER_SIZE..]
      && (WellFormed(bytes) ==> WellFormed(b))
  {
    var b := WithChecksum(crc, bytes);
    assert b[12..16] == Le32(crc(bytes[HEADER_SIZE..]));
    Le32RoundTrip(b, 12, crc(bytes[HEADER_SIZE..]));
    assert forall k :: 0 <= k < 12 ==> b[k] == bytes[k];
  }

  // -------------------------------------------------------------------- load

  /** A header with the right magic number announces at least a header's worth of bytes. */
  predicate HeaderSane(disk: seq<Page>) {
    Read32(PageAt(disk, 0), 0) == MAGIC ==> Read32(PageAt(disk, 0), 4) >= HEADER_SIZE
  }

  /** What loading finds: the state bytes, if magic number and checksum are right. */
  function LoadBytes(crc: Checksum, disk: seq<Page>): Option<Bytes>
    requires HeaderSane(disk)
  {
    var first := PageAt(disk, 0);
    if Read32(first, 0) != MAGIC then None
    else
      var bytes := DiskBytes(disk, Read32(first, 4));
      if ChecksumOk(crc, bytes) then Some(bytes) else None
  }

  /** Loading succeeds exactly if page 0 begins with the magic number and the checksum fits what follows
      the header; it gives as many bytes as page 0 announces, page after page. */
  lemma LoadOutcome(crc: Checksum, disk: seq<Page>)
    requires HeaderSane(disk)
    ensures
      var n, bytes := Read32(PageAt(disk, 0), 4), DiskBytes(disk, Read32(PageAt(disk, 0), 4));
      LoadBytes(crc, disk) ==
      if Read32(PageAt(disk, 0), 0) == 0xBEEF_BEEF && Read32(bytes, 12) == crc(bytes[16..]) then Some(bytes) else None
  {}

  /** The pages of `n` bytes: enough, and not one too many. */
  lemma PagesForBounds(n: nat)
    ensures n <= 4096 * PagesFor(n)
    ensures n > 0 ==> 4096 * (PagesFor(n) - 1) < n
    ensures n == 0 ==> PagesFor(n) == 0
  {}

  lemma FirstPageByte(disk: seq<Page>, k: nat)
    requires k < PAGE_SIZE
    ensures DiskByte(disk, k) == PageAt(disk, 0)[k]
  {}

  lemma HeaderOnDisk(disk: seq<Page>, bytes: Bytes)
    requires WellFormed(bytes) && Holds(disk, bytes)
    ensures Read32(PageAt(disk, 0), 0) == MAGIC && Read32(PageAt(disk, 0), 4) == |bytes|
    ensures HeaderSane(disk)
  {
    forall k | 0 <= k < |bytes| && k < PAGE_SIZE
      ensures PageAt(disk, 0)[k] == bytes[k]
    {
      FirstPageByte(disk, k);
      assert DiskByte(disk, k) == bytes[k];
    }
    FirstPageHeader(PageAt(disk, 0), bytes);
  }

  /** Pages that hold well-formed bytes load as exactly these bytes if their checksum is right, for
      every length: below a page, whole pages, and a partial last page with a stale tail. With a
      wrong checksum they do not load. */
  lemma HeldBytesLoadIff(crc: Checksum, disk: seq<Page>, bytes: Bytes)
    requires WellFormed(bytes) && Holds(disk, bytes)
    ensures HeaderSane(disk)
    ensures LoadBytes(crc, disk) == if ChecksumOk(crc, bytes) then Some(bytes) else None
  {
    HeaderOnDisk(disk, bytes);
    assert DiskBytes(disk, |bytes|) == bytes;
  }

  /** Writing only page 0 loads back if and only if the other pages already hold their part. */
  lemma FlushLoadsIff(crc: Checksum, disk: seq<Page>, page: Page, bytes: Bytes)
    requires |disk| > 0 && WellFormed(bytes) && ChecksumOk(crc, bytes)
    requires forall i :: 0 <= i < |bytes| && i < PAGE_SIZE ==> page[i] == bytes[i]
    ensures HeaderSane(disk[0 := page])
    ensures LoadBytes(crc, disk[0 := page]) == Some(bytes) <==>
            forall i :: PAGE_SIZE <= i < |bytes| ==> DiskByte(disk, i) == bytes[i]
  {
    var after := disk[0 := page];
    FirstPageHeader(page, bytes);
    forall i: nat
      ensures DiskByte(after, i) == if i < PAGE_SIZE then page[i] else DiskByte(disk, i)
    {}
    if LoadBytes(crc, after) == Some(bytes) {
      forall i | PAGE_SIZE <= i < |bytes|
        ensures DiskByte(disk, i) == bytes[i]
      {
        assert DiskBytes(after, |bytes|)[i] == bytes[i];
      }
    } else if forall i :: PAGE_SIZE <= i < |bytes| ==> DiskByte(disk, i) == bytes[i] {
      HeldBytesLoadIff(crc, after, bytes);
    }
  }

  lemma FirstPageHeader(page: Page, bytes: Bytes)
    requires WellFormed(bytes)
    requires forall i :: 0 <= i < |bytes| && i < PAGE_SIZE ==> page[i] == bytes[i]
    ensures Read32(page, 0) == MAGIC && Read32(page, 4) == |bytes|
  {}

  // ----------------------------------------------------------------- saving and loading

  /** The state bytes in memory, the persistence area on disk, and the one-page transfer buffer. */
  class Store {
    var state: array<u8>
    const disk: array<Page>
    const page: array<u8>
    const crc32: Checksum

    ghost predicate Valid()
      reads this, state
    {
      && page.Length == PAGE_SIZE
      && WellFormed(state[..])
      && PagesFor(state.Length) <= disk.Length
      && state != page
    }

    constructor (state: array<u8>, disk: array<Page>, crc32: Checksum)
      requires WellFormed(state[..]) && PagesFor(state.Length) <= disk.Length
      ensures Valid() && this.state == state && this.disk == disk && this.crc32 == crc32
      ensures fresh(page)
    {
      this.state := state;
      this.disk := disk;
      this.crc32 := crc32;
      page := new u8[PAGE_SIZE](_ => 0);
    }

    method StoreChecksum()
      requires Valid()
      modifies state
      ensures Valid() && state[..] == WithChecksum(crc32, old(state[..]))
    {
      ghost var before := state[..];
      WithChecksumOk(crc32, before);
      var field := Le32(crc32(state[HEADER_SIZE..]));
      state[12], state[13], state[14], state[15] := field[0], field[1], field[2], field[3];
      assert state[..] == WithChecksum(crc32, before);
    }

    /** Copies the part of the state that lies in page `k` into the buffer and writes it out; bytes of
        the buffer past the end of the state keep what they were. */
    method WritePage(k: nat, count: nat)
      requires Valid() && count <= PAGE_SIZE && k * PAGE_SIZE + count <= state.Length && k < disk.Length
      modifies page, disk
      ensures Valid() && state[..] == old(state[..])
      ensures forall j :: 0 <= j < disk.Length && j != k ==> disk[j] == old(disk[j])
      ensures forall o :: 0 <= o < count ==> disk[k][o] == state[k * PAGE_SIZE + o]
    {
      for o := 0 to count
        invariant forall x :: 0 <= x < o ==> page[x] == state[k * PAGE_SIZE + x]
        modifies page
      {
        page[o] := state[k * PAGE_SIZE + o];
      }
      disk[k] := page[..];
    }

    /** `smrsim_save_persistence` */
    method SavePersistence()
      requires Valid()
      modifies state, page, disk
      ensures Valid() && state[..] == WithChecksum(crc32, old(state[..]))
      ensures Holds(disk[..], state[..])
      ensures forall j :: PagesFor(state.Length) <= j < disk.Length ==> disk[j] == old(disk[j])
    {
      var numPages, partPage := state.Length / PAGE_SIZE, state.Length % PAGE_SIZE;
      StoreChecksum();
      ghost var bytes := state[..];
      for idx := 0 to numPages
        invariant Valid() && state[..] == bytes
        invariant forall j, o :: 0 <= j < idx && 0 <= o < PAGE_SIZE ==> disk[j][o] == bytes[j * PAGE_SIZE + o]
        invariant forall j :: idx <= j < disk.Length ==> disk[j] == old(disk[j])
        modifies page, disk
      {
        WritePage(idx, PAGE_SIZE);
      }
      if partPage != 0 {
        WritePage(numPages, partPage);
      }
      forall i | 0 <= i < |bytes|
        ensures DiskByte(disk[..], i) == bytes[i]
      {
        var j, o := i / PAGE_SIZE, i % PAGE_SIZE;
        assert i == j * PAGE_SIZE + o;
        assert disk[j][o] == bytes[j * PAGE_SIZE + o];
      }
    }

    /** `smrsim_flush_persistence`, given the change flags; `beyond` is what lies in memory behind a
        state shorter than a page. Whatever the flags are, the first masking clears the status and
        statistics bits, so the code that would write further pages is never reached. */
    method FlushPersistence(flag0: ChangeFlags, beyond: Page) returns (flag: ChangeFlags)
      requires Valid()
      modifies state, page, disk
      ensures Valid() && state[..] == WithChecksum(crc32, old(state[..]))
      ensures flag == NO_CHANGE
      ensures forall j :: 1 <= j < disk.Length ==> disk[j] == old(disk[j])
      ensures forall o :: 0 <= o < PAGE_SIZE ==> disk[0][o] == if o < state.Length then state[o] else beyond[o]
    {
      flag := flag0;
      StoreChecksum();
      flag := flag.Keep(CONFIG_CHANGE);
      if flag.Any() {
        flag := flag.Keep(ALL_BUT_CONFIG);
      }
      for o := 0 to PAGE_SIZE
        invariant forall x :: 0 <= x < o ==> page[x] == if x < state.Length then state[x] else beyond[x]
        modifies page
      {
        page[o] := if o < state.Length then state[o] else beyond[o];
      }
      disk[0] := page[..];
      flag := flag.Keep(STATS_CHANGE);
      if flag.Any() {
        assert false;
      }
      flag := flag.Keep(STATUS_CHANGE);
      if flag.Any() {
        assert false;
      }
    }

    /** `smrsim_load_persistence` up to the checksum: the state bytes read back, or nothing. */
    method LoadPersistence() returns (loaded: Option<array<u8>>)
      requires page.Length == PAGE_SIZE && HeaderSane(disk[..])
      modifies page
      ensures
        match LoadBytes(crc32, disk[..])
        case None => loaded.None?
        case Some(bytes) => loaded.Some? && fresh(loaded.value) && loaded.value[..] == bytes
    {
      ReadPage(0);
      ghost var first := page[..];
      if Read32(page[..], 0) != MAGIC {
        return None;
      }
      var length := Read32(page[..], 4);
      var image := new u8[length](_ => 0);
      var numPages, partPage := length / PAGE_SIZE, length % PAGE_SIZE;
      if numPages != 0 {
        CopyPage(image, 0, PAGE_SIZE);
      }
      var idx := 1;
      while idx < numPages
        invariant 1 <= idx <= numPages || (numPages == 0 && idx == 1)
        invariant forall i :: 0 <= i < idx * PAGE_SIZE && numPages != 0 ==> image[i] == DiskByte(disk[..], i)
        invariant numPages == 0 ==> page[..] == PageAt(disk[..], 0)
        modifies page, image
      {
        ReadPage(idx);
        CopyPage(image, idx, PAGE_SIZE);
        idx := idx + 1;
      }
      if partPage != 0 {
        if numPages != 0 {
          ReadPage(numPages);
        }
        CopyPage(image, numPages, partPage);
      }
      assert image[..] == DiskBytes(disk[..], length);
      if crc32(image[HEADER_SIZE..]) != Read32(image[..], 12) {
        return None;
      }
      return Some(image);
    }

    method ReadPage(k: nat)
      requires page.Length == PAGE_SIZE
      modifies page
      ensures page[..] == PageAt(disk[..], k)
    {
      var p := if k < disk.Length then disk[k] else ZERO_PAGE;
      for o := 0 to PAGE_SIZE
        invariant forall x :: 0 <= x < o ==> page[x] == p[x]
      {
        page[o] := p[o];
      }
      assert page[..] == p;
    }

    /** Copies the first `count` bytes of the buffer, which holds page `k`, to their place. */
    method CopyPage(dst: array<u8>, k: nat, count: nat)
      requires page.Length == PAGE_SIZE && count <= PAGE_SIZE && k * PAGE_SIZE + count <= dst.Length
      requires dst != page && page[..] == PageAt(disk[..], k)
      modifies dst
      ensures forall i :: 0 <= i < k * PAGE_SIZE ==> dst[i] == old(dst[i])
      ensures forall i :: k * PAGE_SIZE <= i < k * PAGE_SIZE + count ==> dst[i] == DiskByte(disk[..], i)
    {
      for o := 0 to count
        invariant forall i :: 0 <= i < k * PAGE_SIZE ==> dst[i] == old(dst[i])
        invariant forall x :: 0 <= x < o ==> dst[k * PAGE_SIZE + x] == page[x]
      {
        dst[k * PAGE_SIZE + o] := page[o];
      }
      forall i | k * PAGE_SIZE <= i < k * PAGE_SIZE + count
        ensures dst[i] == DiskByte(disk[..], i)
      {
        assert i == k * PAGE_SIZE + (i - k * PAGE_SIZE);
        assert i / PAGE_SIZE == k && i % PAGE_SIZE == i - k * PAGE_SIZE;
      }
    }

    /** Saving and loading again gives back the state bytes, whatever the disk held before. */
    method SaveThenLoad() returns (loaded: Option<array<u8>>)
      requires Valid()
      modifies state, page, disk
      ensures loaded.Some? && fresh(loaded.value)
      ensures loaded.value[..] == state[..] == WithChecksum(crc32, old(state[..]))
    {
      WithChecksumOk(crc32, state[..]);
      SavePersistence();
      HeldBytesLoadIff(crc32, disk[..], state[..]);
      loaded := LoadPersistence();
    }
  }
}
