/** The file image: its writer (tools/mkfs.c) and its reader (fs/fs.c), byte by byte. */
module FsImage {
  import opened KString

  const SLASH: Byte := 47

  datatype File = File(path: seq<Byte>, content: seq<Byte>)

  // struct dirent: 12 bytes of numbers and a name field of 20 bytes.
  datatype Dirent = Dirent(offset: nat, size: nat, reserved: nat, name: seq<Byte>)

  function Zeros(n: nat): seq<Byte> { seq(n, _ => 0) }

  // ----- numbers -------------------------------------------------------------

  // A 32-bit number in memory, low byte first.
  function NumberBytes(n: nat): (s: seq<Byte>)
    ensures |s| == 4
  {
    var a := n / 256;
    var b := a / 256;
    [n % 256, a % 256, b % 256, b / 256 % 256]
  }

  function Number(s: seq<Byte>): nat
    requires |s| == 4
  {
    var b0: nat, b1: nat, b2: nat, b3: nat := s[0], s[1], s[2], s[3];
    b0 + 256 * (b1 + 256 * (b2 + 256 * b3))
  }

  lemma NumberRoundTrip(n: nat)
    requires n < 0x1_0000_0000
    ensures Number(NumberBytes(n)) == n
  {
    var a := n / 256;
    var b := a / 256;
    assert n == 256 * a + n % 256 && a == 256 * b + a % 256;
    assert b == 256 * (b / 256) + b % 256 && b / 256 < 256;
  }

  // ----- the directory sector ------------------------------------------------

  predicate WellFormed(e: Dirent) {
    e.offset < 0x1_0000_0000 && e.size < 0x1_0000_0000 && e.reserved < 0x1_0000_0000 && |e.name| == 20
  }

  function EntryBytes(e: Dirent): (s: seq<Byte>)
    requires WellFormed(e)
    ensures |s| == 32
  {
    NumberBytes(e.offset) + NumberBytes(e.size) + NumberBytes(e.reserved) + e.name
  }

  function EntriesBytes(entries: seq<Dirent>): (s: seq<Byte>)
    requires forall e :: e in entries ==> WellFormed(e)
    ensures |s| == 32 * |entries|
  {
    if entries == [] then [] else EntriesBytes(entries[..|entries| - 1]) + EntryBytes(entries[|entries| - 1])
  }

  // struct dir in memory: 32 reserved bytes and 15 entries, one sector in all.
  function DirBytes(entries: seq<Dirent>): (s: seq<Byte>)
    requires |entries| == 15 && forall e :: e in entries ==> WellFormed(e)
    ensures |s| == 512
  {
    Zeros(32) + EntriesBytes(entries)
  }

  // Reading an entry back out of its 32 bytes, and entry i out of a sector.
  function EntryOf(s: seq<Byte>): Dirent
    requires |s| == 32
  {
    Dirent(Number(s[0..4]), Number(s[4..8]), Number(s[8..12]), s[12..32])
  }

  function EntryAt(sector: seq<Byte>, i: nat): Dirent
    requires |sector| == 512 && i < 15
  {
    EntryOf(sector[32 + 32 * i..64 + 32 * i])
  }

  lemma EntryOfBytes(e: Dirent)
    requires WellFormed(e)
    ensures EntryOf(EntryBytes(e)) == e
  {
    NumberRoundTrip(e.offset);
    NumberRoundTrip(e.size);
    NumberRoundTrip(e.reserved);
    hide NumberBytes, Number;
    var s := EntryBytes(e);
    assert s[0..4] == NumberBytes(e.offset) && s[4..8] == NumberBytes(e.size) && s[8..12] == NumberBytes(e.reserved);
    assert s[12..32] == e.name;
  }

  lemma {:induction false} EntrySlice(entries: seq<Dirent>, i: nat)
    requires i < |entries| && forall e :: e in entries ==> WellFormed(e)
    ensures EntriesBytes(entries)[32 * i..32 * i + 32] == EntryBytes(entries[i])
  {
    hide EntryBytes;
    var last := |entries| - 1;
    if i < last {
      EntrySlice(entries[..last], i);
      assert EntriesBytes(entries)[32 * i..32 * i + 32] == EntriesBytes(entries[..last])[32 * i..32 * i + 32];
    }
  }

  /** Every directory entry survives the trip through its bytes. */
  lemma EntryRoundTrip(entries: seq<Dirent>, i: nat)
    requires |entries| == 15 && i < 15 && forall e :: e in entries ==> WellFormed(e)
    ensures EntryAt(DirBytes(entries), i) == entries[i]
  {
    hide EntryOf, EntryBytes, EntriesBytes;
    EntrySlice(entries, i);
    EntryOfBytes(entries[i]);
    assert DirBytes(entries)[32 + 32 * i..64 + 32 * i] == EntriesBytes(entries)[32 * i..32 * i + 32];
  }

  // ----- names ---------------------------------------------------------------

  // The part of a path behind its last slash.
  function Basename(path: seq<Byte>): seq<Byte> {
    if path == [] then []
    else if path[|path| - 1] == SLASH then []
    else Basename(path[..|path| - 1]) + [path[|path| - 1]]
  }

  /** A path is its base name, or ends in a slash followed by its base name. */
  lemma {:induction false} BasenameSuffix(path: seq<Byte>)
    ensures SLASH !in Basename(path)
    ensures path == Basename(path) || exists dir :: path == dir + [SLASH] + Basename(path)
  {
    if path != [] {
      var init, c := path[..|path| - 1], path[|path| - 1];
      assert path == init + [c];
      if c == SLASH {
        assert path == init + [SLASH] + [];
      } else {
        BasenameSuffix(init);
        if dir :| init == dir + [SLASH] + Basename(init) {
          assert path == dir + [SLASH] + (Basename(init) + [c]);
        }
      }
    }
  }

  // What strncpy leaves in the 20-byte name field: at most 19 characters, then zeros.
  function Stored(name: seq<Byte>): seq<Byte> {
    if |name| > 19 then name[..19] else name
  }

  function NameField(name: seq<Byte>): (s: seq<Byte>)
    ensures |s| == 20
  {
    Stored(name) + Zeros(20 - |Stored(name)|)
  }

  // Character k of a C string with the given content.
  function CharAt(s: seq<Byte>, k: nat): Byte { if k < |s| then s[k] else 0 }

  // Equal up to the first terminator or n characters.
  ghost predicate SameString(s1: seq<Byte>, s2: seq<Byte>, n: nat) {
    forall k :: 0 <= k < n && (forall j :: 0 <= j < k ==> CharAt(s1, j) != 0) ==> CharAt(s1, k) == CharAt(s2, k)
  }

  method Strncmp(s1: seq<Byte>, s2: seq<Byte>, size: nat) returns (r: int)
    ensures r == 0 <==> SameString(s1, s2, size)
  {
    var left := size;
    var i := 0;
    while left != 0 && CharAt(s1, i) != 0 && CharAt(s2, i) != 0 && CharAt(s1, i) == CharAt(s2, i)
      invariant 0 <= i && left + i == size
      invariant forall k :: 0 <= k < i ==> CharAt(s1, k) == CharAt(s2, k) && CharAt(s1, k) != 0
      decreases left
    {
      left := left - 1;
      i := i + 1;
    }
    if left == 0 {
      return 0;
    }
    r := CharAt(s1, i) - CharAt(s2, i);
  }

  predicate NoZero(s: seq<Byte>) { forall k :: 0 <= k < |s| ==> s[k] != 0 }

  /** A stored name is found under a name exactly when that name, cut to 19 characters,
      was stored, and the name looked for is not longer. */
  lemma NameMatches(name: seq<Byte>, query: seq<Byte>)
    requires NoZero(name) && NoZero(query)
    ensures SameString(NameField(name), query, 20) <==> Stored(name) == query
  {
    var t, f := Stored(name), NameField(name);
    assert forall k :: 0 <= k < 20 ==> CharAt(f, k) == CharAt(t, k);
    if SameString(f, query, 20) {
      var n := |t|;
      assert forall j :: 0 <= j < n ==> CharAt(f, j) != 0;
      assert CharAt(f, n) == 0 && CharAt(query, n) == 0;
      assert forall k :: 0 <= k < n ==> CharAt(f, k) == CharAt(query, k);
      assert |query| <= n;
      assert CharAt(query, |query|) == 0;
      assert |query| >= n;
      forall k | 0 <= k < n ensures t[k] == query[k] {
        assert CharAt(f, k) == t[k] && CharAt(query, k) == query[k];
      }
      assert t == query;
    }
  }

  // ----- the writer ----------------------------------------------------------

  function Sectors(size: nat): nat { (size + 511) / 512 }

  // The sector where file k starts; sector 0 holds the directory.
  function Start(files: seq<File>, k: nat): (s: nat)
    requires k <= |files|
    ensures s >= 1
  {
    if k == 0 then 1 else Start(files, k - 1) + Sectors(|files[k - 1].content|)
  }

  lemma {:induction false} StartsIncrease(files: seq<File>, j: nat, k: nat)
    requires j <= k <= |files|
    ensures Start(files, j) <= Start(files, k)
    ensures j < k ==> Start(files, j) + Sectors(|files[j].content|) <= Start(files, k)
  {
    if j < k {
      StartsIncrease(files, j, k - 1);
    }
  }

  /** Different files occupy different sectors, and none occupies the directory. */
  lemma ExtentsDisjoint(files: seq<File>, j: nat, k: nat, sector: nat)
    requires j < |files| && k < |files|
    requires Start(files, j) <= sector < Start(files, j) + Sectors(|files[j].content|)
    requires Start(files, k) <= sector < Start(files, k) + Sectors(|files[k].content|)
    ensures j == k && sector >= 1
  {
    StartsIncrease(files, 0, j);
    if j < k {
      StartsIncrease(files, j, k);
    } else if k < j {
      StartsIncrease(files, k, j);
    }
  }

  // The directory entries of an image, and unused ones behind them.
  function EntryFor(files: seq<File>, k: nat): Dirent {
    if k < |files| then Dirent(Start(files, k), |files[k].content|, 0, NameField(Basename(files[k].path)))
    else Dirent(0, 0, 0, Zeros(20))
  }

  function Entries(files: seq<File>): (s: seq<Dirent>)
    ensures |s| == 15
  {
    seq(15, k requires 0 <= k => EntryFor(files, k))
  }

  // The image has fewer than 2^23 sectors, so that 32-bit byte counts suffice.
  predicate Fits(files: seq<File>) {
    |files| <= 15 && Start(files, |files|) < 0x80_0000
  }

  lemma EntriesWellFormed(files: seq<File>)
    requires Fits(files)
    ensures forall e :: e in Entries(files) ==> WellFormed(e)
  {
    forall k | 0 <= k < 15 ensures WellFormed(EntryFor(files, k)) {
      if k < |files| {
        StartsIncrease(files, k, |files|);
      }
    }
  }

  // The image holds the contents of file k at its start sector.
  ghost predicate Holds(image: seq<Byte>, files: seq<File>, k: nat)
    requires k < |files|
  {
    var at, n := 512 * Start(files, k), |files[k].content|;
    at + 512 * Sectors(n) <= |image| && image[at..at + n] == files[k].content
  }

  lemma AppendSlice(s: seq<Byte>, u: seq<Byte>, a: nat, b: nat, n: nat)
    requires a <= b == |s| && n <= |u|
    ensures (s + u)[a..b + n] == s[a..b] + u[..n]
  {
  }

  // fread of n bytes.
  method ReadInto(content: seq<Byte>, from: nat, sector: array<Byte>, n: nat)
    requires n <= sector.Length && from + n <= |content|
    modifies sector
    ensures sector[..n] == content[from..from + n] && sector[n..] == old(sector[n..])
  {
    forall i | 0 <= i < n {
      sector[i] := content[from + i];
    }
  }

  // Append a file, sector by sector, through a buffer that keeps what a short last read
  // does not overwrite.
  method AppendFile(image: seq<Byte>, content: seq<Byte>, sector: array<Byte>)
      returns (out: seq<Byte>, sectors: nat, size: nat)
    requires sector.Length == 512
    modifies sector
    ensures sectors == Sectors(|content|) && size == |content| && |out| == |image| + 512 * sectors
    ensures image <= out && out[|image|..|image| + |content|] == content
  {
    out, sectors, size := image, 0, 0;
    var readSize := if |content| < 512 then |content| else 512;
    while readSize > 0
      invariant size <= |content| && readSize == (if |content| - size < 512 then |content| - size else 512)
      invariant sectors == Sectors(size) && (readSize > 0 ==> size == 512 * sectors)
      invariant |out| == |image| + 512 * sectors && image <= out
      invariant out[|image|..|image| + size] == content[..size]
      decreases |content| - size
    {
      ReadInto(content, size, sector, readSize);
      AppendSlice(out, sector[..], |image|, |image| + size, readSize);
      assert sector[..][..readSize] == sector[..readSize];
      assert content[..size] + content[size..size + readSize] == content[..size + readSize];
      out := out + sector[..];
      sectors := sectors + 1;
      size := size + readSize;
      readSize := if |content| - size < 512 then |content| - size else 512;
    }
  }

  lemma HoldsExtends(image: seq<Byte>, out: seq<Byte>, files: seq<File>, k: nat)
    requires k < |files| && Holds(image, files, k) && image <= out
    ensures Holds(out, files, k)
  {
    var at, n := 512 * Start(files, k), |files[k].content|;
    assert out[at..at + n] == image[at..at + n];
  }

  lemma HoldsBehind(image: seq<Byte>, head: seq<Byte>, files: seq<File>, k: nat)
    requires k < |files| && Holds(image, files, k) && |head| == 512 <= |image|
    ensures Holds(head + image[512..], files, k)
  {
    StartsIncrease(files, 0, k);
    var at, n := 512 * Start(files, k), |files[k].content|;
    assert (head + image[512..])[at..at + n] == image[at..at + n];
  }

  lemma HoldsNew(image: seq<Byte>, out: seq<Byte>, files: seq<File>, i: nat)
    requires i < |files| && |image| == 512 * Start(files, i)
    requires |out| == |image| + 512 * Sectors(|files[i].content|)
    requires out[|image|..|image| + |files[i].content|] == files[i].content
    ensures Holds(out, files, i)
  {
  }

  ghost function Flatten(parts: seq<seq<Byte>>): seq<Byte> {
    if parts == [] then [] else Flatten(parts[..|parts| - 1]) + parts[|parts| - 1]
  }

  // The 32-bit number stored at a position.
  function NumberAt(s: seq<Byte>, at: nat): int
    requires at + 4 <= |s|
  {
    s[at] as int + 0x100 * s[at + 1] as int + 0x1_0000 * s[at + 2] as int + 0x100_0000 * s[at + 3] as int
  }

  // Part k of the data is file k, filled up to whole sectors and no further.
  ghost predicate IsPadded(content: seq<Byte>, part: seq<Byte>) {
    content <= part && |part| % 512 == 0 && |part| < |content| + 512
  }

  // Byte j of a stored name: cut to 19 characters and filled with zeros.
  function NameByte(name: seq<Byte>, j: nat): Byte {
    if j < 19 && j < |name| then name[j] else 0
  }

  lemma NameFieldIs(name: seq<Byte>, j: nat)
    requires j < 20
    ensures NameField(name)[j] == NameByte(name, j)
  {
  }

  // The directory entry of file k, byte by byte: the sector where its part of the data
  // lies, its size, a reserved number and its name.
  ghost predicate IsEntry(image: seq<Byte>, parts: seq<seq<Byte>>, files: seq<File>, k: nat)
    requires k < |files| == |parts| && k < 15 && |image| >= 512
  {
    && 512 * NumberAt(image, 32 + 32 * k) == 512 + |Flatten(parts[..k])|
    && NumberAt(image, 36 + 32 * k) == |files[k].content|
    && NumberAt(image, 40 + 32 * k) == 0
    && forall j :: 0 <= j < 20 ==> image[44 + 32 * k + j] == NameByte(Basename(files[k].path), j)
  }

  ghost predicate IsBlank(image: seq<Byte>, k: nat)
    requires k < 15 && |image| >= 512
  {
    image[32 + 32 * k..64 + 32 * k] == Zeros(32)
  }

  /** The whole image: one directory sector, and behind it the files in order, each filled
      up to whole sectors, with nothing between them or behind. */
  ghost predicate LaidOut(image: seq<Byte>, parts: seq<seq<Byte>>, files: seq<File>) {
    && |parts| == |files| <= 15 && |image| >= 512 && image[512..] == Flatten(parts)
    && image[..32] == Zeros(32)
    && (forall k :: 0 <= k < |files| ==> IsPadded(files[k].content, parts[k]) && IsEntry(image, parts, files, k))
    && (forall k :: |files| <= k < 15 ==> IsBlank(image, k))
  }

  ghost function PartOf(image: seq<Byte>, files: seq<File>, k: nat): seq<Byte>
    requires k < |files| && |image| == 512 * Start(files, |files|)
  {
    StartsIncrease(files, k + 1, |files|);
    image[512 * Start(files, k)..512 * Start(files, k + 1)]
  }

  // The data of an image, cut at the start sectors.
  ghost function Parts(image: seq<Byte>, files: seq<File>, n: nat): (s: seq<seq<Byte>>)
    requires n <= |files| && |image| == 512 * Start(files, |files|)
    ensures |s| == n
  {
    seq(n, k requires 0 <= k < n => PartOf(image, files, k))
  }

  lemma {:induction false} PartsFlatten(image: seq<Byte>, files: seq<File>, n: nat)
    requires n <= |files| && |image| == 512 * Start(files, |files|)
    ensures Start(files, n) <= Start(files, |files|)
    ensures Flatten(Parts(image, files, n)) == image[512..512 * Start(files, n)]
  {
    StartsIncrease(files, n, |files|);
    if n > 0 {
      PartsFlatten(image, files, n - 1);
      var parts := Parts(image, files, n);
      assert parts[..n - 1] == Parts(image, files, n - 1);
      assert image[512..512 * Start(files, n - 1)] + PartOf(image, files, n - 1) == image[512..512 * Start(files, n)];
    }
  }

  lemma {:induction false} EntryInImage(image: seq<Byte>, files: seq<File>, k: nat)
    requires Fits(files) && k < 15 && |image| >= 512
    requires (forall e :: e in Entries(files) ==> WellFormed(e)) && image[..512] == DirBytes(Entries(files))
    ensures var e := EntryFor(files, k);
      && WellFormed(e) && image[32 + 32 * k..64 + 32 * k] == EntryBytes(e)
  {
    var entries := Entries(files);
    assert entries[k] == EntryFor(files, k) && entries[k] in entries;
    hide EntryBytes, EntryFor;
    EntrySlice(entries, k);
    assert image[32 + 32 * k..64 + 32 * k] == image[..512][32 + 32 * k..64 + 32 * k];
    assert DirBytes(entries)[32 + 32 * k..64 + 32 * k] == EntriesBytes(entries)[32 * k..32 * k + 32];
  }

  lemma {:induction false} SubSlice(s: seq<Byte>, at: nat, n: nat, i: nat, j: nat)
    requires at + n <= |s| && i <= j <= n
    ensures s[at..at + n][i..j] == s[at + i..at + j]
  {
    var u, v := s[at..at + n][i..j], s[at + i..at + j];
    assert forall k :: 0 <= k < |u| ==> u[k] == v[k];
  }

  lemma {:induction false} NumberSlice(s: seq<Byte>, at: nat)
    requires at + 4 <= |s|
    ensures NumberAt(s, at) == NumberAt(s[at..at + 4], 0)
  {
  }

  lemma {:induction false} FirstParts(image: seq<Byte>, files: seq<File>, k: nat)
    requires k <= |files| && |image| == 512 * Start(files, |files|)
    ensures Parts(image, files, |files|)[..k] == Parts(image, files, k)
  {
    hide PartOf;
  }

  lemma {:induction false} NumberDigits(n: nat)
    requires n < 0x1_0000_0000
    ensures NumberAt(NumberBytes(n), 0) == n
  {
    NumberRoundTrip(n);
  }

  // The fields of an entry, wherever its 32 bytes lie.
  lemma {:induction false} EntryFields(s: seq<Byte>, at: nat, e: Dirent)
    requires at + 32 <= |s| && WellFormed(e) && s[at..at + 32] == EntryBytes(e)
    ensures NumberAt(s, at) == e.offset && NumberAt(s, at + 4) == e.size && NumberAt(s, at + 8) == e.reserved
    ensures s[at + 12..at + 32] == e.name
  {
    var b := EntryBytes(e);
    SubSlice(s, at, 32, 0, 4);
    SubSlice(s, at, 32, 4, 8);
    SubSlice(s, at, 32, 8, 12);
    SubSlice(s, at, 32, 12, 32);
    NumberDigits(e.offset);
    NumberDigits(e.size);
    NumberDigits(e.reserved);
    hide NumberBytes;
    assert b[0..4] == NumberBytes(e.offset) && b[4..8] == NumberBytes(e.size) && b[8..12] == NumberBytes(e.reserved);
    NumberSlice(s, at);
    NumberSlice(s, at + 4);
    NumberSlice(s, at + 8);
  }

  lemma {:induction false} EntryIs(image: seq<Byte>, parts: seq<seq<Byte>>, files: seq<File>, k: nat)
    requires Fits(files) && k < |files| == |parts| && |image| == 512 * Start(files, |files|)
    requires parts == Parts(image, files, |files|)
    requires (forall e :: e in Entries(files) ==> WellFormed(e)) && image[..512] == DirBytes(Entries(files))
    ensures IsEntry(image, parts, files, k)
  {
    hide EntryBytes, NumberAt, Entries, DirBytes, Parts, Flatten, Start, WellFormed, NameField, Basename;
    StartsIncrease(files, 0, k);
    StartsIncrease(files, k, |files|);
    EntryInImage(image, files, k);
    EntryFields(image, 32 + 32 * k, EntryFor(files, k));
    forall j | 0 <= j < 20 ensures image[44 + 32 * k + j] == NameByte(Basename(files[k].path), j) {
      NameFieldIs(Basename(files[k].path), j);
      assert image[44 + 32 * k + j] == image[44 + 32 * k..64 + 32 * k][j];
    }
    FirstParts(image, files, k);
    PartsFlatten(image, files, k);
  }

  lemma {:induction false} PartIsPadded(image: seq<Byte>, files: seq<File>, k: nat)
    requires k < |files| && |image| == 512 * Start(files, |files|) && Holds(image, files, k)
    ensures IsPadded(files[k].content, PartOf(image, files, k))
  {
    StartsIncrease(files, k + 1, |files|);
    var at, n := 512 * Start(files, k), |files[k].content|;
    assert PartOf(image, files, k)[..n] == image[at..at + n];
  }

  lemma {:induction false} BlankEntries(image: seq<Byte>, files: seq<File>, k: nat)
    requires Fits(files) && |files| <= k < 15 && |image| >= 512
    requires (forall e :: e in Entries(files) ==> WellFormed(e)) && image[..512] == DirBytes(Entries(files))
    ensures IsBlank(image, k)
  {
    EntryInImage(image, files, k);
    assert NumberBytes(0) == Zeros(4);
    assert EntryBytes(EntryFor(files, k)) == Zeros(32);
  }

  lemma {:induction false} ReservedBytes(image: seq<Byte>, entries: seq<Dirent>)
    requires |entries| == 15 && |image| >= 512
    requires (forall e :: e in entries ==> WellFormed(e)) && image[..512] == DirBytes(entries)
    ensures image[..32] == Zeros(32)
  {
    hide EntriesBytes, WellFormed;
    assert image[..32] == image[..512][..32];
  }

  /** An image whose directory names the start sectors at which it holds the files is laid
      out without gaps. */
  lemma {:induction false} ImageLaidOut(image: seq<Byte>, files: seq<File>)
    requires Fits(files) && |image| == 512 * Start(files, |files|)
    requires forall k :: 0 <= k < |files| ==> Holds(image, files, k)
    requires (forall e :: e in Entries(files) ==> WellFormed(e)) && image[..512] == DirBytes(Entries(files))
    ensures LaidOut(image, Parts(image, files, |files|), files)
  {
    hide Holds, IsPadded, IsEntry, IsBlank, Entries, DirBytes, Flatten, Start, PartOf, WellFormed;
    var parts := Parts(image, files, |files|);
    PartsFlatten(image, files, |files|);
    ReservedBytes(image, Entries(files));
    forall k | 0 <= k < |files| ensures IsPadded(files[k].content, parts[k]) && IsEntry(image, parts, files, k) {
      PartIsPadded(image, files, k);
      EntryIs(image, parts, files, k);
    }
    forall k | |files| <= k < 15 ensures IsBlank(image, k) {
      BlankEntries(image, files, k);
    }
  }

  /** mkfs: the image starts with the directory and holds every file at the sector that
      its entry names.  The two buffers start with arbitrary contents. */
  method MkFs(files: seq<File>, sector: array<Byte>, dir: array<Dirent>) returns (ok: bool, image: seq<Byte>)
    requires Fits(files) && sector.Length == 512 && dir.Length == 15
    modifies sector, dir
    ensures ok <==> files != []
    ensures ok ==>
      && |image| == 512 * Start(files, |files|)
      && (forall k :: 0 <= k < |files| ==> Holds(image, files, k))
      && (forall e :: e in Entries(files) ==> WellFormed(e)) && image[..512] == DirBytes(Entries(files))
    ensures ok ==> exists parts :: LaidOut(image, parts, files)
  {
    hide Holds, EntriesBytes, Basename, NameField, LaidOut;
    if files == [] {
      return false, [];
    }
    forall k | 0 <= k < 15 {
      dir[k] := Dirent(0, 0, 0, Zeros(20));
    }
    image := Zeros(512);
    var sectorOffset := 1;
    var i := 0;
    while i < |files|
      invariant 0 <= i <= |files| && sectorOffset == Start(files, i) && |image| == 512 * sectorOffset
      invariant forall k :: 0 <= k < i ==> Holds(image, files, k)
      invariant forall k :: 0 <= k < 15 ==> dir[k] == if k < i then EntryFor(files, k) else Dirent(0, 0, 0, Zeros(20))
    {
      var out, sectors, size := AppendFile(image, files[i].content, sector);
      forall k | 0 <= k < i ensures Holds(out, files, k) {
        HoldsExtends(image, out, files, k);
      }
      HoldsNew(image, out, files, i);
      dir[i] := Dirent(sectorOffset, size, 0, NameField(Basename(files[i].path)));
      sectorOffset := sectorOffset + sectors;
      image := out;
      i := i + 1;
    }
    EntriesWellFormed(files);
    assert dir[..] == Entries(files);
    forall k | 0 <= k < |files| ensures Holds(DirBytes(dir[..]) + image[512..], files, k) {
      HoldsBehind(image, DirBytes(dir[..]), files, k);
    }
    StartsIncrease(files, 0, |files|);
    image := DirBytes(dir[..]) + image[512..];
    ImageLaidOut(image, files);
    ok := true;
  }

  // ----- the reader ----------------------------------------------------------

  // The image sits behind the boot sector.
  function DirSector(disk: seq<Byte>): (s: seq<Byte>)
    requires |disk| >= 1024
    ensures |s| == 512
  {
    disk[512..1024]
  }

  /** Find a file by name: the first directory entry with that name, or -1 if none has it. */
  method Stat(disk: seq<Byte>, name: seq<Byte>) returns (r: int, size: nat, start: nat, ghost at: nat)
    requires |disk| >= 1024
    ensures r == 0 || r == -1
    ensures r == 0 ==>
      && at < 15 && SameString(EntryAt(DirSector(disk), at).name, name, 20)
      && size == EntryAt(DirSector(disk), at).size && start == EntryAt(DirSector(disk), at).offset
    ensures forall j :: 0 <= j < (if r == 0 then at else 15) ==> !SameString(EntryAt(DirSector(disk), j).name, name, 20)
  {
    hide EntryAt, SameString;
    var dir := DirSector(disk);
    var i := 0;
    while i < 15
      invariant 0 <= i <= 15
      invariant forall j :: 0 <= j < i ==> !SameString(EntryAt(dir, j).name, name, 20)
    {
      var e := EntryAt(dir, i);
      var c := Strncmp(e.name, name, 20);
      if c == 0 {
        return 0, e.size, e.offset, i;
      }
      i := i + 1;
    }
    return -1, 0, 0, 0;
  }

  // The sectors that read_file reads: the sum for rounding up is a 32-bit one, so a file
  // of less than 512 bytes short of 4 GiB is taken for empty.
  function SectorsRead(size: nat): nat {
    (size + 511) % 0x1_0000_0000 / 512
  }

  // read_sectors_ATA_PIO for one sector.
  method CopySector(disk: seq<Byte>, sector: nat, buf: array<Byte>, at: nat)
    requires 512 * sector + 512 <= |disk| && at + 512 <= buf.Length
    modifies buf
    ensures forall k :: 0 <= k < buf.Length ==>
      buf[k] == if at <= k < at + 512 then disk[512 * sector + (k - at)] else old(buf[k])
  {
    forall k | at <= k < at + 512 {
      buf[k] := disk[512 * sector + (k - at)];
    }
  }

  /** Read a file found by `Stat`: its bytes, or as many of them as fit in whole sectors
      into the buffer. */
  method ReadFile(disk: seq<Byte>, size: nat, start: nat, buf: array<Byte>, bufsize: nat) returns (n: nat)
    requires size < 0x1_0000_0000
    requires 512 * (1 + start + SectorsRead(size)) <= |disk|
    requires bufsize / 512 * 512 <= buf.Length || 512 * SectorsRead(size) <= buf.Length
    modifies buf
    ensures n == if size + 511 >= 0x1_0000_0000 then 0
                 else if bufsize / 512 * 512 < size then bufsize / 512 * 512 else size
    ensures n <= buf.Length && buf[..n] == disk[512 * (1 + start)..512 * (1 + start) + n]
  {
    var sector := 1 + start;
    var bytesRead := 0;
    var fileSectors := (size + 512 - 1) % 0x1_0000_0000 / 512;
    var room := bufsize;
    ghost var done := 0;
    while room >= 512 && fileSectors > 0
      invariant bytesRead == 512 * done && sector == 1 + start + done
        && done + fileSectors == SectorsRead(size) && fileSectors >= 0
      invariant room >= 0 && room + bytesRead == bufsize && bytesRead <= buf.Length
      invariant 512 * (1 + start) + 512 * SectorsRead(size) <= |disk|
      invariant forall k :: 0 <= k < bytesRead ==> buf[k] == disk[512 * (1 + start) + k]
      decreases fileSectors
    {
      assert done + 1 <= bufsize / 512;
      CopySector(disk, sector, buf, bytesRead);
      sector := sector + 1;
      fileSectors := fileSectors - 1;
      room := room - 512;
      bytesRead := bytesRead + 512;
      done := done + 1;
    }
    assert bufsize / 512 == done + room / 512;
    assert fileSectors == 0 || room / 512 == 0;
    assert size + 511 < 0x1_0000_0000 ==> 512 * SectorsRead(size) >= size;
    assert size + 511 >= 0x1_0000_0000 ==> SectorsRead(size) == 0;
    n := if bytesRead < size then bytesRead else size;
  }

  // ----- there and back ------------------------------------------------------

  predicate GoodNames(files: seq<File>) {
    forall k :: 0 <= k < |files| ==> NoZero(files[k].path)
  }

  lemma {:induction false} BasenameNoZero(path: seq<Byte>)
    requires NoZero(path)
    ensures NoZero(Basename(path))
  {
    if path != [] && path[|path| - 1] != SLASH {
      BasenameNoZero(path[..|path| - 1]);
    }
  }

  // What a lookup in the image's directory compares.
  lemma EntryMatches(files: seq<File>, sector: seq<Byte>, j: nat, query: seq<Byte>)
    requires Fits(files) && GoodNames(files) && NoZero(query) && j < 15
    requires forall e :: e in Entries(files) ==> WellFormed(e)
    requires sector == DirBytes(Entries(files))
    ensures EntryAt(sector, j) == EntryFor(files, j)
    ensures SameString(EntryAt(sector, j).name, query, 20) <==>
            query == if j < |files| then Stored(Basename(files[j].path)) else []
  {
    EntryRoundTrip(Entries(files), j);
    hide EntryAt, DirBytes, SameString, Basename;
    if j < |files| {
      BasenameNoZero(files[j].path);
      NameMatches(Basename(files[j].path), query);
    } else {
      assert NameField([]) == Zeros(20);
      NameMatches([], query);
    }
  }

  // File k can be found under its own base name: the name was not cut, and no earlier
  // file is stored under it.
  ghost predicate Findable(files: seq<File>, k: nat)
    requires k < |files|
  {
    && |Basename(files[k].path)| <= 19
    && forall j :: 0 <= j < k ==> Stored(Basename(files[j].path)) != Basename(files[k].path)
  }

  // The first match of file k's base name is file k if that is findable; a name that
  // was cut matches nothing.
  lemma FirstMatch(files: seq<File>, sector: seq<Byte>, k: nat, at: nat, found: bool)
    requires Fits(files) && GoodNames(files) && k < |files|
    requires forall e :: e in Entries(files) ==> WellFormed(e)
    requires sector == DirBytes(Entries(files))
    requires found ==> at < 15 && SameString(EntryAt(sector, at).name, Basename(files[k].path), 20)
    requires forall j :: 0 <= j < (if found then at else 15) ==>
      !SameString(EntryAt(sector, j).name, Basename(files[k].path), 20)
    ensures found && at == k <==> Findable(files, k)
    ensures found ==> at < |files| && EntryAt(sector, at) == EntryFor(files, at)
  {
    var q := Basename(files[k].path);
    BasenameNoZero(files[k].path);
    hide EntryAt, DirBytes, SameString, Basename, EntryFor, Entries;
    forall j | 0 <= j < 15
      ensures SameString(EntryAt(sector, j).name, q, 20) <==>
              q == if j < |files| then Stored(Basename(files[j].path)) else []
      ensures EntryAt(sector, j) == EntryFor(files, j)
    {
      EntryMatches(files, sector, j, q);
    }
    if |q| <= 19 {
      assert SameString(EntryAt(sector, k).name, q, 20);
    }
  }

  lemma EntryForIs(files: seq<File>, k: nat)
    requires k < |files|
    ensures EntryFor(files, k).offset == Start(files, k) && EntryFor(files, k).size == |files[k].content|
  {
  }

  lemma ReadableFile(image: seq<Byte>, boot: seq<Byte>, files: seq<File>, k: nat)
    requires Fits(files) && k < |files| && Holds(image, files, k) && |boot| == 512
    ensures var at, size := 512 * (1 + Start(files, k)), |files[k].content|;
      && size + 511 < 0x1_0000_0000 && at + 512 * Sectors(size) <= |boot + image|
      && forall n :: 0 <= n <= size ==> (boot + image)[at..at + n] == files[k].content[..n]
  {
    StartsIncrease(files, k, |files|);
    var at, size := 512 * (1 + Start(files, k)), |files[k].content|;
    assert (boot + image)[at..at + size] == files[k].content;
    forall n | 0 <= n <= size ensures (boot + image)[at..at + n] == files[k].content[..n] {
      assert (boot + image)[at..at + n] == (boot + image)[at..at + size][..n];
    }
  }

  /** Looking up the base name of file k finds exactly file k if and only if it is
      findable; and then reading gives back its bytes, as far as the buffer goes. */
  method StoreAndLoad(files: seq<File>, boot: seq<Byte>, sector: array<Byte>, dir: array<Dirent>, k: nat,
                      buf: array<Byte>, bufsize: nat) returns (found: bool, n: nat, ghost at: nat)
    requires Fits(files) && GoodNames(files) && k < |files| && |boot| == 512
    requires sector.Length == 512 && dir.Length == 15 && bufsize <= buf.Length
    modifies sector, dir, buf
    ensures found && at == k <==> Findable(files, k)
    ensures Findable(files, k) ==>
      var content := files[k].content;
      && n == (if bufsize / 512 * 512 < |content| then bufsize / 512 * 512 else |content|)
      && n <= buf.Length && buf[..n] == content[..n]
  {
    hide EntryAt, DirBytes, SameString, Basename, EntryFor, Entries, Findable, LaidOut, Start;
    var ok, image := MkFs(files, sector, dir);
    var disk := boot + image;
    assert DirSector(disk) == image[..512];
    var r, size, start;
    r, size, start, at := Stat(disk, Basename(files[k].path));
    found := r == 0;
    FirstMatch(files, DirSector(disk), k, at, found);
    n := 0;
    if found {
      EntryForIs(files, at);
      ReadableFile(image, boot, files, at);
      n := ReadFile(disk, size, start, buf, bufsize);
    }
  }
}
