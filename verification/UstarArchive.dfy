/**
 Reading the headers of a USTAR archive ("ustar Interchange Format" in the pax utility of
 POSIX.1-2017) from memory: 512-byte headers, each followed by the file's data padded to
 whole blocks, up to a block without the magic.
 */
module UstarArchive {

  const BLOCK: nat := 512
  const WORD: nat := 0x1_0000_0000

  /** Offsets of the header fields that the reader uses. */
  const NAME: nat := 0
  const NAME_SIZE: nat := 100
  const SIZE: nat := 124
  const MAGIC: nat := 257

  const NUL: char := 0 as char

  datatype Entry = Entry(inode: nat, path: string)

  /** The entries found, and whether the walk ended at a block that is no header. */
  datatype Listing = Listing(entries: seq<Entry>, complete: bool)

  // ---------------------------------------------------------------------
  // Fields
  // ---------------------------------------------------------------------

  /** Where a zero-terminated string that begins at `i` ends. */
  function StringEnd(s: string, i: nat): (e: nat)
    requires i <= |s|
    ensures i <= e <= |s|
    decreases |s| - i
  {
    if i < |s| && s[i] != NUL then StringEnd(s, i + 1) else i
  }

  function CString(s: string, i: nat): string
    requires i <= |s|
  {
    s[i..StringEnd(s, i)]
  }

  /** A character as the signed number it is, less that of '0'. */
  function Digit(c: char): int {
    (if c as int < 128 then c as int else c as int - 256) - '0' as int
  }

  /** The number of a byte is the one in two's complement, and digits count from '0'. */
  lemma DigitIsSigned(c: char)
    requires c as int < 256
    ensures -128 <= Digit(c) + 48 < 128 && (Digit(c) + 48 - c as int) % 256 == 0
  { }

  /** The number the first `i` digits stand for in base eight, in a word of 32 bits. */
  function OctalTo(s: string, i: nat): (n: nat)
    requires i <= |s|
    ensures n < WORD
  {
    if i == 0 then 0 else (OctalTo(s, i - 1) * 8 + Digit(s[i - 1])) % WORD
  }

  function Octal(s: string): (n: nat)
    ensures n < WORD
  {
    OctalTo(s, |s|)
  }

  method GetSize(s: string) returns (n: nat)
    ensures n == Octal(s)
  {
    n := 0;
    var i := 0;
    while i < |s|
      invariant 0 <= i <= |s| && n == OctalTo(s, i)
    {
      n := (n * 8 + Digit(s[i])) % WORD;
      i := i + 1;
    }
  }

  // ---------------------------------------------------------------------
  // The walk
  // ---------------------------------------------------------------------

  predicate IsHeader(image: string, address: nat)
    requires address + BLOCK <= |image|
  {
    image[address + MAGIC..address + MAGIC + 5] == "ustar"
  }

  /** The path of an entry: its name, without the dot of a leading "./". */
  function PathOf(name: string): string {
    if |name| >= 2 && name[0] == '.' && name[1] == '/' then name[1..] else name
  }

  /** Only a dot with a separator behind it is dropped. */
  lemma PathOfIs(name: string, rest: string)
    ensures PathOf("./" + rest) == "/" + rest
    ensures !("./" <= name) ==> PathOf(name) == name
  { }

  function NameAt(image: string, address: nat): string
    requires address + BLOCK <= |image|
  {
    CString(image, address + NAME)
  }

  function SizeAt(image: string, address: nat): nat
    requires address + BLOCK <= |image|
  {
    Octal(CString(image, address + SIZE))
  }

  /** As many blocks as the data fill, the last one perhaps in part. */
  function DataBlocks(size: nat): nat {
    if size == 0 then 0 else 1 + DataBlocks(if size < BLOCK then 0 else size - BLOCK)
  }

  /** From a header to the next one: a header block and the blocks of the data. */
  function Stride(size: nat): (step: nat)
    ensures step >= BLOCK
  {
    BLOCK + DataBlocks(size) * BLOCK
  }

  /** A leading "./" loses its dot: the string that begins there moves down by one, its zero included. */
  function Renamed(image: string, address: nat): (m: string)
    requires address + BLOCK <= |image|
    ensures |m| == |image|
  {
    if image[address + NAME] == '.' && image[address + NAME + 1] == '/'
    then MovedDown(image, address + NAME, StringEnd(image, address + NAME)) else image
  }

  function MovedDown(image: string, begin: nat, end: nat): (m: string)
    requires begin <= end <= |image|
    ensures |m| == |image|
  {
    if begin == end then image
    else image[..begin] + image[begin + 1..end] + [if end < |image| then image[end] else NUL] + image[end..]
  }

  lemma MovedAre(image: string, begin: nat, end: nat, m: string)
    requires begin <= end <= |image| && |m| == |image|
    requires forall i {:trigger m[i]} :: 0 <= i < begin || end <= i < |m| ==> m[i] == image[i]
    requires forall i {:trigger m[i]} :: begin <= i < end ==> m[i] == if i + 1 < |image| then image[i + 1] else NUL
    ensures m == MovedDown(image, begin, end)
  {
    if begin < end {
      assert m[..begin] == image[..begin] && m[begin..end - 1] == image[begin + 1..end] && m[end..] == image[end..];
      assert m == m[..begin] + m[begin..end - 1] + [m[end - 1]] + m[end..];
    }
  }

  function EntryAt(image: string, address: nat, inode: nat): Entry
    requires address + BLOCK <= |image|
  {
    Entry(inode, NameAt(image, address))
  }

  /** A mapped block with the magic. */
  predicate HeaderAt(image: string, address: nat) {
    address + BLOCK <= |image| && IsHeader(image, address)
  }

  /** From the `k`-th address to the next: the header there is renamed, and its size is how far to go. */
  ghost predicate Steps(images: seq<string>, addresses: seq<nat>, k: nat) {
    && k + 1 < |addresses| == |images| && HeaderAt(images[k], addresses[k])
    && images[k + 1] == Renamed(images[k], addresses[k])
    && addresses[k + 1] == addresses[k] + Stride(SizeAt(images[k + 1], addresses[k]))
  }

  /** The blocks the reader looks at and the memory at each: headers, and at the end a block that is none. */
  ghost predicate Visits(images: seq<string>, addresses: seq<nat>) {
    && |addresses| == |images| > 0 && addresses[0] == 0
    && !HeaderAt(images[|images| - 1], addresses[|images| - 1])
    && forall k {:trigger Steps(images, addresses, k)} :: 0 <= k < |images| - 1 ==> Steps(images, addresses, k)
  }

  /** The `k`-th entry is that of the header at the `k`-th address, once it is renamed. */
  ghost predicate ListedAt(images: seq<string>, addresses: seq<nat>, entries: seq<Entry>, inode: nat, k: nat) {
    k < |entries| && k < |addresses| && k + 1 < |images| && addresses[k] + BLOCK <= |images[k + 1]| &&
    entries[k] == EntryAt(images[k + 1], addresses[k], inode + k)
  }

  /** The entries of the headers visited, with consecutive inode numbers. */
  ghost predicate Lists(images: seq<string>, addresses: seq<nat>, entries: seq<Entry>, inode: nat) {
    |entries| + 1 == |addresses| == |images| &&
    forall k {:trigger ListedAt(images, addresses, entries, inode, k)} ::
      0 <= k < |entries| ==> ListedAt(images, addresses, entries, inode, k)
  }

  /** A listing of the headers that a walk along those addresses visits, in those memories. */
  ghost predicate ListedAlong(listing: Listing, inode: nat, images: seq<string>, addresses: seq<nat>) {
    && Visits(images, addresses) && Lists(images, addresses, listing.entries, inode)
    && (listing.complete <==> addresses[|addresses| - 1] + BLOCK <= |images[|images| - 1]|)
  }

  /** The first loop of ReadArchive, over an archive in memory. */
  method ReadHeaders(image: array<char>, nextInode: nat)
    returns (listing: Listing, ghost images: seq<string>, ghost addresses: seq<nat>)
    modifies image
    ensures ListedAlong(listing, nextInode, images, addresses)
    ensures images[0] == old(image[..]) && images[|images| - 1] == image[..]
  {
    var address: nat, inode: nat := 0, nextInode;
    var entries: seq<Entry> := [];
    images, addresses := [image[..]], [0];
    while address + BLOCK <= image.Length && IsHeader(image[..], address)
      invariant |images| == |addresses| == |entries| + 1 && images[0] == old(image[..]) && addresses[0] == 0
      invariant images[|entries|] == image[..] && addresses[|entries|] == address
      invariant inode == nextInode + |entries| && Lists(images, addresses, entries, nextInode)
      invariant forall k {:trigger Steps(images, addresses, k)} :: 0 <= k < |entries| ==> Steps(images, addresses, k)
      decreases image.Length - address
    {
      var entry, next := ReadEntry(image, address, inode);
      Extended(images, addresses, |entries|, image[..], next);
      Listed(images, addresses, entries, nextInode, entry, image[..], next);
      images, addresses := images + [image[..]], addresses + [next];
      entries := entries + [entry];
      address := next;
      inode := inode + 1;
    }
    listing := Listing(entries, address + BLOCK <= image.Length);
  }

  lemma Listed(
    images: seq<string>, addresses: seq<nat>, entries: seq<Entry>, inode: nat, entry: Entry, m: string, next: nat)
    requires Lists(images, addresses, entries, inode) && addresses[|entries|] + BLOCK <= |m|
    requires entry == EntryAt(m, addresses[|entries|], inode + |entries|)
    ensures Lists(images + [m], addresses + [next], entries + [entry], inode)
  {
    forall k | 0 <= k < |entries + [entry]|
      ensures ListedAt(images + [m], addresses + [next], entries + [entry], inode, k)
    {
      if k < |entries| {
        assert ListedAt(images, addresses, entries, inode, k);
      }
    }
  }

  lemma Extended(images: seq<string>, addresses: seq<nat>, n: nat, m: string, next: nat)
    requires |addresses| == |images| == n + 1 && HeaderAt(images[n], addresses[n])
    requires m == Renamed(images[n], addresses[n]) && next == addresses[n] + Stride(SizeAt(m, addresses[n]))
    requires forall k {:trigger Steps(images, addresses, k)} :: 0 <= k < n ==> Steps(images, addresses, k)
    ensures var images', addresses' := images + [m], addresses + [next];
            forall k {:trigger Steps(images', addresses', k)} :: 0 <= k < n + 1 ==> Steps(images', addresses', k)
  {
    forall k | 0 <= k < n + 1
      ensures Steps(images + [m], addresses + [next], k)
    {
      if k < n {
        assert Steps(images, addresses, k);
      }
    }
  }

  method ReadEntry(image: array<char>, address: nat, inode: nat) returns (entry: Entry, next: nat)
    requires address + BLOCK <= image.Length && IsHeader(image[..], address)
    modifies image
    ensures image[..] == Renamed(old(image[..]), address)
    ensures entry == EntryAt(image[..], address, inode)
    ensures next == address + Stride(SizeAt(image[..], address)) && next > address
  {
    if image[address + NAME] == '.' && image[address + NAME + 1] == '/' {
      MoveDown(image, address + NAME);
    }
    entry := Entry(inode, NameAt(image[..], address));
    var size := GetSize(CString(image[..], address + SIZE));
    var step := Advance(size);
    next := address + step;
  }

  /** memmove by one, over the length of the string. */
  method MoveDown(image: array<char>, begin: nat)
    requires begin <= image.Length
    modifies image
    ensures image[..] == MovedDown(old(image[..]), begin, StringEnd(old(image[..]), begin))
  {
    ghost var before := image[..];
    var end := StringEnd(image[..], begin);
    forall i | begin <= i < end {
      image[i] := if i + 1 < image.Length then image[i + 1] else NUL;
    }
    MovedAre(before, begin, end, image[..]);
  }

  lemma {:induction false} DataBlocksIs(size: nat)
    ensures DataBlocks(size) == size / BLOCK + if size % BLOCK != 0 then 1 else 0
  {
    if size >= BLOCK {
      DataBlocksIs(size - BLOCK);
    }
  }

  method Advance(size: nat) returns (step: nat)
    ensures step == Stride(size)
  {
    DataBlocksIs(size);
    step := (size / BLOCK + 1) * BLOCK;
    if size % BLOCK != 0 {
      step := step + BLOCK;
    }
  }

  /** In bytes: a header of 512, and the data filled up to a multiple of that. */
  lemma StrideIs(size: nat)
    ensures Stride(size) == 512 + 512 * ((size + 511) / 512)
  {
    DataBlocksIs(size);
  }

  // ---------------------------------------------------------------------
  // The fields of a header, by their widths
  // ---------------------------------------------------------------------

  datatype Header = Header(
    name: string, mode: string, uid: string, gid: string, size: string, mtime: string, chksum: string,
    typeflag: string, link: string, signature: string, version: string, owner: string, group: string,
    devMaj: string, devMin: string, prefix: string, pad: string)

  predicate Widths(h: Header) {
    && |h.name| == 100 && |h.mode| == 8 && |h.uid| == 8 && |h.gid| == 8 && |h.size| == 12 && |h.mtime| == 12
    && |h.chksum| == 8 && |h.typeflag| == 1 && |h.link| == 100 && |h.signature| == 6 && |h.version| == 2
    && |h.owner| == 32 && |h.group| == 32 && |h.devMaj| == 8 && |h.devMin| == 8 && |h.prefix| == 155
    && |h.pad| == 12
  }

  /** What stands before the size, between it and the signature, and behind that. */
  function Front(h: Header): string {
    h.name + h.mode + h.uid + h.gid
  }

  function Middle(h: Header): string {
    h.mtime + h.chksum + h.typeflag + h.link
  }

  function Back(h: Header): string {
    h.version + h.owner + h.group + h.devMaj + h.devMin + h.prefix + h.pad
  }

  function Bytes(h: Header): string {
    Front(h) + h.size + Middle(h) + h.signature + Back(h)
  }

  /** The header stands at that address. */
  ghost predicate Stands(image: string, address: nat, h: Header) {
    Widths(h) && address + |Bytes(h)| <= |image| && image[address..address + |Bytes(h)|] == Bytes(h)
  }

  lemma FieldAt(image: string, address: nat, bytes: string, front: string, field: string, back: string)
    requires address + |bytes| <= |image| && image[address..address + |bytes|] == bytes
    requires bytes == front + field + back
    ensures image[address + |front|..address + |front| + |field|] == field
  {
    var i := |front|;
    assert bytes[i..i + |field|] == field;
    assert image[address..address + |bytes|][i..i + |field|] == image[address + i..address + i + |field|];
  }

  /** A zero-terminated text inside a field is read as it is in the field. */
  lemma {:induction false} TextAt(image: string, at: nat, field: string, i: nat)
    requires at + |field| <= |image| && image[at..at + |field|] == field && i <= |field| && NUL in field[i..]
    ensures StringEnd(image, at + i) == at + StringEnd(field, i)
    decreases |field| - i
  {
    assert i < |field| && image[at + i] == image[at..at + |field|][i] == field[i];
    if field[i] != NUL {
      assert field[i..] == [field[i]] + field[i + 1..];
      TextAt(image, at, field, i + 1);
    }
  }

  lemma NameField(image: string, address: nat, bytes: string, name: string, back: string)
    requires address + |bytes| <= |image| && image[address..address + |bytes|] == bytes && |bytes| == 512
    requires bytes == name + back && NUL in name
    ensures NameAt(image, address) == CString(name, 0)
  {
    assert bytes == "" + name + back && name[0..] == name;
    FieldAt(image, address, bytes, "", name, back);
    TextAt(image, address, name, 0);
    FieldPart(image, address, name, StringEnd(name, 0));
  }

  lemma SizeField(image: string, address: nat, bytes: string, front: string, size: string, back: string)
    requires address + |bytes| <= |image| && image[address..address + |bytes|] == bytes && |bytes| == 512
    requires bytes == front + size + back && |front| == 100 + 8 + 8 + 8 && NUL in size
    ensures SizeAt(image, address) == Octal(CString(size, 0))
  {
    FieldAt(image, address, bytes, front, size, back);
    assert size[0..] == size;
    TextAt(image, address + 124, size, 0);
    FieldPart(image, address + 124, size, StringEnd(size, 0));
  }

  lemma MagicField(image: string, address: nat, bytes: string, front: string, signature: string, back: string)
    requires address + |bytes| <= |image| && image[address..address + |bytes|] == bytes && |bytes| == 512
    requires bytes == front + signature + back && |signature| == 6
    requires |front| == 100 + 8 + 8 + 8 + 12 + 12 + 8 + 1 + 100
    ensures IsHeader(image, address) <==> signature[..5] == "ustar"
  {
    FieldAt(image, address, bytes, front, signature, back);
    FieldPart(image, address + 257, signature, 5);
    assert signature[0..5] == signature[..5];
  }

  lemma BytesSplit(h: Header, bytes: string)
    requires Widths(h) && bytes == Bytes(h)
    ensures |Front(h)| == 124 && |Middle(h)| == 121 && |Back(h)| == 249 && |bytes| == 512
    ensures bytes == Front(h) + h.size + (Middle(h) + h.signature + Back(h))
    ensures bytes == Front(h) + h.size + Middle(h) + h.signature + Back(h)
  { }

  lemma NameFirst(h: Header, bytes: string)
    requires bytes == Bytes(h)
    ensures bytes == h.name + (h.mode + h.uid + h.gid + h.size + Middle(h) + h.signature + Back(h))
  {
    var rest := h.mode + h.uid + h.gid;
    assert Front(h) == h.name + rest;
    Regroup(h.name, rest, h.size, Middle(h), h.signature, Back(h));
  }

  lemma Regroup(a: string, b: string, c: string, d: string, e: string, f: string)
    ensures (a + b) + c + d + e + f == a + (b + c + d + e + f)
  { }

  /** The reader takes name, size and magic from where the structure has them. */
  lemma FieldsRead(image: string, address: nat, h: Header)
    requires Stands(image, address, h)
    ensures |Bytes(h)| == BLOCK
    ensures IsHeader(image, address) <==> h.signature[..5] == "ustar"
    ensures NUL in h.name ==> NameAt(image, address) == CString(h.name, 0)
    ensures NUL in h.size ==> SizeAt(image, address) == Octal(CString(h.size, 0))
  {
    var bytes := Bytes(h);
    BytesSplit(h, bytes);
    MagicField(image, address, bytes, Front(h) + h.size + Middle(h), h.signature, Back(h));
    if NUL in h.name {
      NameFirst(h, bytes);
      NameField(image, address, bytes, h.name, h.mode + h.uid + h.gid + h.size + Middle(h) + h.signature + Back(h));
    }
    if NUL in h.size {
      SizeField(image, address, bytes, Front(h), h.size, Middle(h) + h.signature + Back(h));
    }
  }

  lemma FieldPart(image: string, at: nat, field: string, e: nat)
    requires at + |field| <= |image| && image[at..at + |field|] == field && e <= |field|
    ensures image[at..at + e] == field[0..e]
  {
    assert image[at..at + |field|][0..e] == image[at..at + e];
  }

  // ---------------------------------------------------------------------
  // Sizes in octal
  // ---------------------------------------------------------------------

  /** A number in `k` octal digits. */
  function Digits(n: nat, k: nat): (s: string)
    ensures |s| == k && forall i :: 0 <= i < k ==> '0' <= s[i] <= '7'
  {
    if k == 0 then "" else Digits(n / 8, k - 1) + [('0' as int + n % 8) as char]
  }

  function Power8(k: nat): (p: nat)
    ensures p >= 1
  {
    if k == 0 then 1 else 8 * Power8(k - 1)
  }

  /** Equal up to whole words, equal remainders. */
  lemma ModShift(a: int, k: int)
    ensures (a + k * WORD) % WORD == a % WORD
  { }

  lemma {:induction false} OctalPrefix(s: string, t: string, i: nat)
    requires i <= |s| && i <= |t| && forall k :: 0 <= k < i ==> s[k] == t[k]
    ensures OctalTo(s, i) == OctalTo(t, i)
  {
    if i > 0 {
      OctalPrefix(s, t, i - 1);
    }
  }

  /** Reading a size back gives its lowest 32 bits. */
  lemma {:induction false} OctalDigits(n: nat, k: nat)
    requires n < Power8(k)
    ensures Octal(Digits(n, k)) == n % WORD
  {
    if k > 0 {
      var s := Digits(n, k);
      OctalDigits(n / 8, k - 1);
      OctalPrefix(s, Digits(n / 8, k - 1), k - 1);
      assert OctalTo(s, k - 1) == n / 8 % WORD && Digit(s[k - 1]) == n % 8;
      LastDigit(n);
    }
  }

  lemma LastDigit(n: nat)
    ensures (n / 8 % WORD * 8 + n % 8) % WORD == n % WORD
  {
    var q := n / 8;
    assert q == q / WORD * WORD + q % WORD;
    ModShift(n, -8 * (q / WORD));
  }

  /** The reader finds the next header exactly when the size fits into 32 bits. */
  lemma StrideExact(n: nat, k: nat)
    requires n < Power8(k)
    ensures Stride(Octal(Digits(n, k))) == Stride(n) <==> n < WORD
  {
    OctalDigits(n, k);
    WordDown(n);
    if n >= WORD {
      DataBlocksGrow(n % WORD, n);
    }
  }

  lemma WordDown(n: nat)
    ensures n % WORD <= n
    ensures n < WORD ==> n % WORD == n
    ensures n >= WORD ==> n % WORD + BLOCK <= n
  { }

  lemma {:induction false} DataBlocksGrow(a: nat, b: nat)
    requires a + BLOCK <= b
    ensures DataBlocks(a) < DataBlocks(b)
  {
    if a >= BLOCK {
      DataBlocksGrow(a - BLOCK, b - BLOCK);
    }
  }

  // What follows the digits of a size, up to a zero, counts as more digits.

  /** The number that a text stands for in base eight, digits of any value included. */
  function Value(t: string): int {
    if t == "" then 0 else 8 * Value(t[..|t| - 1]) + Digit(t[|t| - 1])
  }

  /** A number with `k` zeros more in base eight. */
  function Shifted(n: int, k: nat): int {
    if k == 0 then n else 8 * Shifted(n, k - 1)
  }

  lemma {:induction false} OctalRunsOn(s: string, n: nat, q: nat, t: string)
    requires n == Octal(s) + q * WORD
    ensures Octal(s + t) == (Shifted(n, |t|) + Value(t)) % WORD
    decreases t
  {
    if t == "" {
      assert s + t == s;
      ModShift(Octal(s), q);
    } else {
      var last := |t| - 1;
      var front, all := t[..last], s + t;
      OctalRunsOn(s, n, q, front);
      OctalPrefix(all, s + front, |all| - 1);
      NextDigit(Shifted(n, last) + Value(front), Digit(t[last]));
    }
  }

  lemma NextDigit(n: int, d: int)
    ensures (n % WORD * 8 + d) % WORD == (8 * n + d) % WORD
  {
    assert n == n / WORD * WORD + n % WORD;
    ModShift(8 * n + d, -8 * (n / WORD));
  }

  /** What the reader takes for the size of `n` bytes when its digits are followed by some text. */
  lemma SizeRunsOn(n: nat, k: nat, t: string)
    requires n < Power8(k)
    ensures Octal(Digits(n, k) + t) == (Shifted(n, |t|) + Value(t)) % WORD
  {
    OctalDigits(n, k);
    OctalRunsOn(Digits(n, k), n, n / WORD, t);
  }

  /** The step is right exactly when the number so read fills as many blocks as the data. */
  lemma StepRunsOn(n: nat, k: nat, t: string)
    requires n < Power8(k)
    ensures Stride(Octal(Digits(n, k) + t)) == Stride(n) <==>
            DataBlocks((Shifted(n, |t|) + Value(t)) % WORD) == DataBlocks(n)
  {
    SizeRunsOn(n, k, t);
  }

  /** With a single blank after the digits, of the sizes up to 2^29 just those from 3 to 66 step right. */
  lemma BlankAfterSize(n: nat, k: nat)
    requires n < Power8(k) && 8 * n - 16 < WORD
    ensures Stride(Octal(Digits(n, k) + " ")) == Stride(n) <==> 3 <= n <= 66
  {
    BlankRead(n, k);
    BlankBlocks(n, Octal(Digits(n, k) + " "));
  }

  lemma BlankRead(n: nat, k: nat)
    requires n < Power8(k)
    ensures Octal(Digits(n, k) + " ") == (8 * n - 16) % WORD
  {
    SizeRunsOn(n, k, " ");
    assert " "[..0] == "" && Value(" ") == -16 && Shifted(n, 1) == 8 * n;
  }

  lemma BlankBlocks(n: nat, read: nat)
    requires 8 * n - 16 < WORD && read == (8 * n - 16) % WORD
    ensures Stride(read) == Stride(n) <==> 3 <= n <= 66
  {
    if n < 2 || n >= BLOCK {
      DataBlocksGrow(n, read);
    } else {
      assert read == 8 * n - 16;
      DataBlocksIs(n);
      DataBlocksIs(read);
    }
  }

  /** Eleven zeros more, and nothing is left in 32 bits. */
  lemma {:induction false} ShiftedOut(n: int, k: nat)
    requires k >= 11
    ensures Shifted(n, k) % WORD == 0
    decreases k
  {
    if k == 11 {
      assert Shifted(n, 1) == 8 * n;
      assert Shifted(n, 3) == 64 * Shifted(n, 1);
      assert Shifted(n, 5) == 64 * Shifted(n, 3);
      assert Shifted(n, 7) == 64 * Shifted(n, 5);
      assert Shifted(n, 9) == 64 * Shifted(n, 7);
      assert Shifted(n, 11) == 64 * Shifted(n, 9);
      ModShift(0, 2 * n);
    } else {
      ShiftedOut(n, k - 1);
      NextDigit(Shifted(n, k - 1), 0);
    }
  }

  /** After eleven more characters nothing is left of what came before: the size is what those characters say. */
  lemma SizeRunsOut(s: string, t: string)
    requires |t| >= 11
    ensures Octal(s + t) == Value(t) % WORD
  {
    RunsOutTo(s, Octal(s), t, |t|, Value(t));
  }

  lemma RunsOutTo(s: string, n: nat, t: string, k: nat, v: int)
    requires n == Octal(s) && k == |t| >= 11 && v == Value(t)
    ensures Octal(s + t) == v % WORD
  {
    OctalRunsOn(s, n, 0, t);
    OnlyValue(Octal(s + t), n, k, v);
  }

  /** A size that runs on into eleven digits of the time after it: the time is taken for the size. */
  lemma TimeForSize(size: string, time: nat, k: nat)
    requires k >= 11 && time < Power8(k)
    ensures Octal(size + Digits(time, k)) == time % WORD
  {
    var digits := Digits(time, k);
    SizeRunsOut(size, digits);
    SizeRunsOut("", digits);
    assert "" + digits == digits;
    OctalDigits(time, k);
  }

  lemma OnlyValue(read: nat, n: nat, k: nat, v: int)
    requires k >= 11 && read == (Shifted(n, k) + v) % WORD
    ensures read == v % WORD
  {
    ShiftedOut(n, k);
    ModShift(v, Shifted(n, k) / WORD);
  }

  // ---------------------------------------------------------------------
  // Writing archives
  // ---------------------------------------------------------------------

  /** An entry to be archived: its name, the texts from its mode and size fields on up to a zero, and its data. */
  datatype File = File(name: string, mode: string, size: string, data: string)

  /** A size text that runs on as far as the magic has the magic in it. */
  ghost predicate MagicInSize(size: string) {
    && !(MAGIC <= SIZE + |size| < MAGIC + 5)
    && forall k :: 0 <= k < |size| && MAGIC <= SIZE + k < MAGIC + 5 ==> size[k] == "ustar"[SIZE + k - MAGIC]
  }

  /** What fits into a header. */
  ghost predicate Fits(f: File) {
    && NUL !in f.name && |f.name| <= NAME_SIZE && NUL !in f.mode && NAME_SIZE + |f.mode| < SIZE
    && NUL !in f.size && SIZE + |f.size| < BLOCK && MagicInSize(f.size)
  }

  /** What the reader takes for the size leads it to the next header. */
  ghost predicate StepsRight(f: File) {
    Stride(Octal(f.size)) == Stride(|f.data|)
  }

  ghost predicate Proper(f: File) {
    Fits(f) && StepsRight(f)
  }

  /** The bytes of a file's header as the fields give them, with zero for those that are not of interest. */
  function HeaderChar(f: File, i: nat): char {
    if i < |f.name| then f.name[i]
    else if NAME_SIZE <= i < NAME_SIZE + |f.mode| then f.mode[i - NAME_SIZE]
    else if MAGIC <= i < MAGIC + 5 then "ustar"[i - MAGIC]
    else if SIZE <= i < SIZE + |f.size| then f.size[i - SIZE]
    else NUL
  }

  /** The name the reader sees: a name that fills its field runs on into the mode. */
  function ReadName(f: File): string {
    if |f.name| < NAME_SIZE then f.name else f.name + f.mode
  }

  lemma {:induction false} StringEndIs(s: string, i: nat, e: nat)
    requires i <= e < |s| && s[e] == NUL && forall k :: i <= k < e ==> s[k] != NUL
    ensures StringEnd(s, i) == e
    decreases |s| - i
  {
    if i < e {
      StringEndIs(s, i + 1, e);
    }
  }

  /** The text `t` stands at `i`, with a zero after it. */
  lemma CStringIs(s: string, i: nat, t: string)
    requires i + |t| < |s| && s[i + |t|] == NUL && NUL !in t
    requires forall k :: 0 <= k < |t| ==> s[i + k] == t[k]
    ensures CString(s, i) == t
  {
    forall k | i <= k < i + |t|
      ensures s[k] != NUL
    {
      assert s[i + (k - i)] == t[k - i];
    }
    StringEndIs(s, i, i + |t|);
    assert s[i..i + |t|] == t;
  }

  /** The bytes the reader looks at: the name up to a zero, the size up to a zero, and the magic. */
  predicate Looked(f: File, i: nat) {
    i <= |ReadName(f)| || SIZE <= i <= SIZE + |f.size| || MAGIC <= i < MAGIC + 5
  }

  /** A header of the file stands at that address: owner, times, checksum, type and version may be anything. */
  ghost predicate Written(image: string, address: nat, f: File) {
    address + BLOCK <= |image| &&
    forall i {:trigger HeaderChar(f, i)} ::
      0 <= i < BLOCK && Looked(f, i) ==> image[address + i] == HeaderChar(f, i)
  }

  lemma {:induction false} StringEndStops(s: string, i: nat)
    requires i <= |s| && NUL in s[i..]
    ensures StringEnd(s, i) < |s| && s[StringEnd(s, i)] == NUL && NUL !in s[i..StringEnd(s, i)]
    decreases |s| - i
  {
    if s[i] != NUL {
      assert s[i..] == [s[i]] + s[i + 1..];
      StringEndStops(s, i + 1);
      assert s[i..StringEnd(s, i)] == [s[i]] + s[i + 1..StringEnd(s, i)];
    }
  }

  /** The text of a field and its zero stand where the field does. */
  lemma TextStands(image: string, at: nat, field: string, text: string, k: nat)
    requires at + |field| <= |image| && image[at..at + |field|] == field && NUL in field
    requires text == CString(field, 0) && k <= |text|
    ensures |text| < |field| && NUL !in text && image[at + k] == if k < |text| then text[k] else NUL
  {
    assert field[0..] == field;
    StringEndStops(field, 0);
    assert image[at + k] == image[at..at + |field|][k] == field[k];
  }

  /** The file that a header of the format is for; a name that fills its field runs on into the mode. */
  function FileOf(h: Header, data: string): File {
    if NUL in h.name then File(CString(h.name, 0), "", CString(h.size, 0), data)
    else File(h.name, CString(h.mode, 0), CString(h.size, 0), data)
  }

  lemma NameAndModeAt(image: string, address: nat, h: Header)
    requires Stands(image, address, h)
    ensures address + 108 <= |image|
    ensures image[address..address + 100] == h.name && image[address + 100..address + 108] == h.mode
  {
    var bytes := Bytes(h);
    var rest := h.uid + h.gid + h.size + Middle(h) + h.signature + Back(h);
    BytesSplit(h, bytes);
    ModeSecond(h, bytes);
    FieldAt(image, address, bytes, h.name, h.mode, rest);
    FirstAt(image, address, bytes, h.name, h.mode, rest);
  }

  lemma FirstAt(image: string, address: nat, bytes: string, a: string, b: string, c: string)
    requires address + |bytes| <= |image| && image[address..address + |bytes|] == bytes && bytes == a + b + c
    ensures image[address..address + |a|] == a
  {
    assert image[address..address + |bytes|][..|a|] == image[address..address + |a|];
  }

  /** The name as it is read, and its zero. */
  lemma NameStands(image: string, address: nat, h: Header, f: File, i: nat)
    requires Stands(image, address, h) && (NUL in h.name || NUL in h.mode) && f == FileOf(h, f.data)
    requires i <= |ReadName(f)|
    ensures NUL !in f.name && |f.name| <= 100 && NUL !in f.mode && |f.mode| < 8
    ensures image[address + i] == HeaderChar(f, i)
  {
    NameAndModeAt(image, address, h);
    if NUL in h.name {
      TextStands(image, address, h.name, f.name, i);
    } else {
      TextStands(image, address + 100, h.mode, f.mode, if i < 100 then 0 else i - 100);
      if i < 100 {
        assert image[address + i] == image[address..address + 100][i];
      }
    }
  }

  lemma ModeSecond(h: Header, bytes: string)
    requires bytes == Bytes(h)
    ensures bytes == h.name + h.mode + (h.uid + h.gid + h.size + Middle(h) + h.signature + Back(h))
  {
    var rest := h.uid + h.gid;
    assert Front(h) == (h.name + h.mode) + rest;
    Regroup(h.name + h.mode, rest, h.size, Middle(h), h.signature, Back(h));
  }

  lemma SizeStands(image: string, address: nat, h: Header, f: File, k: nat)
    requires Stands(image, address, h) && NUL in h.size && f == FileOf(h, f.data) && k <= |f.size|
    ensures NUL !in f.size && |f.size| < 12
    ensures image[address + 124 + k] == if k < |f.size| then f.size[k] else NUL
  {
    var bytes := Bytes(h);
    BytesSplit(h, bytes);
    FieldAt(image, address, bytes, Front(h), h.size, Middle(h) + h.signature + Back(h));
    TextStands(image, address + 124, h.size, f.size, k);
  }

  /** A header with those fields is the header of that file. */
  lemma HeaderIsWritten(image: string, address: nat, h: Header, f: File)
    requires Stands(image, address, h) && (NUL in h.name || NUL in h.mode) && NUL in h.size
    requires h.signature[..5] == "ustar" && f == FileOf(h, f.data)
    ensures Written(image, address, f) && Fits(f)
  {
    FieldsRead(image, address, h);
    NameStands(image, address, h, f, 0);
    SizeStands(image, address, h, f, 0);
    forall i | 0 <= i < BLOCK && Looked(f, i)
      ensures image[address + i] == HeaderChar(f, i)
    {
      if i <= |ReadName(f)| {
        NameStands(image, address, h, f, i);
      } else if MAGIC <= i < MAGIC + 5 {
        assert image[address + i] == image[address + MAGIC..address + MAGIC + 5][i - MAGIC];
      } else {
        SizeStands(image, address, h, f, i - SIZE);
      }
    }
  }

  lemma NameRead(image: string, address: nat, f: File)
    requires Written(image, address, f) && Fits(f)
    ensures NameAt(image, address) == ReadName(f)
  {
    var t := ReadName(f);
    forall k | 0 <= k < |t|
      ensures image[address + k] == t[k]
    {
      assert image[address + k] == HeaderChar(f, k);
    }
    assert image[address + |t|] == HeaderChar(f, |t|);
    CStringIs(image, address + NAME, t);
  }

  lemma SizeRead(image: string, address: nat, f: File)
    requires Written(image, address, f) && Fits(f)
    ensures SizeAt(image, address) == Octal(f.size)
  {
    forall k | 0 <= k < |f.size|
      ensures image[address + SIZE + k] == f.size[k]
    {
      assert image[address + (SIZE + k)] == HeaderChar(f, SIZE + k);
    }
    assert image[address + (SIZE + |f.size|)] == HeaderChar(f, SIZE + |f.size|);
    CStringIs(image, address + SIZE, f.size);
  }

  lemma MagicRead(image: string, address: nat, f: File)
    requires Written(image, address, f) && Fits(f)
    ensures IsHeader(image, address)
  {
    var s := image[address + MAGIC..address + MAGIC + 5];
    forall k | 0 <= k < 5
      ensures s[k] == "ustar"[k]
    {
      assert s[k] == image[address + (MAGIC + k)] == HeaderChar(f, MAGIC + k);
    }
  }

  ghost predicate AllProper(files: seq<File>) {
    forall k {:trigger Proper(files[k])} :: 0 <= k < |files| ==> Proper(files[k])
  }

  lemma ProperTail(files: seq<File>)
    requires AllProper(files) && files != []
    ensures Proper(files[0]) && AllProper(files[1..])
  { }

  /** The archive from an address on: the files, each with its data, and a block that is no header. */
  ghost predicate LaidOut(image: string, address: nat, files: seq<File>)
    decreases files
  {
    if files == [] then address + BLOCK <= |image| && !IsHeader(image, address) else
      var f := files[0];
      && Written(image, address, f) && address + Stride(|f.data|) <= |image|
      && LaidOut(image, address + Stride(|f.data|), files[1..])
  }

  /** Two memories that agree from an address on. */
  ghost predicate AgreeFrom(a: string, b: string, from: nat) {
    |a| == |b| && forall i {:trigger b[i]} :: from <= i < |a| ==> a[i] == b[i]
  }

  lemma WrittenAgrees(a: string, b: string, from: nat, f: File)
    requires AgreeFrom(a, b, from) && Written(a, from, f)
    ensures Written(b, from, f)
  {
    forall i | 0 <= i < BLOCK && Looked(f, i)
      ensures b[from + i] == HeaderChar(f, i)
    {
      assert a[from + i] == HeaderChar(f, i);
    }
  }

  lemma {:induction false} LaidOutAgrees(a: string, b: string, from: nat, address: nat, files: seq<File>)
    requires AgreeFrom(a, b, from) && from <= address && LaidOut(a, address, files)
    ensures LaidOut(b, address, files)
    decreases files
  {
    if files == [] {
      assert b[address + MAGIC..address + MAGIC + 5] == a[address + MAGIC..address + MAGIC + 5];
    } else {
      WrittenAgrees(a, b, address, files[0]);
      LaidOutAgrees(a, b, from, address + Stride(|files[0].data|), files[1..]);
    }
  }

  lemma NameEndsAt(image: string, address: nat, f: File)
    requires Written(image, address, f) && Fits(f)
    ensures StringEnd(image, address) == address + |ReadName(f)|
  {
    NameRead(image, address, f);
  }

  /** The header of a file is renamed, and nothing behind its name changes. */
  lemma RenamedHeader(image: string, address: nat, f: File)
    requires Written(image, address, f) && Fits(f)
    ensures var m := Renamed(image, address);
            NameAt(m, address) == PathOf(ReadName(f)) && AgreeFrom(image, m, address + |ReadName(f)|)
    ensures forall i :: 0 <= i < address ==> Renamed(image, address)[i] == image[i]
  {
    var t, m := ReadName(f), Renamed(image, address);
    NameRead(image, address, f);
    NameEndsAt(image, address, f);
    forall k | 0 <= k < |t|
      ensures image[address + k] == t[k]
    {
      assert image[address + k] == NameAt(image, address)[k];
    }
    HeaderEnds(image, address, f);
    if image[address] == '.' && image[address + 1] == '/' {
      assert PathOf(t) == t[1..];
      MovedName(image, address, t);
    } else {
      assert m == image;
    }
  }

  /** A string that moves down by one loses its first character. */
  lemma MovedName(image: string, begin: nat, t: string)
    requires begin + |t| < |image| && |t| > 0 && NUL !in t && image[begin + |t|] == NUL
    requires forall k :: 0 <= k < |t| ==> image[begin + k] == t[k]
    ensures var m := MovedDown(image, begin, begin + |t|);
            CString(m, begin) == t[1..] && AgreeFrom(image, m, begin + |t|) &&
            forall i :: 0 <= i < begin ==> m[i] == image[i]
  {
    var m := MovedDown(image, begin, begin + |t|);
    forall k | 0 <= k < |t[1..]|
      ensures m[begin + k] == t[1..][k]
    {
      assert image[begin + (k + 1)] == t[k + 1];
    }
    CStringIs(m, begin, t[1..]);
  }

  lemma HeaderEnds(image: string, address: nat, f: File)
    requires Written(image, address, f) && Fits(f)
    ensures image[address + |ReadName(f)|] == NUL && |ReadName(f)| < SIZE
    ensures PathOf(ReadName(f)) != ReadName(f) <==> image[address] == '.' && image[address + 1] == '/'
  {
    var t := ReadName(f);
    assert image[address + |t|] == HeaderChar(f, |t|);
    if |t| > 0 {
      assert image[address + 0] == HeaderChar(f, 0) == t[0];
    }
    if |t| > 1 {
      assert image[address + 1] == HeaderChar(f, 1) == t[1];
      DotDropped(t);
    }
  }

  lemma DotDropped(name: string)
    requires |name| > 1
    ensures PathOf(name) != name <==> name[0] == '.' && name[1] == '/'
  {
    if name[0] == '.' && name[1] == '/' {
      assert |PathOf(name)| == |name| - 1;
    }
  }

  lemma RenamedSize(image: string, address: nat, f: File)
    requires Written(image, address, f) && Fits(f)
    ensures SizeAt(Renamed(image, address), address) == Octal(f.size)
  {
    var m := Renamed(image, address);
    RenamedHeader(image, address, f);
    HeaderEnds(image, address, f);
    SizeAgrees(image, m, address);
    SizeRead(image, address, f);
  }

  lemma {:induction false} StringEndAgrees(a: string, b: string, i: nat)
    requires AgreeFrom(a, b, i) && i <= |a|
    ensures StringEnd(a, i) == StringEnd(b, i)
    decreases |a| - i
  {
    if i < |a| && a[i] != NUL {
      StringEndAgrees(a, b, i + 1);
    }
  }

  lemma SizeAgrees(a: string, b: string, address: nat)
    requires address + BLOCK <= |a| && AgreeFrom(a, b, address + SIZE)
    ensures SizeAt(a, address) == SizeAt(b, address)
  {
    StringEndAgrees(a, b, address + SIZE);
    assert CString(a, address + SIZE) == CString(b, address + SIZE);
  }

  /** The entries of archived files: consecutive inode numbers, and names without a leading dot. */
  function EntriesFor(files: seq<File>, inode: nat): (entries: seq<Entry>)
    ensures |entries| == |files|
  {
    if files == [] then [] else [Entry(inode, PathOf(ReadName(files[0])))] + EntriesFor(files[1..], inode + 1)
  }

  lemma {:induction false} EntriesForAt(files: seq<File>, inode: nat, k: nat)
    requires k < |files|
    ensures EntriesFor(files, inode)[k] == Entry(inode + k, PathOf(ReadName(files[k])))
  {
    if k > 0 {
      EntriesForAt(files[1..], inode + 1, k - 1);
    }
  }

  /** All that follows the names of the headers is as it was: sizes, magic, data and the rest. */
  ghost predicate Kept(before: string, after: string, address: nat, files: seq<File>)
    decreases files
  {
    |before| == |after| &&
    if files == [] then AgreeFrom(before, after, address) else
      var next := address + Stride(|files[0].data|);
      && (forall i :: address + |ReadName(files[0])| <= i < next && i < |before| ==> after[i] == before[i])
      && Kept(before, after, next, files[1..])
  }

  lemma {:induction false} KeptAgrees(a: string, b: string, after: string, from: nat, address: nat, files: seq<File>)
    requires AgreeFrom(a, b, from) && from <= address && Kept(b, after, address, files)
    ensures Kept(a, after, address, files)
    decreases files
  {
    if files != [] {
      KeptAgrees(a, b, after, from, address + Stride(|files[0].data|), files[1..]);
    }
  }

  /** Two memories that agree up to an address. */
  ghost predicate AgreeTo(a: string, b: string, to: nat) {
    |a| == |b| && forall i {:trigger b[i]} :: 0 <= i < to && i < |a| ==> a[i] == b[i]
  }

  /** What a step over a file's header does to the memory. */
  ghost predicate Passed(before: string, after: string, address: nat, f: File) {
    AgreeFrom(before, after, address + |ReadName(f)|) && AgreeTo(before, after, address)
  }

  lemma RenamedPasses(image: string, address: nat, f: File, m: string)
    requires Written(image, address, f) && Fits(f) && m == Renamed(image, address)
    ensures NameAt(m, address) == PathOf(ReadName(f)) && SizeAt(m, address) == Octal(f.size)
    ensures Passed(image, m, address, f)
    ensures HeaderAt(image, address)
  {
    MagicRead(image, address, f);
    RenamedHeader(image, address, f);
    HeaderEnds(image, address, f);
    RenamedSize(image, address, f);
  }

  /** Where the reader is at the `j`-th step, the rest of the archive is laid out: it goes on by what the size says. */
  lemma VisitStep(images: seq<string>, addresses: seq<nat>, j: nat, files: seq<File>)
    requires Visits(images, addresses) && j < |images| && LaidOut(images[j], addresses[j], files) && files != []
    requires Fits(files[0])
    ensures j + 1 < |images| && addresses[j + 1] == addresses[j] + Stride(Octal(files[0].size))
    ensures Passed(images[j], images[j + 1], addresses[j], files[0]) && addresses[j] + BLOCK <= |images[j + 1]|
    ensures NameAt(images[j + 1], addresses[j]) == PathOf(ReadName(files[0]))
  {
    RenamedPasses(images[j], addresses[j], files[0], Renamed(images[j], addresses[j]));
    assert Steps(images, addresses, j);
  }

  lemma RestLaidOut(images: seq<string>, addresses: seq<nat>, j: nat, files: seq<File>)
    requires Visits(images, addresses) && j < |images| && LaidOut(images[j], addresses[j], files) && files != []
    requires Proper(files[0])
    ensures j + 1 < |images| && LaidOut(images[j + 1], addresses[j + 1], files[1..])
  {
    VisitStep(images, addresses, j, files);
    NextLaidOut(images[j], images[j + 1], addresses[j], addresses[j + 1], files);
  }

  lemma NextLaidOut(before: string, after: string, address: nat, next: nat, files: seq<File>)
    requires files != [] && LaidOut(before, address, files) && next == address + Stride(|files[0].data|)
    requires Passed(before, after, address, files[0]) && Fits(files[0])
    ensures LaidOut(after, next, files[1..])
  {
    LaidOutAgrees(before, after, address + |ReadName(files[0])|, next, files[1..]);
  }

  lemma VisitEnd(images: seq<string>, addresses: seq<nat>, j: nat, files: seq<File>)
    requires Visits(images, addresses) && j < |images| && LaidOut(images[j], addresses[j], files) && |files| == 0
    ensures |images| == j + 1 && addresses[j] + BLOCK <= |images[j]|
  {
    if j + 1 < |images| && Steps(images, addresses, j) {
      assert false;
    }
  }

  /** From the `j`-th step on, the reader lists the files that are left. */
  lemma {:induction false} ListsRest(
    images: seq<string>, addresses: seq<nat>, j: nat, files: seq<File>, entries: seq<Entry>, inode: nat)
    requires Visits(images, addresses) && Lists(images, addresses, entries, inode)
    requires j < |images| && LaidOut(images[j], addresses[j], files) && AllProper(files)
    ensures |images| == j + |files| + 1 && addresses[|images| - 1] + BLOCK <= |images[|images| - 1]|
    ensures entries[j..] == EntriesFor(files, inode + j)
    decreases files
  {
    if files == [] {
      VisitEnd(images, addresses, j, files);
    } else {
      ProperTail(files);
      RestLaidOut(images, addresses, j, files);
      ListsRest(images, addresses, j + 1, files[1..], entries, inode);
      ListsOne(images, addresses, j, files, entries, inode);
    }
  }

  lemma ListsOne(
    images: seq<string>, addresses: seq<nat>, j: nat, files: seq<File>, entries: seq<Entry>, inode: nat)
    requires Visits(images, addresses) && Lists(images, addresses, entries, inode) && j < |entries|
    requires LaidOut(images[j], addresses[j], files) && files != [] && Proper(files[0])
    requires entries[j + 1..] == EntriesFor(files[1..], inode + j + 1)
    ensures entries[j..] == EntriesFor(files, inode + j)
  {
    VisitStep(images, addresses, j, files);
    assert ListedAt(images, addresses, entries, inode, j);
    EntriesStep(entries, j, files, inode + j);
  }

  lemma EntriesStep(entries: seq<Entry>, j: nat, files: seq<File>, inode: nat)
    requires j < |entries| && files != [] && entries[j] == Entry(inode, PathOf(ReadName(files[0])))
    requires entries[j + 1..] == EntriesFor(files[1..], inode + 1)
    ensures entries[j..] == EntriesFor(files, inode)
  {
    assert entries[j..] == [entries[j]] + entries[j + 1..];
  }

  /** And it keeps what is behind their names, and all that it has passed. */
  lemma {:induction false} KeepsRest(images: seq<string>, addresses: seq<nat>, j: nat, files: seq<File>)
    requires Visits(images, addresses) && j < |images| && LaidOut(images[j], addresses[j], files)
    requires AllProper(files)
    ensures Kept(images[j], images[|images| - 1], addresses[j], files)
    ensures AgreeTo(images[j], images[|images| - 1], addresses[j])
    decreases files
  {
    if files == [] {
      VisitEnd(images, addresses, j, files);
    } else {
      ProperTail(files);
      VisitStep(images, addresses, j, files);
      RestLaidOut(images, addresses, j, files);
      KeepsRest(images, addresses, j + 1, files[1..]);
      FileKept(images[j], images[j + 1], images[|images| - 1], addresses[j], addresses[j + 1], files);
    }
  }

  lemma FileKept(before: string, next: string, after: string, address: nat, end: nat, files: seq<File>)
    requires files != [] && end == address + Stride(|files[0].data|) && Fits(files[0])
    requires Passed(before, next, address, files[0])
    requires Kept(next, after, end, files[1..]) && AgreeTo(next, after, end)
    ensures Kept(before, after, address, files) && AgreeTo(before, after, address)
  {
    KeptAgrees(before, next, after, address + |ReadName(files[0])|, end, files[1..]);
  }

  /** Reading an archive gives its files, in order and with consecutive inode numbers, and nothing else. */
  lemma {:induction false} ReadsFiles(
    listing: Listing, inode: nat, images: seq<string>, addresses: seq<nat>, files: seq<File>)
    requires ListedAlong(listing, inode, images, addresses) && LaidOut(images[0], 0, files) && AllProper(files)
    ensures listing.complete && listing.entries == EntriesFor(files, inode)
  {
    ListsRest(images, addresses, 0, files, listing.entries, inode);
    WholeTail(listing.entries);
  }

  /** In memory nothing changes but names. */
  lemma {:induction false} KeepsData(images: seq<string>, addresses: seq<nat>, files: seq<File>)
    requires Visits(images, addresses) && LaidOut(images[0], 0, files) && AllProper(files)
    ensures Kept(images[0], images[|images| - 1], 0, files)
  {
    KeepsRest(images, addresses, 0, files);
  }

  lemma WholeTail(entries: seq<Entry>)
    ensures entries[0..] == entries
  { }

  // When the walk keeps to the headers.

  /** Where the `k`-th file stands. */
  function StartOf(files: seq<File>, k: nat): nat
    requires k <= |files|
  {
    if k == 0 then 0 else Stride(|files[0].data|) + StartOf(files[1..], k - 1)
  }

  /** From the `j`-th step on, the walk visits the files where they stand, and then ends. */
  ghost predicate Keeps(addresses: seq<nat>, j: nat, files: seq<File>) {
    && |addresses| == j + |files| + 1
    && forall k {:trigger StartOf(files, k)} :: 0 <= k <= |files| ==>
         addresses[j + k] == addresses[j] + StartOf(files, k)
  }

  ghost predicate AllStepRight(files: seq<File>) {
    forall k {:trigger StepsRight(files[k])} :: 0 <= k < |files| ==> StepsRight(files[k])
  }

  ghost predicate AllFit(files: seq<File>) {
    forall k {:trigger Fits(files[k])} :: 0 <= k < |files| ==> Fits(files[k])
  }

  lemma KeepsStep(addresses: seq<nat>, j: nat, files: seq<File>)
    requires files != [] && j + 1 < |addresses|
    ensures Keeps(addresses, j, files) <==>
            addresses[j + 1] == addresses[j] + Stride(|files[0].data|) && Keeps(addresses, j + 1, files[1..])
  {
    var step := Stride(|files[0].data|);
    assert StartOf(files, 1) == step + StartOf(files[1..], 0);
    if Keeps(addresses, j, files) {
      forall k | 0 <= k <= |files[1..]|
        ensures addresses[j + 1 + k] == addresses[j + 1] + StartOf(files[1..], k)
      {
        assert addresses[j + (k + 1)] == addresses[j] + StartOf(files, k + 1);
      }
    }
    if addresses[j + 1] == addresses[j] + step && Keeps(addresses, j + 1, files[1..]) {
      forall k | 0 <= k <= |files|
        ensures addresses[j + k] == addresses[j] + StartOf(files, k)
      {
        if k > 0 {
          assert addresses[j + 1 + (k - 1)] == addresses[j + 1] + StartOf(files[1..], k - 1);
        }
      }
    }
  }

  lemma AllStepRightHead(files: seq<File>)
    requires files != []
    ensures AllStepRight(files) <==> StepsRight(files[0]) && AllStepRight(files[1..])
    ensures AllFit(files) ==> Fits(files[0]) && AllFit(files[1..])
  {
    assert forall k :: 0 < k < |files| ==> files[k] == files[1..][k - 1];
  }

  lemma {:induction false} KeepsFrom(images: seq<string>, addresses: seq<nat>, j: nat, files: seq<File>)
    requires Visits(images, addresses) && j < |images| && LaidOut(images[j], addresses[j], files) && AllFit(files)
    ensures Keeps(addresses, j, files) <==> AllStepRight(files)
    decreases files
  {
    if files == [] {
      VisitEnd(images, addresses, j, files);
    } else {
      AllStepRightHead(files);
      VisitStep(images, addresses, j, files);
      KeepsStep(addresses, j, files);
      if StepsRight(files[0]) {
        NextLaidOut(images[j], images[j + 1], addresses[j], addresses[j + 1], files);
        KeepsFrom(images, addresses, j + 1, files[1..]);
      }
    }
  }

  /** The walk visits exactly the headers of the files, each where it stands, exactly when every size steps right. */
  lemma WalkExact(images: seq<string>, addresses: seq<nat>, files: seq<File>)
    requires Visits(images, addresses) && LaidOut(images[0], 0, files) && AllFit(files)
    ensures Keeps(addresses, 0, files) <==> AllStepRight(files)
  {
    assert addresses[0] == 0;
    KeepsFrom(images, addresses, 0, files);
  }

  /** After an empty file whose size ends in a blank and a zero, the next header is looked for 4 GiB further on. */
  lemma BlankMisleads(images: seq<string>, addresses: seq<nat>, f: File, files: seq<File>)
    requires Visits(images, addresses) && LaidOut(images[0], 0, [f] + files) && Fits(f)
    requires f.size == Digits(0, 11) + " " && f.data == ""
    ensures |addresses| >= 2 && addresses[1] == BLOCK + WORD && !Keeps(addresses, 0, [f] + files)
  {
    assert addresses[0] == 0;
    VisitStep(images, addresses, 0, [f] + files);
    BlankIsFar();
    KeepsStep(addresses, 0, [f] + files);
  }

  lemma BlankIsFar()
    ensures Stride(Octal(Digits(0, 11) + " ")) == BLOCK + WORD
  {
    BlankRead(0, 11);
    DataBlocksIs(WORD - 16);
  }

  // Such archives exist for any files and any headers of them.

  function Zeros(n: nat): string {
    seq(n, _ => NUL)
  }

  lemma {:induction false} DataBlocksCover(size: nat)
    ensures size <= DataBlocks(size) * BLOCK
  {
    if size >= BLOCK {
      DataBlocksCover(size - BLOCK);
    }
  }

  function Padding(size: nat): nat {
    DataBlocksCover(size);
    DataBlocks(size) * BLOCK - size
  }

  /** The header of a file over any bytes for the fields that the reader does not look at. */
  function HeaderBlock(f: File, other: string): (s: string)
    requires |other| == BLOCK
    ensures |s| == BLOCK && Written(s, 0, f)
    ensures forall i :: 0 <= i < BLOCK && !Looked(f, i) ==> s[i] == other[i]
  {
    seq(BLOCK, i requires 0 <= i < BLOCK => if Looked(f, i) then HeaderChar(f, i) else other[i])
  }

  function Block(f: File, other: string): (s: string)
    requires |other| == BLOCK
    ensures |s| == Stride(|f.data|) && HeaderBlock(f, other) <= s
  {
    HeaderBlock(f, other) + f.data + Zeros(Padding(|f.data|))
  }

  /** An archive of the files, with those bytes in the other fields of their headers. */
  function Encode(files: seq<File>, others: seq<string>): string
    requires |others| == |files| && forall k :: 0 <= k < |others| ==> |others[k]| == BLOCK
  {
    if files == [] then "" else Block(files[0], others[0]) + Encode(files[1..], others[1..])
  }

  lemma WrittenBlock(front: string, f: File, other: string, back: string, image: string)
    requires |other| == BLOCK && image == front + Block(f, other) + back
    ensures Written(image, |front|, f)
  {
    var h := HeaderBlock(f, other);
    forall i | 0 <= i < BLOCK && Looked(f, i)
      ensures image[|front| + i] == HeaderChar(f, i)
    {
      assert image[|front| + i] == Block(f, other)[i] == h[0 + i];
    }
  }

  lemma {:induction false} EncodeLaidOut(
    front: string, files: seq<File>, others: seq<string>, end: string, image: string)
    requires |others| == |files| && forall k :: 0 <= k < |others| ==> |others[k]| == BLOCK
    requires image == front + Encode(files, others) + end
    requires |end| >= BLOCK && !IsHeader(end, 0)
    ensures LaidOut(image, |front|, files)
    decreases files
  {
    if files == [] {
      assert image == front + end;
      assert image[|front| + MAGIC..|front| + MAGIC + 5] == end[MAGIC..MAGIC + 5];
    } else {
      var f, rest := files[0], files[1..];
      var block := Block(f, others[0]);
      var back := Encode(rest, others[1..]) + end;
      assert image == front + block + back;
      WrittenBlock(front, f, others[0], back, image);
      assert image == (front + block) + Encode(rest, others[1..]) + end;
      EncodeLaidOut(front + block, rest, others[1..], end, image);
    }
  }
}
