/** The directory listing: its format, the server that builds and pages it, and the client that
 * reads it back block by block. */
module DirListing {

  type Byte = b: nat | b < 256

  const RDTYPE_END: Byte := 0x00
  const RDTYPE_FILE: Byte := 0x01
  const RDTYPE_DIR: Byte := 0x02
  const RDTYPE_SKIP: Byte := 0x2A
  const RDHSIZE := 9
  const UBUF_SPACE := 1024
  const UBUF_MAXSPACE := 4380
  const NBSIZE := UBUF_MAXSPACE + UBUF_SPACE
  const FOURGIGS := 0xffff_ffff
  const DOT: Byte := 46
  const LETTER: Byte := 97

  /** One file or directory of a listing. */
  datatype Entry = Entry(time: nat, size: nat, kind: Byte, name: seq<Byte>)

  predicate ValidEntry(e: Entry) {
    && e.time <= FOURGIGS && e.size <= FOURGIGS
    && (e.kind == RDTYPE_FILE || e.kind == RDTYPE_DIR)
    && 0 !in e.name
  }

  function Write4(v: nat): seq<Byte>
    requires v <= FOURGIGS
    ensures |Write4(v)| == 4
  {
    [v / 0x100_0000, v / 0x1_0000 % 256, v / 256 % 256, v % 256]
  }

  function Read4(s: seq<Byte>): nat
    requires |s| == 4
  {
    (s[0] as int) * 0x100_0000 + (s[1] as int) * 0x1_0000 + (s[2] as int) * 256 + s[3]
  }

  lemma Read4Write4(v: nat)
    requires v <= FOURGIGS
    ensures Read4(Write4(v)) == v
  {
    var a := v / 256;
    var b := a / 256;
    assert b / 256 == v / 0x100_0000 && b == v / 0x1_0000;
    assert v == (b / 256 * 256 + b % 256) * 0x1_0000 + a % 256 * 256 + v % 256;
  }

  /** The bytes of an entry before padding. */
  function Wire(e: Entry): (s: seq<Byte>)
    requires ValidEntry(e)
    ensures |s| == Length(e)
  {
    Write4(e.time) + Write4(e.size) + [e.kind] + e.name + [0]
  }

  /** `s` starts with the unpadded bytes of `e`: big-endian time and size, type, and the name up
    * to its zero. */
  predicate Carries(s: seq<Byte>, e: Entry) {
    && Length(e) <= |s|
    && Read4(s[..4]) == e.time && Read4(s[4..8]) == e.size && s[8] == e.kind
    && s[RDHSIZE..RDHSIZE + |e.name|] == e.name
    && s[RDHSIZE + |e.name|] == 0
  }

  lemma WireCarries(e: Entry)
    requires ValidEntry(e)
    ensures Carries(Wire(e), e)
  {
    var s := Wire(e);
    Read4Write4(e.time);
    Read4Write4(e.size);
    assert s[..4] == Write4(e.time) && s[4..8] == Write4(e.size);
  }

  lemma CarriesMore(s: seq<Byte>, e: Entry, n: nat)
    requires Length(e) <= n <= |s|
    ensures Carries(s[..n], e) <==> Carries(s, e)
  {
    var t := s[..n];
    assert t[..4] == s[..4] && t[4..8] == s[4..8];
    assert t[RDHSIZE..RDHSIZE + |e.name|] == s[RDHSIZE..RDHSIZE + |e.name|];
  }

  function Length(e: Entry): nat {
    RDHSIZE + |e.name| + 1
  }

  function Align4(n: nat): (r: nat)
    ensures n <= r < n + 4 && r % 4 == 0
  {
    if n % 4 == 0 then n else n + 4 - n % 4
  }

  function Padded(e: Entry): nat {
    Align4(Length(e))
  }

  predicate AllFit(es: seq<Entry>, size: nat) {
    forall i :: 0 <= i < |es| ==> ValidEntry(es[i]) && Padded(es[i]) <= size
  }

  /** The next entry, or the END record, does not fit in `room` bytes. */
  predicate Full(room: nat, es: seq<Entry>) {
    room < if es == [] then RDHSIZE else Length(es[0])
  }

  /** `l` lists `es` from a point where the current block has `room` bytes left, in blocks of
    * `size` bytes: an entry that does not fit leaves SKIP bytes and starts the next block, the
    * bytes of padding and of the END record's time and size are arbitrary. */
  ghost predicate Lists(l: seq<Byte>, room: nat, es: seq<Entry>, size: nat)
    requires AllFit(es, size) && RDHSIZE <= size
    decreases |es|, Full(room, es)
  {
    if Full(room, es) then
      && room <= |l|
      && (forall i :: 0 <= i < room ==> l[i] == RDTYPE_SKIP)
      && Lists(l[room..], size, es, size)
    else if es == [] then
      |l| == RDHSIZE && l[RDHSIZE - 1] == RDTYPE_END
    else
      && Padded(es[0]) <= |l|
      && Carries(l, es[0])
      && Padded(es[0]) <= room
      && Lists(l[Padded(es[0])..], room - Padded(es[0]), es[1..], size)
  }

  // ------------------------------------------------------------------------------------------
  // The server: building a listing
  // ------------------------------------------------------------------------------------------

  /** A directory record with what stat says about it. */
  datatype Dirent = Dirent(ino: nat, name: seq<Byte>, statOk: bool, mtime: int, size: nat,
                           isDir: bool, isReg: bool)

  /** Dot files are hidden, except `.` and `..`. */
  predicate Hidden(name: seq<Byte>) {
    |name| >= 2 && name[0] == DOT && !(name[1] == DOT && |name| == 2)
  }

  predicate Shown(d: Dirent) {
    d.ino != 0 && !Hidden(d.name) && d.statOk && (d.isDir || d.isReg)
  }

  /** The entry of a directory record: the time is cut to 32 bits, the size is capped. */
  function ToEntry(d: Dirent): Entry {
    Entry(d.mtime % (FOURGIGS + 1), if d.size > FOURGIGS then FOURGIGS else d.size,
          if d.isDir then RDTYPE_DIR else RDTYPE_FILE, d.name)
  }

  function Entries(dir: seq<Dirent>): seq<Entry> {
    if dir == [] then []
    else (if Shown(dir[0]) then [ToEntry(dir[0])] else []) + Entries(dir[1..])
  }

  /** `prefix` followed by any listing of `rest` is a listing of `es`. */
  ghost predicate Extends(prefix: seq<Byte>, room: nat, rest: seq<Entry>, es: seq<Entry>, size: nat)
    requires AllFit(es, size) && AllFit(rest, size) && RDHSIZE <= size
  {
    forall tail :: Lists(tail, room, rest, size) ==> Lists(prefix + tail, size, es, size)
  }

  lemma EntryFirst(bytes: seq<Byte>, tail: seq<Byte>, room: nat, rest: seq<Entry>, size: nat)
    requires AllFit(rest, size) && RDHSIZE <= size && rest != [] && Padded(rest[0]) <= room
    requires Lists(tail, room - Padded(rest[0]), rest[1..], size)
    requires |bytes| == Padded(rest[0]) && Carries(bytes, rest[0])
    ensures Lists(bytes + tail, room, rest, size)
  {
    var l := bytes + tail;
    assert l[Padded(rest[0])..] == tail;
    CarriesMore(l, rest[0], |bytes|);
    assert l[..|bytes|] == bytes;
  }

  lemma ExtendEntry(prefix: seq<Byte>, room: nat, rest: seq<Entry>, es: seq<Entry>, size: nat,
                    bytes: seq<Byte>)
    requires AllFit(es, size) && AllFit(rest, size) && RDHSIZE <= size
    requires Extends(prefix, room, rest, es, size)
    requires rest != [] && Padded(rest[0]) <= room
    requires |bytes| == Padded(rest[0]) && Carries(bytes, rest[0])
    ensures Extends(prefix + bytes, room - Padded(rest[0]), rest[1..], es, size)
  {
    hide Lists, Carries;
    forall tail | Lists(tail, room - Padded(rest[0]), rest[1..], size)
      ensures Lists(prefix + bytes + tail, size, es, size)
    {
      EntryFirst(bytes, tail, room, rest, size);
      assert prefix + bytes + tail == prefix + (bytes + tail);
    }
  }

  lemma SkipFirst(bytes: seq<Byte>, tail: seq<Byte>, rest: seq<Entry>, size: nat)
    requires AllFit(rest, size) && RDHSIZE <= size && Lists(tail, size, rest, size)
    requires Full(|bytes|, rest)
    requires forall i :: 0 <= i < |bytes| ==> bytes[i] == RDTYPE_SKIP
    ensures Lists(bytes + tail, |bytes|, rest, size)
  {
    assert (bytes + tail)[|bytes|..] == tail;
  }

  lemma ExtendSkip(prefix: seq<Byte>, rest: seq<Entry>, es: seq<Entry>, size: nat, bytes: seq<Byte>)
    requires AllFit(es, size) && AllFit(rest, size) && RDHSIZE <= size
    requires Extends(prefix, |bytes|, rest, es, size)
    requires Full(|bytes|, rest)
    requires forall i :: 0 <= i < |bytes| ==> bytes[i] == RDTYPE_SKIP
    ensures Extends(prefix + bytes, size, rest, es, size)
  {
    hide Lists;
    forall tail | Lists(tail, size, rest, size)
      ensures Lists(prefix + bytes + tail, size, es, size)
    {
      SkipFirst(bytes, tail, rest, size);
      assert prefix + bytes + tail == prefix + (bytes + tail);
    }
  }

  /** Copies bytes into the buffer. */
  method CopyIn(buffer: array<Byte>, at: nat, bytes: seq<Byte>)
    requires at + |bytes| <= buffer.Length
    modifies buffer
    ensures buffer[..] == old(buffer[..at]) + bytes + old(buffer[at + |bytes|..])
  {
    var i := 0;
    while i < |bytes|
      invariant i <= |bytes|
      invariant forall k :: 0 <= k < at ==> buffer[k] == old(buffer[k])
      invariant forall k :: 0 <= k < i ==> buffer[at + k] == bytes[k]
      invariant forall k :: at + i <= k < buffer.Length ==> buffer[k] == old(buffer[k])
    {
      buffer[at + i] := bytes[i];
      i := i + 1;
    }
  }

  method FillSkip(buffer: array<Byte>, at: nat, count: nat)
    requires at + count <= buffer.Length
    modifies buffer
    ensures buffer[..at] == old(buffer[..at])
    ensures forall i :: at <= i < at + count ==> buffer[i] == RDTYPE_SKIP
  {
    var i := 0;
    while i < count
      invariant i <= count
      invariant buffer[..at] == old(buffer[..at])
      invariant forall j :: at <= j < at + i ==> buffer[j] == RDTYPE_SKIP
    {
      buffer[at + i] := RDTYPE_SKIP;
      i := i + 1;
    }
  }

  function BlockSize(packetsize: nat): nat {
    if packetsize > UBUF_SPACE then UBUF_SPACE else packetsize
  }

  /** A block holds more than the END record and is sent in one packet. */
  predicate GoodBlockSize(size: nat) {
    RDHSIZE < size <= UBUF_SPACE
  }

  /** Laid out from a block with `room` bytes left, every entry for which the builder sees room has room
    * for its padding too, so that the unsigned counter of the room never wraps. */
  predicate PadsFit(room: nat, es: seq<Entry>, size: nat)
    decreases |es|
  {
    es == [] ||
    var left := if room < Length(es[0]) then size else room;
    Padded(es[0]) <= left && PadsFit(left - Padded(es[0]), es[1..], size)
  }

  /** In blocks of a multiple of four bytes all entries that fit into a block do so. */
  lemma {:induction false} MultiplesOfFourFit(room: nat, es: seq<Entry>, size: nat)
    requires size % 4 == 0 && room % 4 == 0 && room <= size && AllFit(es, size)
    ensures PadsFit(room, es, size)
    decreases |es|
  {
    if es != [] {
      var left := if room < Length(es[0]) then size else room;
      RoomForPadding(size - left, left, es[0], size);
      MultiplesOfFourFit(left - Padded(es[0]), es[1..], size);
    }
  }

  /** A listing can be written only if the counter does not wrap; `BuildDirListing` shows that it then
    * is. */
  lemma {:induction false} ListingNeedsRoom(l: seq<Byte>, room: nat, es: seq<Entry>, size: nat)
    requires AllFit(es, size) && RDHSIZE <= size && Lists(l, room, es, size)
    ensures PadsFit(room, es, size)
    decreases |es|, Full(room, es)
  {
    hide Carries, ValidEntry, Align4;
    if es != [] {
      if Full(room, es) {
        ListingNeedsRoom(l[room..], size, es, size);
      } else {
        ListingNeedsRoom(l[Padded(es[0])..], room - Padded(es[0]), es[1..], size);
      }
    }
  }

  lemma PaddingFits(used: nat, n: nat, size: nat)
    requires used % 4 == 0 && size % 4 == 0 && used + n <= size
    ensures used + Align4(n) <= size
  {
  }

  lemma RoomForPadding(used: nat, room: nat, e: Entry, size: nat)
    requires used % 4 == 0 && size % 4 == 0 && used + room == size && Length(e) <= room
    ensures Padded(e) <= room
  {
    PaddingFits(used, Length(e), size);
  }

  /** Taking the padded length off the room left after `used` bytes does not go below zero. */
  predicate RoomSuffices(used: nat, e: Entry, size: nat) {
    used % 4 == 0 && used + Length(e) <= size ==> used + Padded(e) <= size
  }

  /** An entry that a directory can give the builder. */
  predicate Listable(e: Entry) {
    ValidEntry(e) && e.name != [] && !Hidden(e.name)
  }

  ghost predicate RoomNeverUnderflows(size: nat) {
    forall used: nat, e :: Listable(e) ==> RoomSuffices(used, e, size)
  }

  /** The builder checks the room for an entry without its padding and then subtracts both; that
    * is sound for all entries exactly when the block size is a multiple of four. */
  lemma PaddingAlwaysFits(size: nat)
    requires 12 <= size
    ensures RoomNeverUnderflows(size) <==> size % 4 == 0
  {
    if size % 4 == 0 {
      forall used: nat, e: Entry | Listable(e)
        ensures RoomSuffices(used, e, size)
      {
        if used % 4 == 0 && used + Length(e) <= size {
          PaddingFits(used, Length(e), size);
        }
      }
    } else {
      var e := Entry(0, 0, RDTYPE_FILE, seq(size - (RDHSIZE + 1), _ => LETTER));
      assert Listable(e) && Length(e) == size;
      assert !RoomSuffices(0, e, size);
    }
  }

  lemma Placed(before: seq<Byte>, e: Entry, after: seq<Byte>)
    requires ValidEntry(e) && Padded(e) <= Length(e) + |after|
    ensures var b := before + Wire(e) + after;
            && |before| + Padded(e) <= |b|
            && b[..|before|] == before
            && Carries(b[|before|..|before| + Padded(e)], e)
  {
    WireCarries(e);
    hide Carries, Wire;
    var b := before + Wire(e) + after;
    var s := b[|before|..|before| + Padded(e)];
    assert s[..Length(e)] == Wire(e);
    CarriesMore(s, e, Length(e));
  }

  /** Writes one entry at `start`; the padding keeps whatever the buffer held. */
  method PutEntry(buffer: array<Byte>, start: nat, room: nat, e: Entry)
      returns (bufpos: nat, rem: nat)
    requires ValidEntry(e) && start % 4 == 0 && start + Padded(e) <= buffer.Length && Padded(e) <= room
    modifies buffer
    ensures bufpos == start + Padded(e) && rem == room - Padded(e)
    ensures bufpos % 4 == 0 && bufpos + rem == start + room
    ensures buffer[..start] == old(buffer[..start])
    ensures Carries(buffer[start..bufpos], e)
  {
    hide Wire, Carries, Align4, ValidEntry;
    ghost var before, after := buffer[..start], buffer[start + Length(e)..];
    CopyIn(buffer, start, Wire(e));
    Placed(before, e, after);
    bufpos, rem := PadFour(start, room, RDHSIZE + |e.name| + 1);
    assert buffer[start..bufpos] == buffer[..][start..bufpos];
  }

  /** Moves past `n` bytes and their padding to a four-byte boundary. */
  method PadFour(start: nat, room: nat, n: nat) returns (bufpos: nat, rem: nat)
    requires start % 4 == 0 && Align4(n) <= room
    ensures bufpos == start + Align4(n) && rem == room - Align4(n) && bufpos % 4 == 0
  {
    bufpos, rem := start + n, room - n;
    var skip := n % 4;
    if skip != 0 {
      skip := 4 - skip;
      bufpos := bufpos + skip;
      rem := rem - skip;
    }
  }

  /** Fills the block up with SKIP bytes and appends it to the listing. */
  method FlushBlock(buffer: array<Byte>, bufpos: nat, listing: seq<Byte>, size: nat,
                    ghost rest: seq<Entry>, ghost es: seq<Entry>) returns (longer: seq<Byte>)
    requires bufpos <= size <= buffer.Length && RDHSIZE <= size
    requires AllFit(es, size) && AllFit(rest, size)
    requires Extends(listing + buffer[..bufpos], size - bufpos, rest, es, size)
    requires Full(size - bufpos, rest)
    modifies buffer
    ensures Extends(longer, size, rest, es, size)
  {
    ghost var before := listing + buffer[..bufpos];
    FillSkip(buffer, bufpos, size - bufpos);
    longer := listing + buffer[..size];
    ExtendSkip(before, rest, es, size, buffer[bufpos..size]);
    assert longer == before + buffer[bufpos..size];
  }

  /** The END record closes the listing in the current block. */
  lemma ExtendEnd(prefix: seq<Byte>, room: nat, es: seq<Entry>, size: nat, bytes: seq<Byte>)
    requires AllFit(es, size) && RDHSIZE <= size
    requires Extends(prefix, room, [], es, size) && RDHSIZE <= room
    requires |bytes| == RDHSIZE && bytes[RDHSIZE - 1] == RDTYPE_END
    ensures Lists(prefix + bytes, size, es, size)
  {
    assert Lists(bytes, room, [], size);
  }

  lemma ExtendsNothing(es: seq<Entry>, size: nat)
    requires AllFit(es, size) && RDHSIZE <= size
    ensures Extends([], size, es, es, size)
  {
    forall tail | Lists(tail, size, es, size)
      ensures Lists([] + tail, size, es, size)
    {
      assert [] + tail == tail;
    }
  }

  /** Adds one entry, in a new block if the current one has no room for it. */
  method AddEntry(buffer: array<Byte>, listing: seq<Byte>, at: nat, room: nat, size: nat,
                  ghost rest: seq<Entry>, ghost es: seq<Entry>, e: Entry)
      returns (longer: seq<Byte>, bufpos: nat, rem: nat)
    requires at + room == size <= buffer.Length && at % 4 == 0 && GoodBlockSize(size)
    requires AllFit(es, size) && AllFit(rest, size) && rest != [] && rest[0] == e && PadsFit(room, rest, size)
    requires Extends(listing + buffer[..at], room, rest, es, size)
    modifies buffer
    ensures bufpos + rem == size && bufpos % 4 == 0 && PadsFit(rem, rest[1..], size)
    ensures Extends(longer + buffer[..bufpos], rem, rest[1..], es, size)
  {
    hide Lists, Carries, Extends;
    longer, bufpos, rem := listing, at, room;
    if rem < Length(e) {
      longer := FlushBlock(buffer, bufpos, listing, size, rest, es);
      rem, bufpos := size, 0;
      assert longer + buffer[..bufpos] == longer;
    }
    assert Padded(e) <= rem && PadsFit(rem - Padded(e), rest[1..], size);
    ghost var before, start, left := longer + buffer[..bufpos], bufpos, rem;
    bufpos, rem := PutEntry(buffer, bufpos, rem, e);
    ExtendEntry(before, left, rest, es, size, buffer[start..bufpos]);
    assert longer + buffer[..bufpos] == before + buffer[start..bufpos];
  }

  /** Adds the END record, in a new block if the current one has no room for it. */
  method AddEnd(buffer: array<Byte>, listing: seq<Byte>, at: nat, room: nat, size: nat,
                ghost es: seq<Entry>) returns (longer: seq<Byte>)
    requires at + room == size <= buffer.Length && GoodBlockSize(size) && AllFit(es, size)
    requires Extends(listing + buffer[..at], room, [], es, size)
    modifies buffer
    ensures Lists(longer, size, es, size)
  {
    hide Lists, Carries, Extends;
    var bufpos, rem := at, room;
    longer := listing;
    if rem < RDHSIZE {
      longer := FlushBlock(buffer, bufpos, listing, size, [], es);
      rem, bufpos := size, 0;
      assert longer + buffer[..bufpos] == longer;
    }
    ghost var before, start := longer + buffer[..bufpos], bufpos;
    buffer[bufpos + RDHSIZE - 1] := RDTYPE_END;
    bufpos := bufpos + RDHSIZE;
    ExtendEnd(before, rem, es, size, buffer[start..bufpos]);
    longer := longer + buffer[..bufpos];
    assert longer == before + buffer[start..bufpos];
  }

  predicate Ascending(s: seq<nat>) {
    forall i, j :: 0 <= i < j < |s| ==> s[i] < s[j]
  }

  /** `from` numbers the records from `at` on that are listed, in the order of the directory. */
  ghost predicate Listed(dir: seq<Dirent>, at: nat, from: seq<nat>, es: seq<Entry>) {
    && |from| == |es| && Ascending(from)
    && (forall k :: 0 <= k < |from| ==>
          at <= from[k] < |dir| && Shown(dir[from[k]]) && es[k] == ToEntry(dir[from[k]]))
    && (forall i :: at <= i < |dir| && Shown(dir[i]) ==> i in from)
  }

  lemma ListedStep(dir: seq<Dirent>, at: nat, from: seq<nat>, es: seq<Entry>)
    requires at < |dir| && Listed(dir, at + 1, from, es)
    ensures if Shown(dir[at]) then Listed(dir, at, [at] + from, [ToEntry(dir[at])] + es)
            else Listed(dir, at, from, es)
  {
    hide Shown, ToEntry;
    if Shown(dir[at]) {
      var all := [at] + from;
      forall i | at <= i < |dir| && Shown(dir[i])
        ensures i in all
      {
        if i == at {
          assert all[0] == i;
        } else {
          assert i in from;
        }
      }
    }
  }

  lemma {:induction false} EntriesAre(dir: seq<Dirent>, at: nat) returns (from: seq<nat>)
    requires at <= |dir|
    ensures Listed(dir, at, from, Entries(dir[at..]))
    decreases |dir| - at
  {
    if at == |dir| {
      from := [];
    } else {
      from := EntriesAre(dir, at + 1);
      assert dir[at..][1..] == dir[at + 1..];
      ListedStep(dir, at, from, Entries(dir[at + 1..]));
      hide Listed, Shown, ToEntry;
      assert Entries(dir[at..]) == (if Shown(dir[at]) then [ToEntry(dir[at])] else []) + Entries(dir[at + 1..]);
      if Shown(dir[at]) {
        from := [at] + from;
      } else {
        assert [] + Entries(dir[at + 1..]) == Entries(dir[at + 1..]);
      }
    }
  }

  /** What is to be listed: files and directories, and of the names with a dot in front only `.` and
    * `..`. */
  predicate Visible(d: Dirent) {
    && d.ino != 0 && d.statOk && (d.isDir || d.isReg)
    && (d.name == [] || d.name[0] != DOT || d.name == [DOT] || d.name == [DOT, DOT])
  }

  /** `from` numbers the records to be listed, in the order of the directory. */
  ghost predicate Chosen(dir: seq<Dirent>, from: seq<nat>) {
    && Ascending(from)
    && (forall k :: 0 <= k < |from| ==> from[k] < |dir|)
    && (forall i :: 0 <= i < |dir| ==> (i in from <==> Visible(dir[i])))
  }

  /** The bytes of a record at `p`: its time and its size, both in four bytes, the high ones first, the
    * size cut off at the top; then its kind, its name and a zero. */
  predicate HoldsRecord(l: seq<Byte>, p: nat, d: Dirent) {
    && p + 10 + |d.name| <= |l|
    && (l[p] as int) * 0x100_0000 + (l[p + 1] as int) * 0x1_0000 + (l[p + 2] as int) * 0x100 + l[p + 3]
       == d.mtime % 0x1_0000_0000
    && (l[p + 4] as int) * 0x100_0000 + (l[p + 5] as int) * 0x1_0000 + (l[p + 6] as int) * 0x100 + l[p + 7]
       == (if d.size < 0xffff_ffff then d.size else 0xffff_ffff)
    && l[p + 8] == (if d.isDir then 2 else 1)
    && l[p + 9..p + 9 + |d.name|] == d.name
    && l[p + 9 + |d.name|] == 0
  }

  /** Where record number `k` goes, which is the END record if it is the one behind all others: at the
    * next multiple of four behind the record before it, or, if the block has no room for it, at the
    * start of the next block, with a filling of 42 in between. */
  predicate InPlace(l: seq<Byte>, dir: seq<Dirent>, from: seq<nat>, at: seq<nat>, k: nat, size: nat)
    requires 0 < size && k <= |from| < |at| && forall j :: 0 <= j < |from| ==> from[j] < |dir|
  {
    var q := if k == 0 then 0 else at[k - 1] + (13 + |dir[from[k - 1]].name|) / 4 * 4;
    var n := if k == |from| then 9 else 10 + |dir[from[k]].name|;
    var left := size - q % size;
    && at[k] == (if n <= left then q else q + left)
    && forall i :: q <= i < at[k] && i < |l| ==> l[i] == 0x2A
  }

  /** A listing, byte by byte: every record to be listed is at its place, and so is the END record. */
  ghost predicate Layout(l: seq<Byte>, dir: seq<Dirent>, from: seq<nat>, at: seq<nat>, size: nat)
    requires 0 < size
  {
    && Chosen(dir, from) && |at| == |from| + 1
    && (forall k :: 0 <= k < |from| ==> HoldsRecord(l, at[k], dir[from[k]]))
    && (forall k :: 0 <= k <= |from| ==> InPlace(l, dir, from, at, k, size))
    && |l| == at[|from|] + 9 && l[|l| - 1] == 0
  }

  lemma ShownIsVisible(d: Dirent)
    ensures Shown(d) <==> Visible(d)
  {
  }

  lemma ListedIsChosen(dir: seq<Dirent>, from: seq<nat>)
    requires Listed(dir, 0, from, Entries(dir))
    ensures Chosen(dir, from)
  {
    hide Shown, Visible, ToEntry;
    forall i | 0 <= i < |dir|
      ensures i in from <==> Visible(dir[i])
    {
      ShownIsVisible(dir[i]);
    }
  }

  lemma CarriesRecord(l: seq<Byte>, p: nat, d: Dirent)
    requires p <= |l| && Carries(l[p..], ToEntry(d))
    ensures HoldsRecord(l, p, d)
  {
    var s := l[p..];
    assert s[..4] == l[p..p + 4] && s[4..8] == l[p + 4..p + 8];
    assert s[RDHSIZE..RDHSIZE + |d.name|] == l[p + 9..p + 9 + |d.name|];
  }

  lemma RecordNumbers(dir: seq<Dirent>, from: seq<nat>, at: seq<nat>, es: seq<Entry>, k: nat)
    requires Listed(dir, 0, from, es) && k <= |from| && |at| == |from| + 1
    ensures forall j :: 0 <= j < |from| ==> from[j] < |dir|
    ensures EndBefore(0, es, at, k) == if k == 0 then 0 else at[k - 1] + (13 + |dir[from[k - 1]].name|) / 4 * 4
    ensures RecordLength(es, k) == if k == |from| then 9 else 10 + |dir[from[k]].name|
  {
    hide Shown;
    if k < |from| {
      assert es[k] == ToEntry(dir[from[k]]);
    }
    if k > 0 {
      assert es[k - 1] == ToEntry(dir[from[k - 1]]);
    }
  }

  lemma FollowsInPlace(l: seq<Byte>, dir: seq<Dirent>, from: seq<nat>, at: seq<nat>, es: seq<Entry>, k: nat,
                       size: nat)
    requires 0 < size && k <= |from| && |at| == |from| + 1 && Listed(dir, 0, from, es)
    requires Follows(l, EndBefore(0, es, at, k), at[k], RecordLength(es, k), size)
    ensures forall j :: 0 <= j < |from| ==> from[j] < |dir|
    ensures InPlace(l, dir, from, at, k, size)
  {
    RecordNumbers(dir, from, at, es, k);
    hide Listed, EndBefore, RecordLength;
  }

  /** Every listing of a directory is laid out so. */
  lemma ListingLayout(l: seq<Byte>, dir: seq<Dirent>, size: nat) returns (from: seq<nat>, at: seq<nat>)
    requires GoodBlockSize(size) && AllFit(Entries(dir), size) && Lists(l, size, Entries(dir), size)
    ensures Listed(dir, 0, from, Entries(dir)) && Layout(l, dir, from, at, size)
  {
    var es := Entries(dir);
    assert dir[0..] == dir && l[0..] == l;
    from := EntriesAre(dir, 0);
    at := LaidOut(l, 0, es, size, size);
    ListedIsChosen(dir, from);
    hide Lists, Carries, Follows, EndBefore, RecordLength, Entries, HoldsRecord, InPlace, Visible, Shown, ToEntry;
    forall k | 0 <= k < |from|
      ensures HoldsRecord(l, at[k], dir[from[k]])
    {
      CarriesRecord(l, at[k], dir[from[k]]);
    }
    forall k | 0 <= k <= |from|
      ensures InPlace(l, dir, from, at, k, size)
    {
      FollowsInPlace(l, dir, from, at, es, k, size);
    }
  }

  method BuildDirListing(dir: seq<Dirent>, packetsize: nat)
      returns (listing: seq<Byte>, ghost from: seq<nat>, ghost at: seq<nat>)
    requires GoodBlockSize(BlockSize(packetsize)) && AllFit(Entries(dir), BlockSize(packetsize))
    requires PadsFit(BlockSize(packetsize), Entries(dir), BlockSize(packetsize))
    ensures Lists(listing, BlockSize(packetsize), Entries(dir), BlockSize(packetsize))
    ensures Listed(dir, 0, from, Entries(dir))
    ensures Layout(listing, dir, from, at, if packetsize > 1024 then 1024 else packetsize)
  {
    hide Lists, Carries, Extends, PadsFit, Listed, Layout;
    var size := BlockSize(packetsize);
    var buffer := new Byte[UBUF_SPACE](_ => 0);
    var bufpos, rem := 0, size;
    listing := [];
    ghost var es := Entries(dir);
    ExtendsNothing(es, size);
    assert listing + buffer[..bufpos] == [];
    var i := 0;
    while i < |dir|
      invariant 0 <= i <= |dir|
      invariant 0 <= bufpos && 0 <= rem && bufpos + rem == size && bufpos % 4 == 0
      invariant AllFit(Entries(dir[i..]), size) && PadsFit(rem, Entries(dir[i..]), size)
      invariant Extends(listing + buffer[..bufpos], rem, Entries(dir[i..]), es, size)
    {
      assert dir[i..][1..] == dir[i + 1..];
      if Shown(dir[i]) {
        var e := ToEntry(dir[i]);
        ghost var rest := Entries(dir[i..]);
        assert rest[0] == e && rest[1..] == Entries(dir[i + 1..]);
        listing, bufpos, rem := AddEntry(buffer, listing, bufpos, rem, size, rest, es, e);
      } else {
        assert [] + Entries(dir[i + 1..]) == Entries(dir[i + 1..]);
      }
      i := i + 1;
    }
    assert dir[i..] == [];
    listing := AddEnd(buffer, listing, bufpos, rem, size, es);
    from, at := ListingLayout(listing, dir, size);
  }

  // ------------------------------------------------------------------------------------------
  // Paging
  // ------------------------------------------------------------------------------------------

  datatype GetDirReply = Block(bytes: seq<Byte>) | BadOffset

  /** The server's answer to a request for the listing at position `pos`. */
  function ServeDir(listing: seq<Byte>, pos: nat, packetsize: nat): (r: GetDirReply)
    requires 0 < packetsize
    ensures var size := if packetsize > 1024 then 1024 else packetsize;
            if pos < |listing| then
              if pos % size == 0 then r == Block(listing[pos..][..Min(size, |listing| - pos)]) else r == BadOffset
            else r == Block([])
  {
    var l2 := BlockSize(packetsize);
    var l1 := if pos >= |listing| then 0
              else if |listing| - pos > l2 then l2 else |listing| - pos;
    if l1 > 0 && pos % l2 != 0 then BadOffset
    else if pos >= |listing| then Block([])
    else Block(listing[pos..pos + l1])
  }

  // ------------------------------------------------------------------------------------------
  // The client: reading a listing
  // ------------------------------------------------------------------------------------------

  function Min(a: nat, b: nat): nat {
    if a < b then a else b
  }

  /** `buf` holds the listing from `start` up to the position to be asked for next. */
  ghost predicate Window(buf: array<Byte>, l: seq<Byte>, start: nat, pos: nat, acc: nat)
    reads buf
  {
    && buf.Length == NBSIZE && acc <= NBSIZE
    && start + acc == pos <= |l|
    && buf[..acc] == l[start..pos]
  }

  /** The position the client asks for is always at the start of a block, until it is the end. */
  predicate Aligned(l: seq<Byte>, pos: nat, size: nat, atEof: bool, dirblocksize: nat)
    requires 0 < size
  {
    && (if dirblocksize == 0 then pos == 0 && !atEof else dirblocksize == Min(size, |l|))
    && (pos == |l| || (!atEof && pos % size == 0))
  }

  lemma NextAligned(pos: nat, size: nat)
    requires 0 < size && pos % size == 0
    ensures (pos + size) % size == 0
  {
    var d := pos / size + 1 - (pos + size) / size;
    assert pos + size == size * (pos / size + 1);
    assert size * d == (pos + size) % size;
    SmallMultiple(size, d);
  }

  lemma SmallMultiple(size: int, d: int)
    requires -size < size * d < size
    ensures d == 0
  {
  }

  /** One reply of the server keeps the position aligned, and shows the end of the listing. */
  lemma ReplyAligned(l: seq<Byte>, pos: nat, packetsize: nat, dirblocksize: nat)
    requires GoodBlockSize(BlockSize(packetsize)) && l != []
    requires Aligned(l, pos, BlockSize(packetsize), false, dirblocksize) && pos <= |l|
    ensures var ub := ServeDir(l, pos, packetsize);
            && ub.Block? && pos + |ub.bytes| <= |l| && ub.bytes == l[pos..pos + |ub.bytes|]
            && |ub.bytes| <= UBUF_SPACE
            && var rlen := |ub.bytes|;
               var d := if dirblocksize == 0 then rlen else dirblocksize;
               var eof := dirblocksize != 0 && rlen < dirblocksize;
               && d != 0 && Aligned(l, pos + rlen, BlockSize(packetsize), eof, d)
               && (eof || pos + rlen > pos)
  {
    var size := BlockSize(packetsize);
    if pos < |l| && pos % size == 0 {
      NextAligned(pos, size);
    }
  }

  lemma EofAtEnd(l: seq<Byte>, pos: nat, size: nat, atEof: bool, dirblocksize: nat)
    requires 0 < size && l != [] && Aligned(l, pos, size, atEof, dirblocksize)
    ensures atEof ==> pos == |l| && dirblocksize != 0
    ensures dirblocksize == 0 ==> pos == 0
  {
  }

  lemma Longer(b: seq<Byte>, l: seq<Byte>, start: nat, pos: nat, acc: nat, n: nat)
    requires start <= pos && pos + n <= |l| && acc + n <= |b|
    requires b[..acc] == l[start..pos] && b[acc..acc + n] == l[pos..pos + n]
    ensures b[..acc + n] == l[start..pos + n]
  {
    assert b[..acc + n] == b[..acc] + b[acc..acc + n];
  }

  /** Puts the next bytes of the listing behind those in the buffer. */
  method Append(buf: array<Byte>, l: seq<Byte>, ghost start: nat, ghost pos: nat, acc: nat, bytes: seq<Byte>)
    requires Window(buf, l, start, pos, acc) && acc + |bytes| <= NBSIZE
    requires pos + |bytes| <= |l| && bytes == l[pos..pos + |bytes|]
    modifies buf
    ensures Window(buf, l, start, pos + |bytes|, acc + |bytes|)
  {
    CopyIn(buf, acc, bytes);
    Longer(buf[..], l, start, pos, acc, |bytes|);
  }

  lemma WindowAtZero(buf: array<Byte>, l: seq<Byte>, start: nat, acc: nat)
    requires Window(buf, l, start, 0, acc)
    ensures acc == 0
  {
  }

  /** Asks for blocks until the buffer is well filled or the listing is used up. */
  method Fetch(buf: array<Byte>, l: seq<Byte>, packetsize: nat, ghost start: nat,
               pos0: nat, acc0: nat, atEof0: bool, dirblocksize0: nat)
      returns (pos: nat, acc: nat, atEof: bool, dirblocksize: nat)
    requires GoodBlockSize(BlockSize(packetsize)) && l != []
    requires Window(buf, l, start, pos0, acc0)
    requires Aligned(l, pos0, BlockSize(packetsize), atEof0, dirblocksize0)
    modifies buf
    ensures Window(buf, l, start, pos, acc)
    ensures Aligned(l, pos, BlockSize(packetsize), atEof, dirblocksize)
    ensures dirblocksize != 0 && (pos == |l| || UBUF_MAXSPACE <= acc)
  {
    ghost var size := BlockSize(packetsize);
    pos, acc, atEof, dirblocksize := pos0, acc0, atEof0, dirblocksize0;
    EofAtEnd(l, pos, size, atEof, dirblocksize);
    if dirblocksize == 0 {
      WindowAtZero(buf, l, start, acc);
    }
    hide Aligned, ServeDir, BlockSize, GoodBlockSize, Window;
    while acc < UBUF_MAXSPACE && !atEof
      invariant Window(buf, l, start, pos, acc) && pos <= |l|
      invariant Aligned(l, pos, size, atEof, dirblocksize)
      invariant atEof ==> pos == |l| && dirblocksize != 0
      invariant dirblocksize == 0 ==> acc == 0
      decreases |l| - pos, !atEof
    {
      var ub := ServeDir(l, pos, packetsize);
      ReplyAligned(l, pos, packetsize, dirblocksize);
      var rlen := |ub.bytes|;
      if dirblocksize == 0 {
        dirblocksize := rlen;
      } else if rlen < dirblocksize {
        atEof := true;
      }
      Append(buf, l, start, pos, acc, ub.bytes);
      acc := acc + rlen;
      pos := pos + rlen;
      EofAtEnd(l, pos, size, atEof, dirblocksize);
    }
  }

  lemma SliceItems(s: seq<Byte>, name: seq<Byte>)
    requires RDHSIZE + |name| < |s| && s[RDHSIZE..RDHSIZE + |name|] == name
    ensures forall i :: 0 <= i < |name| ==> name[i] == s[i + RDHSIZE]
  {
    assert forall i :: 0 <= i < |name| ==> name[i] == s[RDHSIZE..RDHSIZE + |name|][i];
  }

  /** Reads a name up to and past its zero; `rem` goes down by one for every other byte. */
  method ReadName(buf: array<Byte>, from: nat, room: int, ghost expected: seq<Byte>)
      returns (name: seq<Byte>, p2: nat, rem: int)
    requires from + |expected| < buf.Length
    requires forall i :: 0 <= i < |expected| ==> expected[i] == buf[from + i] && expected[i] != 0
    requires buf[from + |expected|] == 0
    ensures name == expected && p2 == from + |expected| + 1 && rem == room - |expected|
  {
    p2, rem, name := from, room, [];
    while buf[p2] != 0
      invariant |name| <= |expected| && name == expected[..|name|]
      invariant p2 == from + |name| && rem == room - |name|
      invariant |name| < |expected| ==> expected[|name|] == buf[p2]
      decreases |expected| - |name|
    {
      name := name + [buf[p2]];
      p2, rem := p2 + 1, rem - 1;
    }
    p2 := p2 + 1;
  }

  method SkipPadding(at: nat, n: nat, room: int) returns (p2: nat, rem: int)
    requires at % 4 == 0
    ensures p2 == at + Align4(n) && p2 % 4 == 0 && rem == room - (Align4(n) - n)
  {
    ghost var end := at + Align4(n);
    assert end % 4 == 0 && end < at + n + 4;
    hide Align4;
    p2, rem := at + n, room;
    while p2 % 4 != 0
      invariant at + n <= p2 <= end && rem == room - (p2 - at - n)
      decreases end - p2
    {
      p2, rem := p2 + 1, rem - 1;
    }
    SameMultiple(p2, end);
  }

  lemma SameMultiple(a: nat, b: nat)
    requires a % 4 == 0 && b % 4 == 0 && a <= b < a + 4
    ensures a == b
  {
  }

  /** Reads the entry at `at`; the padding is skipped whatever it holds. */
  method ReadEntry(buf: array<Byte>, at: nat, room: int, ghost e: Entry)
      returns (read: Entry, p2: nat, rem: int)
    requires ValidEntry(e) && at % 4 == 0 && at + Padded(e) <= buf.Length
    requires Carries(buf[at..], e)
    ensures read == e && p2 == at + Padded(e) && rem == room - Padded(e)
    ensures p2 % 4 == 0
  {
    ghost var s := buf[at..];
    SliceItems(s, e.name);
    assert buf[at..at + 4] == s[..4] && buf[at + 4..at + 8] == s[4..8];
    var time, size, kind := Read4(buf[at..at + 4]), Read4(buf[at + 4..at + 8]), buf[at + 8];
    p2, rem := at + RDHSIZE, room - (RDHSIZE + 1);
    assert forall i :: 0 <= i < |e.name| ==> e.name[i] == s[i + RDHSIZE] == buf[p2 + i];
    hide Carries, Read4, Align4;
    var name;
    name, p2, rem := ReadName(buf, p2, rem, e.name);
    read := Entry(time, size, kind, name);
    p2, rem := SkipPadding(at, p2 - at, rem);
  }

  lemma AtLeastEnd(l: seq<Byte>, room: nat, es: seq<Entry>, size: nat)
    requires AllFit(es, size) && RDHSIZE <= size && Lists(l, room, es, size)
    ensures RDHSIZE <= |l|
    ensures Full(room, es) ==> room + RDHSIZE <= |l|
  {
  }

  /** What the bytes at some point of a block say, seen through the window of that block. */
  lemma BlockHead(t: seq<Byte>, room: nat, rest: seq<Entry>, size: nat)
    requires GoodBlockSize(size) && AllFit(rest, size) && Lists(t, room, rest, size)
    ensures var rem := Min(room, |t|);
            var full := Full(room, rest);
            && (rem < RDHSIZE || t[8] == RDTYPE_SKIP <==> full)
            && (full ==> room < |t| && Lists(t[room..], size, rest, size))
            && (!full && t[8] == RDTYPE_END <==> !full && rest == [])
            && (!full && rest == [] ==> |t| == RDHSIZE)
            && (!full && rest != [] ==>
                  && Padded(rest[0]) <= rem
                  && Carries(t, rest[0])
                  && Lists(t[Padded(rest[0])..], room - Padded(rest[0]), rest[1..], size))
  {
    AtLeastEnd(t, room, rest, size);
  }

  /** What the client finds at one place of a block. */
  datatype Item = Read(e: Entry) | BlockEnd | ListEnd

  /** The client's view of an entry in a block is the listing's. */
  lemma SameEntry(b: seq<Byte>, at: nat, left: nat, t: seq<Byte>, e: Entry)
    requires at + left <= |b| && left <= |t| && b[at..at + left] == t[..left]
    requires Length(e) <= left && Carries(t, e)
    ensures Carries(b[at..], e)
  {
    assert b[at..at + left] == b[at..][..left];
    CarriesMore(t, e, left);
    CarriesMore(b[at..], e, left);
  }

  /** Behind an entry the client and the listing go on alike. */
  lemma SameRest(b: seq<Byte>, at: nat, left: nat, t: seq<Byte>, n: nat)
    requires at + left <= |b| && n <= left <= |t| && b[at..at + left] == t[..left]
    ensures b[at + n..at + left] == t[n..][..left - n]
  {
    assert b[at + n..at + left] == b[at..at + left][n..];
    assert t[..left][n..] == t[n..][..left - n];
  }

  /** Looks at what comes next in the block; `t` is the rest of the listing from here on. */
  method ReadItem(buf: array<Byte>, at: nat, left: nat, ghost t: seq<Byte>, ghost room: nat,
                  ghost rest: seq<Entry>, ghost size: nat)
      returns (item: Item, p2: nat, rem: int)
    requires GoodBlockSize(size) && AllFit(rest, size) && Lists(t, room, rest, size)
    requires left == Min(room, |t|) && at + left <= buf.Length && at % 4 == 0
    requires buf[at..at + left] == t[..left]
    ensures match item
            case Read(e) =>
              && rest != [] && e == rest[0] && p2 == at + Padded(e) && 0 <= rem == left - Padded(e)
              && p2 % 4 == 0 && Padded(e) <= room
              && Lists(t[Padded(e)..], room - Padded(e), rest[1..], size)
              && buf[p2..p2 + rem] == t[Padded(e)..][..rem]
            case BlockEnd => room < |t| && Lists(t[room..], size, rest, size)
            case ListEnd => rest == []
  {
    hide Lists, Carries, ValidEntry, Full, Align4;
    p2, rem := at, left;
    BlockHead(t, room, rest, size);
    assert RDHSIZE <= rem ==> buf[p2 + 8] == buf[at..at + left][8] == t[8];
    if rem < RDHSIZE || buf[p2 + 8] == RDTYPE_SKIP {
      return BlockEnd, p2, rem;
    }
    if buf[p2 + 8] == RDTYPE_END {
      return ListEnd, p2, rem;
    }
    hide GoodBlockSize, Min;
    ghost var e := rest[0];
    SameEntry(buf[..], at, left, t, e);
    assert buf[..][at..] == buf[at..];
    var read;
    read, p2, rem := ReadEntry(buf, p2, rem, e);
    SameRest(buf[..], at, left, t, Padded(e));
    item := Read(read);
  }

  /** Reads the entries of one block.  `ended` says whether the END record was met. */
  method ReadBlock(buf: array<Byte>, len: nat, l: seq<Byte>, ghost start: nat, ghost size: nat,
                   ghost es: seq<Entry>, dp0: seq<Entry>)
      returns (dp: seq<Entry>, ended: bool, ghost rest: seq<Entry>)
    requires GoodBlockSize(size) && AllFit(es, size) && start <= |l|
    requires Lists(l[start..], size, es, size)
    requires len == Min(size, |l| - start) <= buf.Length && buf[..len] == l[start..][..len]
    ensures AllFit(rest, size) && dp + rest == dp0 + es
    ensures ended ==> rest == []
    ensures !ended ==> start + size < |l| && Lists(l[start + size..], size, rest, size)
  {
    hide Lists, Carries;
    dp, rest := dp0, es;
    var p2, rem := 0, len;
    ghost var t := l[start..];
    ghost var room: nat := size;
    var item := BlockEnd;
    while true
      invariant 0 <= p2 && p2 + rem == len && p2 % 4 == 0 && 0 <= rem == Min(room, |t|)
      invariant room + p2 == size && start + p2 <= |l| && t == l[start + p2..]
      invariant AllFit(rest, size) && Lists(t, room, rest, size)
      invariant buf[p2..p2 + rem] == t[..rem]
      invariant dp + rest == dp0 + es
      decreases rem
    {
      ghost var from := p2;
      item, p2, rem := ReadItem(buf, p2, rem, t, room, rest, size);
      match item {
        case Read(e) =>
          NextItem(l, start + from, Padded(e));
          t, room := t[Padded(e)..], room - Padded(e);
          assert dp + rest == dp + [e] + rest[1..];
          dp, rest := dp + [e], rest[1..];
        case BlockEnd =>
          NextItem(l, start + from, room);
          return dp, false, rest;
        case ListEnd =>
          return dp, true, rest;
      }
    }
  }

  lemma NextItem(l: seq<Byte>, at: nat, n: nat)
    requires at + n <= |l|
    ensures l[at..][n..] == l[at + n..]
  {
  }

  lemma SlicePrefix(l: seq<Byte>, from: nat, to: nat, n: nat)
    requires from + n <= to <= |l|
    ensures l[from..to][..n] == l[from..][..n]
  {
  }

  method MoveDown(buf: array<Byte>, from: nat, count: nat)
    requires from + count <= buf.Length
    modifies buf
    ensures buf[..count] == old(buf[from..from + count])
  {
    var i := 0;
    while i < count
      invariant 0 <= i <= count
      invariant buf[..i] == old(buf[from..from + i])
      invariant forall j :: i <= j < buf.Length ==> buf[j] == old(buf[j])
    {
      buf[i] := buf[from + i];
      i := i + 1;
    }
  }

  /** Drops the block just read from the front of the buffer. */
  method DropBlock(buf: array<Byte>, l: seq<Byte>, ghost start: nat, pos: nat, acc: nat, size: nat)
      returns (left: nat)
    requires Window(buf, l, start, pos, acc) && size <= acc
    modifies buf
    ensures Window(buf, l, start + size, pos, left)
  {
    left := acc - size;
    MoveDown(buf, size, left);
    assert buf[..left] == l[start..pos][size..];
  }

  /** One round of the client: fetches, reads one block and drops it. */
  method NextBlock(buf: array<Byte>, l: seq<Byte>, packetsize: nat, ghost start: nat,
                   pos0: nat, acc0: nat, atEof0: bool, dirblocksize0: nat,
                   ghost es: seq<Entry>, dp0: seq<Entry>)
      returns (pos: nat, acc: nat, atEof: bool, dirblocksize: nat,
               dp: seq<Entry>, ended: bool, ghost rest: seq<Entry>)
    requires GoodBlockSize(BlockSize(packetsize)) && AllFit(es, BlockSize(packetsize))
    requires start < |l| && Lists(l[start..], BlockSize(packetsize), es, BlockSize(packetsize))
    requires Window(buf, l, start, pos0, acc0)
    requires Aligned(l, pos0, BlockSize(packetsize), atEof0, dirblocksize0)
    modifies buf
    ensures AllFit(rest, BlockSize(packetsize)) && dp + rest == dp0 + es
    ensures ended ==> rest == []
    ensures !ended ==>
      var size := BlockSize(packetsize);
      && start + size < |l| && Lists(l[start + size..], size, rest, size)
      && Window(buf, l, start + size, pos, acc)
      && Aligned(l, pos, size, atEof, dirblocksize)
  {
    hide Lists, Carries;
    var size := BlockSize(packetsize);
    pos, acc, atEof, dirblocksize := Fetch(buf, l, packetsize, start, pos0, acc0, atEof0, dirblocksize0);
    var len := if acc >= dirblocksize then dirblocksize else acc;
    assert len == Min(size, |l| - start);
    SlicePrefix(l, start, pos, len);
    assert buf[..len] == buf[..acc][..len];
    dp, ended, rest := ReadBlock(buf, len, l, start, size, es, dp0);
    if !ended {
      acc := DropBlock(buf, l, start, pos, acc, dirblocksize);
    }
  }

  /** Reads a whole listing from the server, a block at a time, into a list of entries. */
  method GetDir(l: seq<Byte>, packetsize: nat, ghost es: seq<Entry>) returns (dp: seq<Entry>)
    requires GoodBlockSize(BlockSize(packetsize)) && AllFit(es, BlockSize(packetsize))
    requires Lists(l, BlockSize(packetsize), es, BlockSize(packetsize))
    ensures dp == es
  {
    hide Lists, Carries;
    ghost var size := BlockSize(packetsize);
    var buf := new Byte[NBSIZE](_ => 0);
    var pos, acc, atEof, dirblocksize, ended := 0, 0, false, 0, false;
    dp := [];
    ghost var start, rest := 0, es;
    AtLeastEnd(l, size, es, size);
    assert l[start..] == l;
    assert Window(buf, l, start, pos, acc) && Aligned(l, pos, size, atEof, dirblocksize);
    hide Window, Aligned, AllFit;
    while !ended
      invariant AllFit(rest, size) && dp + rest == es
      invariant ended ==> rest == []
      invariant !ended ==>
        && start < |l| && Lists(l[start..], size, rest, size)
        && Window(buf, l, start, pos, acc)
        && Aligned(l, pos, size, atEof, dirblocksize)
      decreases |l| - start, !ended
    {
      pos, acc, atEof, dirblocksize, dp, ended, rest :=
        NextBlock(buf, l, packetsize, start, pos, acc, atEof, dirblocksize, rest, dp);
      if !ended {
        start := start + size;
      }
    }
  }

  // ------------------------------------------------------------------------------------------
  // Main results
  // ------------------------------------------------------------------------------------------

  /** What the client reads back is what the server found in the directory, whatever the padding
    * bytes were: in its order, the files and directories whose names do not start with a dot, and `.`
    * and `..`, each with its time modulo 2^32, its size up to 2^32 - 1, its kind and its name. */
  method RoundTrip(dir: seq<Dirent>, packetsize: nat) returns (read: seq<Entry>, ghost from: seq<nat>)
    requires GoodBlockSize(BlockSize(packetsize)) && AllFit(Entries(dir), BlockSize(packetsize))
    requires PadsFit(BlockSize(packetsize), Entries(dir), BlockSize(packetsize))
    ensures read == Entries(dir)
    ensures |read| == |from| && forall j, k :: 0 <= j < k < |from| ==> from[j] < from[k]
    ensures forall i :: 0 <= i < |dir| ==>
              (i in from <==>
               && dir[i].ino != 0 && dir[i].statOk && (dir[i].isDir || dir[i].isReg)
               && (dir[i].name in {[46], [46, 46]} || dir[i].name == [] || dir[i].name[0] != 46))
    ensures forall k :: 0 <= k < |from| ==>
              && from[k] < |dir|
              && read[k].time == dir[from[k]].mtime % 0x1_0000_0000
              && read[k].size == (if dir[from[k]].size < 0xffff_ffff then dir[from[k]].size else 0xffff_ffff)
              && read[k].kind == (if dir[from[k]].isDir then 2 else 1)
              && read[k].name == dir[from[k]].name
  {
    var l;
    ghost var at;
    l, from, at := BuildDirListing(dir, packetsize);
    read := GetDir(l, packetsize, Entries(dir));
    assert Chosen(dir, from) by {
      hide HoldsRecord, InPlace, Visible, Shown, ToEntry, Entries;
    }
    hide Layout, Lists, Entries, PadsFit, Shown;
  }

  lemma CarriesUnique(s: seq<Byte>, d: Entry, e: Entry)
    requires ValidEntry(d) && ValidEntry(e) && Carries(s, d) && Carries(s, e)
    ensures d == e
  {
    SliceItems(s, d.name);
    SliceItems(s, e.name);
  }

  lemma SameHead(l: seq<Byte>, room: nat, es: seq<Entry>, fs: seq<Entry>, size: nat)
    requires GoodBlockSize(size) && AllFit(es, size) && AllFit(fs, size)
    requires Lists(l, room, es, size) && Lists(l, room, fs, size)
    ensures Full(room, es) <==> Full(room, fs)
    ensures !Full(size, es)
    ensures Full(room, es) ==>
              room < |l| && Lists(l[room..], size, es, size) && Lists(l[room..], size, fs, size)
    ensures !Full(room, es) ==>
              && (es == [] <==> fs == [])
              && (es != [] ==>
                    && es[0] == fs[0] && 0 < Padded(es[0]) <= |l| && Padded(es[0]) <= room
                    && AllFit(es[1..], size) && AllFit(fs[1..], size)
                    && Lists(l[Padded(es[0])..], room - Padded(es[0]), es[1..], size)
                    && Lists(l[Padded(es[0])..], room - Padded(es[0]), fs[1..], size))
  {
    hide Lists;
    BlockHead(l, room, es, size);
    BlockHead(l, room, fs, size);
    hide *;
    if !Full(room, es) && es != [] {
      CarriesUnique(l, es[0], fs[0]);
    }
  }

  /** The bytes of a listing determine its entries. */
  lemma {:induction false} ListingUnique(l: seq<Byte>, room: nat, es: seq<Entry>, fs: seq<Entry>, size: nat)
    requires GoodBlockSize(size) && AllFit(es, size) && AllFit(fs, size)
    requires Lists(l, room, es, size) && Lists(l, room, fs, size)
    ensures es == fs
    decreases |l|, Full(room, es)
  {
    SameHead(l, room, es, fs, size);
    hide *;
    if Full(room, es) {
      ListingUnique(l[room..], size, es, fs, size);
    } else if es != [] {
      ListingUnique(l[Padded(es[0])..], room - Padded(es[0]), es[1..], fs[1..], size);
      assert es == [es[0]] + es[1..] && fs == [fs[0]] + fs[1..];
    }
  }

  lemma PaddedInFours(e: Entry) returns (k: nat)
    ensures Padded(e) == 4 * k
  {
    k := Padded(e) / 4;
  }

  /** `room` is four times `r`; the length is four times the result, plus one. */
  lemma {:induction false} ListingLength(l: seq<Byte>, room: nat, es: seq<Entry>, size: nat, r: nat, s: nat)
      returns (k: nat)
    requires GoodBlockSize(size) && AllFit(es, size) && Lists(l, room, es, size)
    requires room == 4 * r && size == 4 * s
    ensures |l| == 4 * k + 1
    decreases |l|, Full(room, es)
  {
    BlockHead(l, room, es, size);
    hide Lists, Carries, GoodBlockSize;
    if Full(room, es) {
      k := ListingLength(l[room..], size, es, size, s, s);
      k := k + r;
    } else if es != [] {
      var p := PaddedInFours(es[0]);
      hide Align4;
      k := ListingLength(l[Padded(es[0])..], room - Padded(es[0]), es[1..], size, r - p, s);
      k := k + p;
    } else {
      k := 2;
    }
  }

  /** Every block but the last is full and the last one is strictly short, so the client's test
    * for a short reply finds the end of every listing. */
  lemma LastBlockShort(l: seq<Byte>, es: seq<Entry>, size: nat)
    requires GoodBlockSize(size) && size % 4 == 0 && AllFit(es, size) && Lists(l, size, es, size)
    ensures |l| % size != 0
  {
    var k := ListingLength(l, size, es, size, size / 4, size / 4);
    OddMultiple(|l|, k, size, size / 4);
  }

  lemma OddMultiple(n: nat, k: nat, size: nat, s: nat)
    requires size == 4 * s && 0 < s && n == 4 * k + 1
    ensures n % size != 0
  {
    var q := n / size;
    assert n == size * q + n % size;
    assert size * q == 4 * (s * q);
    assert n % size == 4 * (k - s * q) + 1;
  }

  /** Where an entry goes: the block and the offset in it. */
  datatype Place = Place(block: nat, offset: nat)

  function Places(es: seq<Entry>, block: nat, room: nat, size: nat): seq<Place>
    requires room <= size && AllFit(es, size)
    decreases |es|, if es != [] && room < Length(es[0]) then 1 else 0
  {
    if es == [] then []
    else if room < Length(es[0]) then Places(es, block + 1, size, size)
    else if Padded(es[0]) <= room then
      [Place(block, size - room)] + Places(es[1..], block, room - Padded(es[0]), size)
    else []
  }

  function BlockStart(block: nat, size: nat): nat {
    block * size
  }

  lemma NextStart(block: nat, size: nat)
    ensures BlockStart(block + 1, size) == BlockStart(block, size) + size
  {
  }

  /** From its place on the listing carries the entry, and its padding ends inside the block. */
  predicate Whole(l: seq<Byte>, p: Place, e: Entry, size: nat) {
    && p.offset + Padded(e) <= size
    && BlockStart(p.block, size) + p.offset + Padded(e) <= |l|
    && Carries(l[BlockStart(p.block, size) + p.offset..], e)
  }

  predicate AllWhole(l: seq<Byte>, ps: seq<Place>, es: seq<Entry>, size: nat) {
    && |ps| == |es|
    && (es == [] || (Whole(l, ps[0], es[0], size) && AllWhole(l, ps[1..], es[1..], size)))
  }

  /** One entry that fits, and the rest of the listing after it. */
  lemma WholeStep(l: seq<Byte>, at: nat, es: seq<Entry>, block: nat, room: nat, size: nat)
    requires AllFit(es, size) && room <= size && es != [] && Length(es[0]) <= room && Padded(es[0]) <= room
    requires at + Padded(es[0]) <= |l| && at == BlockStart(block, size) + (size - room) && Carries(l[at..], es[0])
    requires AllWhole(l, Places(es[1..], block, room - Padded(es[0]), size), es[1..], size)
    ensures AllWhole(l, Places(es, block, room, size), es, size)
  {
    hide BlockStart, Carries, Align4, ValidEntry;
    var p, ps := Place(block, size - room), Places(es[1..], block, room - Padded(es[0]), size);
    assert Places(es, block, room, size) == [p] + ps;
    assert Whole(l, p, es[0], size);
    assert ([p] + ps)[1..] == ps;
  }

  /** Every entry is found whole inside one block. */
  lemma {:induction false} NoEntryStraddles(l: seq<Byte>, at: nat, es: seq<Entry>, block: nat, room: nat,
                                            size: nat)
    requires GoodBlockSize(size) && AllFit(es, size) && room <= size
    requires at <= |l| && at == BlockStart(block, size) + (size - room) && Lists(l[at..], room, es, size)
    ensures AllWhole(l, Places(es, block, room, size), es, size)
    decreases |es|, if es != [] && room < Length(es[0]) then 1 else 0
  {
    hide *;
    if es == [] {
      NoPlaces(l, block, room, size);
    } else if room < Length(es[0]) {
      SkipsOn(l, at, es, room, size);
      NextStart(block, size);
      PlacesSkip(es, block, room, size);
      NoEntryStraddles(l, at + room, es, block + 1, size, size);
    } else {
      ReadsOn(l, at, es, room, size);
      NoEntryStraddles(l, at + Padded(es[0]), es[1..], block, room - Padded(es[0]), size);
      WholeStep(l, at, es, block, room, size);
    }
  }

  lemma NoPlaces(l: seq<Byte>, block: nat, room: nat, size: nat)
    requires room <= size
    ensures AllFit([], size) && AllWhole(l, Places([], block, room, size), [], size)
  {
  }

  lemma PlacesSkip(es: seq<Entry>, block: nat, room: nat, size: nat)
    requires room <= size && AllFit(es, size) && es != [] && room < Length(es[0])
    ensures Places(es, block, room, size) == Places(es, block + 1, size, size)
  {
    hide Align4, ValidEntry;
  }

  lemma SkipsOn(l: seq<Byte>, at: nat, es: seq<Entry>, room: nat, size: nat)
    requires GoodBlockSize(size) && AllFit(es, size) && at <= |l| && Lists(l[at..], room, es, size)
    requires es != [] && room < Length(es[0])
    ensures at + room <= |l| && Lists(l[at + room..], size, es, size)
    ensures Length(es[0]) <= size
  {
    hide Lists, Carries, Align4, ValidEntry;
    BlockHead(l[at..], room, es, size);
    NextItem(l, at, room);
  }

  lemma ReadsOn(l: seq<Byte>, at: nat, es: seq<Entry>, room: nat, size: nat)
    requires GoodBlockSize(size) && AllFit(es, size) && at <= |l| && Lists(l[at..], room, es, size)
    requires es != [] && Length(es[0]) <= room
    ensures Padded(es[0]) <= room && at + Padded(es[0]) <= |l| && Carries(l[at..], es[0])
    ensures AllFit(es[1..], size) && Lists(l[at + Padded(es[0])..], room - Padded(es[0]), es[1..], size)
  {
    hide Lists, Carries, Align4, ValidEntry;
    BlockHead(l[at..], room, es, size);
    NextItem(l, at, Padded(es[0]));
  }

  // ------------------------------------------------------------------------------------------
  // Where everything is
  // ------------------------------------------------------------------------------------------

  function InBlock(at: nat, size: nat): (r: nat)
    requires 0 < size
    ensures r < size
  {
    at % size
  }

  predicate Skips(l: seq<Byte>, from: nat, to: nat) {
    forall i :: from <= i < to && i < |l| ==> l[i] == RDTYPE_SKIP
  }

  /** A record of `n` bytes goes to `p` when what comes before it ends at `q`: there, if it fits into
    * the block, and else to the start of the next one, with SKIP bytes in between. */
  predicate Follows(l: seq<Byte>, q: nat, p: nat, n: nat, size: nat)
    requires 0 < size
  {
    && p == (if n <= size - InBlock(q, size) then q else q + (size - InBlock(q, size)))
    && Skips(l, q, p)
  }

  /** Where the record before number `k` ends, and how long record `k` is without padding; the one
    * behind all entries is the END record. */
  function EndBefore(at: nat, es: seq<Entry>, ps: seq<nat>, k: nat): nat
    requires k <= |es| < |ps|
  {
    if k == 0 then at else ps[k - 1] + Padded(es[k - 1])
  }

  function RecordLength(es: seq<Entry>, k: nat): nat
    requires k <= |es|
  {
    if k == |es| then RDHSIZE else Length(es[k])
  }

  /** From `at` on the listing holds the entries, each at its place in `ps`, and the END record. */
  ghost predicate LaidAt(l: seq<Byte>, at: nat, es: seq<Entry>, ps: seq<nat>, size: nat)
    requires 0 < size
  {
    && |ps| == |es| + 1
    && (forall k :: 0 <= k < |es| ==> ps[k] <= |l| && Carries(l[ps[k]..], es[k]))
    && |l| == ps[|es|] + RDHSIZE && l[|l| - 1] == RDTYPE_END
    && (forall k {:trigger RecordLength(es, k)} :: 0 <= k <= |es| ==>
          Follows(l, EndBefore(at, es, ps, k), ps[k], RecordLength(es, k), size))
  }

  lemma LaidEnd(l: seq<Byte>, at: nat, size: nat)
    requires 0 < size && |l| == at + RDHSIZE && l[|l| - 1] == RDTYPE_END
    requires RDHSIZE <= size - InBlock(at, size)
    ensures LaidAt(l, at, [], [at], size)
  {
  }

  lemma EndsAlike(at: nat, es: seq<Entry>, ps: seq<nat>, k: nat)
    requires es != [] && 0 < k <= |es| == |ps|
    ensures RecordLength(es, k) == RecordLength(es[1..], k - 1)
    ensures EndBefore(at, es, [at] + ps, k) == EndBefore(at + Padded(es[0]), es[1..], ps, k - 1)
  {
    hide Padded, Length;
  }

  lemma LaidEntry(l: seq<Byte>, at: nat, es: seq<Entry>, ps: seq<nat>, size: nat)
    requires 0 < size && es != [] && at <= |l| && Carries(l[at..], es[0])
    requires Length(es[0]) <= size - InBlock(at, size) && LaidAt(l, at + Padded(es[0]), es[1..], ps, size)
    ensures LaidAt(l, at, es, [at] + ps, size)
  {
    hide Carries, Length, Padded, EndBefore;
    var all := [at] + ps;
    FollowsHere(l, at, es, all, size);
    hide Follows, RecordLength;
    forall k | 0 <= k <= |es|
      ensures Follows(l, EndBefore(at, es, all, k), all[k], RecordLength(es, k), size)
    {
      if k > 0 {
        EndsAlike(at, es, ps, k);
      }
    }
    forall k | 0 <= k < |es|
      ensures all[k] <= |l| && Carries(l[all[k]..], es[k])
    {
      if k > 0 {
        assert es[k] == es[1..][k - 1];
      }
    }
  }

  lemma FollowsHere(l: seq<Byte>, at: nat, es: seq<Entry>, all: seq<nat>, size: nat)
    requires 0 < size && es != [] && |es| < |all| && all[0] == at && Length(es[0]) <= size - InBlock(at, size)
    ensures Follows(l, EndBefore(at, es, all, 0), all[0], RecordLength(es, 0), size)
  {
  }

  /** What is laid out from the next block on is laid out from the SKIP bytes before it on. */
  lemma LaidSkip(l: seq<Byte>, at: nat, room: nat, es: seq<Entry>, ps: seq<nat>, size: nat)
    requires 0 < size && room == size - InBlock(at, size) && InBlock(at + room, size) == 0
    requires room < RecordLength(es, 0) <= size && LaidAt(l, at + room, es, ps, size)
    requires Skips(l, at, at + room)
    ensures LaidAt(l, at, es, ps, size)
  {
    hide Carries, Length, Padded;
    assert Follows(l, EndBefore(at + room, es, ps, 0), ps[0], RecordLength(es, 0), size);
    assert Follows(l, EndBefore(at, es, ps, 0), ps[0], RecordLength(es, 0), size);
    forall k | 0 <= k <= |es|
      ensures Follows(l, EndBefore(at, es, ps, k), ps[k], RecordLength(es, k), size)
    {
      if k > 0 {
        assert EndBefore(at + room, es, ps, k) == EndBefore(at, es, ps, k);
      }
    }
  }

  /** At `at` a block has `room` bytes left. */
  predicate RoomLeft(at: nat, room: nat, size: nat)
    requires 0 < size
  {
    room <= size && InBlock(at, size) == if room == 0 then 0 else size - room
  }

  lemma LessRoom(at: nat, room: nat, n: nat, size: nat)
    requires 0 < size && RoomLeft(at, room, size) && 0 < n <= room
    ensures RoomLeft(at + n, room - n, size) && InBlock(at, size) == size - room
  {
    NextInBlock(at, n, size);
  }

  /** Moving on by `n` bytes inside a block, or to its end. */
  lemma NextInBlock(at: nat, n: nat, size: nat)
    requires 0 < size && InBlock(at, size) + n <= size
    ensures InBlock(at + n, size) == if InBlock(at, size) + n == size then 0 else InBlock(at, size) + n
  {
    var q := InParts(at, size);
    var r := InBlock(at, size) + n;
    hide InBlock;
    if r < size {
      ModOf(q, r, size);
    } else {
      OneMoreBlock(q, size);
      ModOf(q + 1, 0, size);
    }
  }

  lemma InParts(at: nat, size: nat) returns (q: nat)
    requires 0 < size
    ensures at == size * q + InBlock(at, size)
  {
    q := at / size;
  }

  lemma OneMoreBlock(q: nat, size: nat)
    ensures size * (q + 1) == size * q + size
  {
  }

  lemma NewRoom(at: nat, room: nat, size: nat)
    requires 0 < size && RoomLeft(at, room, size)
    ensures RoomLeft(at + room, size, size)
    ensures InBlock(at + room, size) == 0 && (0 < room ==> room == size - InBlock(at, size))
  {
    if room > 0 {
      LessRoom(at, room, room, size);
    }
  }

  lemma ModOf(q: nat, r: nat, size: nat)
    requires r < size
    ensures InBlock(size * q + r, size) == r
  {
    var n := size * q + r;
    var d := q - n / size;
    assert n == size * (n / size) + n % size;
    assert size * d == size * q - size * (n / size);
    assert size * d == n % size - r;
    SmallMultiple(size, d);
  }

  lemma {:induction false} LaidOut(l: seq<Byte>, at: nat, es: seq<Entry>, room: nat, size: nat)
      returns (ps: seq<nat>)
    requires GoodBlockSize(size) && AllFit(es, size) && RoomLeft(at, room, size)
    requires at <= |l| && Lists(l[at..], room, es, size)
    ensures LaidAt(l, at, es, ps, size)
    decreases |es|, Full(room, es)
  {
    hide *;
    if Full(room, es) {
      SkipBytes(l, at, room, es, size);
      NewRoom(at, room, size);
      ps := LaidOut(l, at + room, es, size, size);
      if room > 0 {
        LaidSkip(l, at, room, es, ps, size);
      }
    } else if es == [] {
      ps := [at];
      EndHere(l, at, room, size);
      LaidEnd(l, at, size);
    } else {
      EntryHere(l, at, room, es, size);
      LessRoom(at, room, Padded(es[0]), size);
      ps := LaidOut(l, at + Padded(es[0]), es[1..], room - Padded(es[0]), size);
      LaidEntry(l, at, es, ps, size);
      ps := [at] + ps;
    }
  }

  lemma EndHere(l: seq<Byte>, at: nat, room: nat, size: nat)
    requires GoodBlockSize(size) && AllFit([], size) && at <= |l| && Lists(l[at..], room, [], size)
    requires !Full(room, []) && RoomLeft(at, room, size)
    ensures RDHSIZE <= size - InBlock(at, size) && |l| == at + RDHSIZE && l[|l| - 1] == RDTYPE_END
  {
  }

  lemma EntryHere(l: seq<Byte>, at: nat, room: nat, es: seq<Entry>, size: nat)
    requires GoodBlockSize(size) && AllFit(es, size) && at <= |l| && Lists(l[at..], room, es, size)
    requires es != [] && !Full(room, es)
    ensures 0 < size && Length(es[0]) <= room && 0 < Padded(es[0]) <= room && at + Padded(es[0]) <= |l|
    ensures Carries(l[at..], es[0])
    ensures AllFit(es[1..], size) && Lists(l[at + Padded(es[0])..], room - Padded(es[0]), es[1..], size)
  {
    ReadsOn(l, at, es, room, size);
    hide Lists, Carries, ValidEntry;
  }

  lemma SkipBytes(l: seq<Byte>, at: nat, room: nat, es: seq<Entry>, size: nat)
    requires GoodBlockSize(size) && AllFit(es, size) && at <= |l| && Lists(l[at..], room, es, size)
    requires Full(room, es)
    ensures at + room <= |l| && Lists(l[at + room..], size, es, size)
    ensures Skips(l, at, at + room)
    ensures 0 < size && room < RecordLength(es, 0) <= size && !Full(size, es)
  {
    var t := l[at..];
    assert forall i :: at <= i < at + room ==> l[i] == t[i - at];
    NextItem(l, at, room);
    BlockHead(t, room, es, size);
    hide Lists, Carries;
  }
}
