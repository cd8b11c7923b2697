/** Uploading a file in chunks: the server's temporary file and its cached handle, and the
  * client's loop. */
module Upload {
  import opened Options

  datatype Reply = Stored | CannotOpen | Hole | NonContinuous | WriteFailed

  /** The temporary file of one client, and the handle on it if that is in the cache. */
  datatype Temp<T> = Temp(file: Option<seq<T>>, cached: bool, fpos: nat)

  /** A cached handle stands somewhere in the file, or at its end. */
  predicate Valid<T>(t: Temp<T>) {
    t.cached ==> t.file.Some? && t.fpos <= |t.file.value|
  }

  /** A cached handle stands at the end of the file. */
  predicate AtEnd<T>(t: Temp<T>) {
    t.cached ==> t.file.Some? && t.fpos == |t.file.value|
  }

  /** Writes at `pos`, over what is there. */
  function Write<T>(file: seq<T>, pos: nat, data: seq<T>): seq<T>
    requires pos <= |file|
  {
    file[..pos] + data + if pos + |data| <= |file| then file[pos + |data|..] else []
  }

  /** The end of server_up_load; the disk takes at most `room` bytes.  After a failure the handle
    * is dropped only if it was found in the cache: one that was just opened stays there. */
  function WriteTail<T>(file: seq<T>, pos: nat, data: seq<T>, room: nat, found: bool): (Temp<T>, Reply)
    requires pos <= |file|
  {
    if |data| <= room then (Temp(Some(Write(file, pos, data)), true, pos + |data|), Stored)
    else
      var f := Write(file, pos, data[..room]);
      (if found then Temp(Some(f), false, 0) else Temp(Some(f), true, pos + room), WriteFailed)
  }

  function Deleted<T>(): Temp<T> {
    Temp(None, false, 0)
  }

  /** What a chunk does to the temporary file, and the reply. */
  function UpLoad<T>(t: Temp<T>, data: seq<T>, pos: nat, room: nat): (Temp<T>, Reply)
    requires Valid(t)
    decreases t.cached
  {
    if !t.cached then
      if pos != 0 && t.file.None? then (t, CannotOpen)
      else
        var file := if pos == 0 then [] else t.file.value;
        if pos > |file| then (Deleted(), Hole)
        else if pos + |data| < |file| then (Deleted(), NonContinuous)
        else WriteTail(file, pos, data, room, false)
    else if pos > t.fpos then (Deleted(), Hole)
    else if pos + |data| < t.fpos then
      if pos == 0 then UpLoad(Deleted(), data, pos, room) else (Deleted(), NonContinuous)
    else WriteTail(t.file.value, pos, data, room, true)
  }

  class Server<T> {
    var file: Option<seq<T>>
    var cached: bool
    var fpos: nat

    function State(): Temp<T>
      reads this
    {
      Temp(file, cached, fpos)
    }

    constructor (file: Option<seq<T>>)
      ensures State() == Temp(file, false, 0)
    {
      this.file, this.cached, this.fpos := file, false, 0;
    }

    /** The handle leaves the cache and is closed. */
    method Evict()
      modifies this
      ensures State() == Temp(old(file), false, 0)
    {
      cached, fpos := false, 0;
    }

    method Unlink()
      modifies this`file
      ensures file == None
    {
      file := None;
    }

    /** One chunk.  It is written over `base`, which is nothing if the file is started anew; a refused
      * one leaves no file behind, unless it could not be opened. */
    method ServerUpLoad(data: seq<T>, pos: nat, room: nat) returns (reply: Reply)
      requires Valid(State())
      modifies this
      ensures (State(), reply) == UpLoad(old(State()), data, pos, room)
      ensures reply == CannotOpen <==> pos != 0 && !old(cached) && old(file).None?
      ensures reply == CannotOpen ==> file == old(file) && cached == old(cached) && fpos == old(fpos)
      ensures reply == Hole <==>
                if old(cached) then pos > old(fpos) else pos != 0 && old(file).Some? && pos > |old(file).value|
      ensures reply == NonContinuous <==>
                pos != 0 && if old(cached) then pos + |data| < old(fpos)
                            else old(file).Some? && pos + |data| < |old(file).value|
      ensures reply == Hole || reply == NonContinuous ==> file == None && !cached
      ensures reply == Stored || reply == WriteFailed ==>
                var anew := pos == 0 && (!old(cached) || |data| < old(fpos));
                var base := if anew || old(file).None? then [] else old(file).value;
                var put := if |data| <= room then data else data[..room];
                && (reply == Stored <==> |data| <= room)
                && pos <= |base|
                && file == Some(base[..pos] + put
                                + if pos + |put| <= |base| then base[pos + |put|..] else [])
                && (cached ==> fpos == pos + |put|)
                && (cached <==> reply == Stored || !old(cached) || anew)
      decreases cached
    {
      var found := cached;
      if !cached {
        if pos != 0 {
          if file.None? {
            return CannotOpen;
          }
        } else {
          Unlink();
          file := Some([]);
        }
        var size := |file.value|;
        if pos > size {
          Evict();
          Unlink();
          return Hole;
        }
        if pos + |data| < size {
          Evict();
          Unlink();
          return NonContinuous;
        }
        fpos := pos;
        cached := true;
      }
      if pos > fpos {
        Evict();
        Unlink();
        return Hole;
      }
      if pos + |data| < fpos {
        Evict();
        Unlink();
        if pos == 0 {
          reply := ServerUpLoad(data, pos, room);
          return;
        }
        return NonContinuous;
      }
      if pos != fpos {
        fpos := pos;
      }
      if |data| > room {
        file := Some(Write(file.value, pos, data[..room]));
        fpos := pos + room;
        if found {
          Evict();
        }
        return WriteFailed;
      }
      file := Some(Write(file.value, pos, data));
      fpos := pos + |data|;
      return Stored;
    }
  }

  // ------------------------------------------------------------------------------------------
  // What one chunk does
  // ------------------------------------------------------------------------------------------

  /** What a chunk at `pos` is written over; position zero starts a file if there is none. */
  function Existing<T>(t: Temp<T>): seq<T> {
    if t.file.Some? then t.file.value else []
  }

  /** The length the server believes the file has when a chunk at `pos` arrives. */
  function Believed<T>(t: Temp<T>, pos: nat): nat {
    if t.cached then t.fpos else if pos == 0 then 0 else |Existing(t)|
  }

  /** With room on the disk a chunk is stored exactly when it starts the file anew, or neither
    * leaves a gap after the believed end nor ends before it. */
  lemma StoredWhen<T>(t: Temp<T>, data: seq<T>, pos: nat, room: nat)
    requires Valid(t) && |data| <= room
    ensures UpLoad(t, data, pos, room).1 == Stored
       <==> pos == 0 || (t.file.Some? && pos <= Believed(t, pos) <= pos + |data|)
  {
  }

  /** A stored chunk makes the file what came before the chunk, followed by the chunk, exactly
    * when the handle it went through does not hide bytes behind the chunk's end. */
  lemma StoredIsFaithful<T>(t: Temp<T>, data: seq<T>, pos: nat, room: nat)
    requires Valid(t) && UpLoad(t, data, pos, room).1 == Stored
    ensures pos <= |Existing(t)|
    ensures UpLoad(t, data, pos, room).0.file == Some(Existing(t)[..pos] + data)
       <==> (t.cached && t.fpos <= pos + |data| ==> |Existing(t)| <= pos + |data|)
  {
    var hidden := t.cached && t.fpos <= pos + |data| && |Existing(t)| > pos + |data|;
    var f := UpLoad(t, data, pos, room).0.file.value;
    if hidden {
      assert |f| == |Existing(t)| > |Existing(t)[..pos] + data|;
    } else {
      assert f == Existing(t)[..pos] + data;
    }
  }

  /** What a sequence of chunks, each with its position, does to the temporary file, and the replies. */
  function UpLoads<T>(t: Temp<T>, chunks: seq<(seq<T>, nat)>, room: nat): (Temp<T>, seq<Reply>)
    requires Valid(t)
    decreases |chunks|
  {
    if chunks == [] then (t, [])
    else
      var (t', reply) := UpLoad(t, chunks[0].0, chunks[0].1, room);
      StoredKeepsValid(t, chunks[0].0, chunks[0].1, room);
      var (t'', replies) := UpLoads(t', chunks[1..], room);
      (t'', [reply] + replies)
  }

  /** Once a chunk was refused for a gap or for its end, all that follow are refused and nothing is
    * stored, until the upload starts again at position zero, which does store its chunk. */
  lemma RefusedUntilRestart<T>(t: Temp<T>, data: seq<T>, pos: nat, room: nat, chunks: seq<(seq<T>, nat)>,
                               first: seq<T>)
    requires Valid(t) && UpLoad(t, data, pos, room).1 in {Hole, NonContinuous}
    requires (forall i :: 0 <= i < |chunks| ==> chunks[i].1 != 0) && |first| <= room
    ensures Valid(UpLoad(t, data, pos, room).0)
    ensures var (t', replies) := UpLoads(UpLoad(t, data, pos, room).0, chunks, room);
            && |replies| == |chunks| && (forall i :: 0 <= i < |chunks| ==> replies[i] == CannotOpen)
            && t'.file == None && !t'.cached
            && UpLoad(t', first, 0, room) == (Temp(Some(first), true, |first|), Stored)
  {
    RefusedWithoutFile<T>(chunks, room);
    assert [][..0] + first + [] == first;
  }

  lemma {:induction false} RefusedWithoutFile<T>(chunks: seq<(seq<T>, nat)>, room: nat)
    requires forall i :: 0 <= i < |chunks| ==> chunks[i].1 != 0
    ensures var (t, replies) := UpLoads(Deleted<T>(), chunks, room);
            t == Deleted<T>() && |replies| == |chunks| && forall i :: 0 <= i < |chunks| ==> replies[i] == CannotOpen
  {
    if chunks != [] {
      RefusedWithoutFile<T>(chunks[1..], room);
    }
  }

  /** Such a handle exists: a rewrite that fails on a just opened file leaves one in the cache, and
    * the next chunk is then stored in front of bytes of the old file. */
  lemma FailedRewriteHidesBytes()
    ensures var t := Temp(Some([1, 2, 3, 4, 5, 6]), false, 0);
            var (t1, r1) := UpLoad(t, [7, 7, 7, 7, 7], 1, 1);
            var (t2, r2) := UpLoad(t1, [8], 2, 1);
            r1 == WriteFailed && r2 == Stored && t2.file == Some([1, 7, 8, 4, 5, 6])
  {
    var t := Temp(Some([1, 2, 3, 4, 5, 6]), false, 0);
    var t1 := UpLoad(t, [7, 7, 7, 7, 7], 1, 1).0;
    assert [7, 7, 7, 7, 7][..1] == [7];
    assert Write([1, 2, 3, 4, 5, 6], 1, [7]) == [1, 7, 3, 4, 5, 6];
    assert t1 == Temp(Some([1, 7, 3, 4, 5, 6]), true, 2);
    assert Write([1, 7, 3, 4, 5, 6], 2, [8]) == [1, 7, 8, 4, 5, 6];
  }

  /** The handle is at the end of the file after every chunk but one that fails to be written
    * through a handle just opened. */
  lemma AtEndStep<T>(t: Temp<T>, data: seq<T>, pos: nat, room: nat)
    requires Valid(t) && AtEnd(t)
    ensures var (t', reply) := UpLoad(t, data, pos, room);
            Valid(t') && ((reply == WriteFailed && !t.cached) || AtEnd(t'))
  {
    if t.cached && pos + |data| < t.fpos && pos == 0 {
      assert UpLoad(t, data, pos, room) == UpLoad(Deleted(), data, pos, room);
    }
  }

  // ------------------------------------------------------------------------------------------
  // The client's loop
  // ------------------------------------------------------------------------------------------

  const FOURGIGS := 0xffff_ffff

  datatype Request<T> = Chunk(pos: nat, data: seq<T>) | Install

  /** The bytes of `src` that one read of `bufLen` bytes at `pos` returns. */
  function ReadAt<T>(src: seq<T>, pos: nat, bufLen: nat): (data: seq<T>)
    requires pos <= |src|
    ensures pos + |data| <= |src| && data == src[pos..pos + |data|] && |data| <= bufLen
    ensures 0 < bufLen ==> (data == [] <==> pos == |src|)
  {
    if |src| - pos < bufLen then src[pos..] else src[pos..pos + bufLen]
  }

  /** The requests of an upload from `pos` on; a file of no bytes is sent as one empty chunk. */
  function Requests<T>(src: seq<T>, pos: nat, bufLen: nat, first: bool): seq<Request<T>>
    requires pos <= |src| && 0 < bufLen
    decreases |src| - pos, first
  {
    var data := ReadAt(src, pos, bufLen);
    if data == [] && !first then [Install]
    else if pos + |data| > FOURGIGS then [Chunk(pos, data)]
    else [Chunk(pos, data)] + Requests(src, pos + |data|, bufLen, false)
  }

  /** The request sent next, in front of those that follow it. */
  lemma NextRequest<T>(sent: seq<Request<T>>, src: seq<T>, pos: nat, bufLen: nat, first: bool, data: seq<T>)
    requires pos <= |src| && 0 < bufLen && data == ReadAt(src, pos, bufLen)
    ensures data != [] || !first ==> (data == [] <==> pos == |src|)
    ensures sent + Requests(src, pos, bufLen, first) ==
            if data == [] && !first then sent + [Install]
            else if pos + |data| > FOURGIGS then sent + [Chunk(pos, data)]
            else sent + [Chunk(pos, data)] + Requests(src, pos + |data|, bufLen, false)
  {
    hide ReadAt;
  }

  /** Sends a whole file, when the server answers every request without error. */
  method UtilUpload<T(==)>(src: seq<T>, bufLen: nat) returns (sent: seq<Request<T>>)
    requires 0 < bufLen
    ensures sent == Requests(src, 0, bufLen, true)
  {
    hide ReadAt, Requests;
    sent := [];
    var pos, first := 0, true;
    while true
      invariant 0 <= pos <= |src|
      invariant Requests(src, 0, bufLen, true) == sent + Requests(src, pos, bufLen, first)
      decreases |src| - pos, first
    {
      var data := ReadAt(src, pos, bufLen);
      NextRequest(sent, src, pos, bufLen, first, data);
      if data != [] || first {
        sent := sent + [Chunk(pos, data)];
      } else {
        sent := sent + [Install];
      }
      if data == [] && !first {
        return;
      }
      if pos + |data| > FOURGIGS {
        return;
      }
      pos := pos + |data|;
      first := false;
    }
  }

  function End<T>(r: Request<T>): nat {
    if r.Chunk? then r.pos + |r.data| else 0
  }

  predicate PieceOf<T(==)>(r: Request<T>, src: seq<T>) {
    r.Chunk? && End(r) <= |src| && r.data == src[r.pos..End(r)]
  }

  /** The chunks tile the file from `pos` on: each starts where the one before it ended. */
  predicate Tiles<T(==)>(src: seq<T>, pos: nat, cs: seq<Request<T>>) {
    && (forall i :: 0 <= i < |cs| ==> PieceOf(cs[i], src))
    && (forall i {:trigger Before(cs, pos, i)} :: 0 <= i < |cs| ==> cs[i].pos == Before(cs, pos, i))
  }

  /** Where the chunk before number `i` ended. */
  function Before<T>(cs: seq<Request<T>>, pos: nat, i: nat): nat
    requires i <= |cs|
  {
    if i == 0 then pos else End(cs[i - 1])
  }

  /** Every chunk but the last is as long as the buffer and ends where a position can still say; the last
    * one is no longer. */
  predicate Sized<T>(cs: seq<Request<T>>, bufLen: nat) {
    && (forall i :: 0 <= i < |cs| ==> cs[i].Chunk? && |cs[i].data| <= bufLen)
    && (forall i :: 0 <= i < |cs| - 1 ==> |cs[i].data| == bufLen && End(cs[i]) <= FOURGIGS)
  }

  lemma SizedCons<T>(c: Request<T>, cs: seq<Request<T>>, bufLen: nat)
    requires Sized(cs, bufLen) && c.Chunk? && |c.data| <= bufLen
    requires cs != [] ==> |c.data| == bufLen && End(c) <= FOURGIGS
    ensures Sized([c] + cs, bufLen)
  {
    hide End;
  }

  lemma ReadIs<T>(src: seq<T>, pos: nat, bufLen: nat)
    requires pos <= |src| && 0 < bufLen
    ensures var n := |ReadAt(src, pos, bufLen)|; n <= bufLen && (n == bufLen || pos + n == |src|)
  {
  }

  lemma TilesCons<T>(src: seq<T>, pos: nat, c: Request<T>, cs: seq<Request<T>>)
    requires PieceOf(c, src) && c.pos == pos && Tiles(src, End(c), cs)
    ensures Tiles(src, pos, [c] + cs)
  {
    var all := [c] + cs;
    forall i | 0 <= i < |all|
      ensures PieceOf(all[i], src) && all[i].pos == Before(all, pos, i)
    {
      if i > 0 {
        assert all[i] == cs[i - 1] && PieceOf(cs[i - 1], src);
        assert Before(all, pos, i) == Before(cs, End(c), i - 1);
      }
    }
  }

  /** The client's chunks tile the file from `pos` on.  Only if the file is no longer than a
    * 32-bit position can say do they reach its end and does the install request follow that makes
    * the file appear; a longer file is left without one, and no error is reported. */
  lemma {:induction false} RequestsTile<T>(src: seq<T>, pos: nat, bufLen: nat, first: bool)
      returns (cs: seq<Request<T>>)
    requires pos <= |src| && 0 < bufLen && pos <= FOURGIGS
    ensures Tiles(src, pos, cs)
    ensures Requests(src, pos, bufLen, first) == cs + Closing(|src|)
    ensures |src| <= FOURGIGS ==> (if cs == [] then pos else End(cs[|cs| - 1])) == |src|
    ensures |src| > FOURGIGS ==> cs != [] && End(cs[|cs| - 1]) > FOURGIGS
    ensures cs == [] <==> pos == |src| && !first
    ensures Sized(cs, bufLen) && (pos < |src| ==> cs[|cs| - 1].data != [])
    decreases |src| - pos, first
  {
    hide *;
    var data := ReadAt(src, pos, bufLen);
    NextRequest([], src, pos, bufLen, first, data);
    assert [] + Requests(src, pos, bufLen, first) == Requests(src, pos, bufLen, first);
    LastRequest<T>(|src|);
    if data == [] && !first {
      cs := [];
      NoTiles(src, pos);
    } else {
      var c := Chunk(pos, data);
      IsPiece(src, pos, data);
      ReadIs(src, pos, bufLen);
      if pos + |data| > FOURGIGS {
        NoTiles(src, pos + |data|);
        cs := [];
      } else {
        cs := RequestsTile(src, pos + |data|, bufLen, false);
        assert [c] + cs + Closing(|src|) == [c] + (cs + Closing(|src|));
      }
      TilesCons(src, pos, c, cs);
      SizedCons(c, cs, bufLen);
      cs := [c] + cs;
    }
  }

  lemma LastRequest<T>(n: nat)
    ensures Closing<T>(n) == if n <= FOURGIGS then [Install] else []
  {
  }

  /** How the requests for a file of `n` bytes end. */
  function Closing<T>(n: nat): seq<Request<T>> {
    if n <= FOURGIGS then [Install] else []
  }

  lemma NoTiles<T>(src: seq<T>, pos: nat)
    ensures Tiles(src, pos, []) && forall bufLen :: Sized<T>([], bufLen)
  {
  }

  lemma IsPiece<T>(src: seq<T>, pos: nat, data: seq<T>)
    requires pos + |data| <= |src| && data == src[pos..pos + |data|]
    ensures PieceOf(Chunk(pos, data), src) && End(Chunk(pos, data)) == pos + |data|
  {
  }

  // ------------------------------------------------------------------------------------------
  // A whole upload
  // ------------------------------------------------------------------------------------------

  /** The server gets chunk number `i`, or the cache drops the handle. */
  datatype Event = Deliver(i: nat) | Evict

  /** Chunks arrive in order, each any number of times before the next one. */
  predicate InOrder(events: seq<Event>, next: nat, n: nat)
    decreases |events|
  {
    events == [] ||
    match events[0]
    case Evict => InOrder(events[1..], next, n)
    case Deliver(i) => i < n && i <= next <= i + 1 && InOrder(events[1..], i + 1, n)
  }

  /** How many chunks have arrived at the end. */
  function Arrived(events: seq<Event>, next: nat): nat
    decreases |events|
  {
    if events == [] then next
    else Arrived(events[1..], if events[0].Deliver? then events[0].i + 1 else next)
  }

  /** The state after the events and whether every chunk was stored, on a disk with room. */
  function Receive<T>(t: Temp<T>, cs: seq<Request<T>>, events: seq<Event>): (Temp<T>, bool)
    requires Valid(t)
    requires forall j :: 0 <= j < |cs| ==> cs[j].Chunk?
    decreases |events|
  {
    if events == [] then (t, true)
    else
      match events[0]
      case Evict => Receive(Temp(t.file, false, 0), cs, events[1..])
      case Deliver(i) =>
        if i >= |cs| then (t, false)
        else
          var (t', reply) := UpLoad(t, cs[i].data, cs[i].pos, |cs[i].data|);
          StoredKeepsValid(t, cs[i].data, cs[i].pos, |cs[i].data|);
          if reply == Stored then Receive(t', cs, events[1..]) else (t', false)
  }

  lemma StoredKeepsValid<T>(t: Temp<T>, data: seq<T>, pos: nat, room: nat)
    requires Valid(t)
    ensures Valid(UpLoad(t, data, pos, room).0)
  {
  }

  /** A piece of the source over a prefix of it that it touches gives the longer prefix. */
  lemma StorePiece<T>(t: Temp<T>, src: seq<T>, c: Request<T>, e: nat)
    requires Valid(t) && AtEnd(t) && PieceOf(c, src) && e <= |src|
    requires c.pos == 0 || (t.file == Some(src[..e]) && c.pos <= e <= End(c))
    ensures var (t', reply) := UpLoad(t, c.data, c.pos, |c.data|);
            reply == Stored && Valid(t') && AtEnd(t') && t'.file == Some(src[..End(c)])
  {
    StoredWhen(t, c.data, c.pos, |c.data|);
    StoredIsFaithful(t, c.data, c.pos, |c.data|);
    AtEndStep(t, c.data, c.pos, |c.data|);
    StoredKeepsValid(t, c.data, c.pos, |c.data|);
    hide UpLoad;
    assert Existing(t)[..c.pos] + c.data == src[..End(c)];
  }

  lemma TilesAt<T>(src: seq<T>, cs: seq<Request<T>>, i: nat)
    requires Tiles(src, 0, cs) && i < |cs|
    ensures PieceOf(cs[i], src) && cs[i].pos == (if i == 0 then 0 else End(cs[i - 1]))
  {
    assert Before(cs, 0, i) == if i == 0 then 0 else End(cs[i - 1]);
  }

  /** If a handle in the cache stands at the end of its file, chunks that tile a source and arrive in
    * order, each possibly several times, with the handle evicted anywhere, are all stored and leave
    * exactly the part of the source that has arrived. */
  lemma {:induction false} UploadFaithful<T>(t: Temp<T>, src: seq<T>, cs: seq<Request<T>>,
                                             events: seq<Event>, next: nat)
    requires forall j :: 0 <= j < |cs| ==> cs[j].Chunk?
    requires Valid(t) && AtEnd(t) && Tiles(src, 0, cs) && next <= |cs| && InOrder(events, next, |cs|)
    requires next != 0 ==> End(cs[next - 1]) <= |src| && t.file == Some(src[..End(cs[next - 1])])
    ensures var (t', ok) := Receive(t, cs, events);
            var n := Arrived(events, next);
            ok && n <= |cs| && (n != 0 ==> End(cs[n - 1]) <= |src| && t'.file == Some(src[..End(cs[n - 1])]))
    decreases |events|
  {
    hide UpLoad, Tiles, PieceOf, AtEnd, Valid;
    if events != [] {
      match events[0]
      case Evict =>
        EvictedIsValid(t);
        UploadFaithful(Temp(t.file, false, 0), src, cs, events[1..], next);
      case Deliver(i) =>
        var c := cs[i];
        TilesAt(src, cs, i);
        PieceEnds(c, src);
        StorePiece(t, src, c, if next == 0 then 0 else End(cs[next - 1]));
        UploadFaithful(UpLoad(t, c.data, c.pos, |c.data|).0, src, cs, events[1..], i + 1);
    }
  }

  lemma PieceEnds<T>(c: Request<T>, src: seq<T>)
    requires PieceOf(c, src)
    ensures c.Chunk? && c.pos <= End(c) <= |src|
  {
  }

  lemma ReceiveDeliver<T>(t: Temp<T>, cs: seq<Request<T>>, events: seq<Event>)
    requires Valid(t) && forall j :: 0 <= j < |cs| ==> cs[j].Chunk?
    requires events != [] && events[0].Deliver? && events[0].i < |cs|
    requires var c := cs[events[0].i]; UpLoad(t, c.data, c.pos, |c.data|).1 == Stored
    ensures var c := cs[events[0].i];
            var t' := UpLoad(t, c.data, c.pos, |c.data|).0;
            Valid(t') && Receive(t, cs, events) == Receive(t', cs, events[1..])
  {
    hide UpLoad;
    var c := cs[events[0].i];
    StoredKeepsValid(t, c.data, c.pos, |c.data|);
  }

  lemma ReceiveEvict<T>(t: Temp<T>, cs: seq<Request<T>>, events: seq<Event>)
    requires Valid(t) && forall j :: 0 <= j < |cs| ==> cs[j].Chunk?
    requires events != [] && events[0] == Evict
    ensures Receive(t, cs, events) == Receive(Temp(t.file, false, 0), cs, events[1..])
  {
  }

  lemma EvictedIsValid<T>(t: Temp<T>)
    ensures Valid(Temp(t.file, false, 0)) && AtEnd(Temp(t.file, false, 0))
  {
  }

  // ------------------------------------------------------------------------------------------
  // Whatever handle is left over
  // ------------------------------------------------------------------------------------------

  /** What the first two chunks cover, or the only one. */
  function Covered<T>(cs: seq<Request<T>>): nat
    requires cs != [] && forall j :: 0 <= j < |cs| ==> cs[j].Chunk?
  {
    |cs[0].data| + if |cs| == 1 then 0 else |cs[1].data|
  }

  /** No handle is left through which the first chunk is written in front of bytes that the first two
    * chunks do not cover.  Without a cached handle, and with one at the end of its file, it holds. */
  predicate Harmless<T>(t: Temp<T>, cs: seq<Request<T>>)
    requires cs != [] && forall j :: 0 <= j < |cs| ==> cs[j].Chunk?
  {
    t.cached && t.fpos <= |cs[0].data| ==> |Existing(t)| <= Covered(cs)
  }

  /** Every schedule of arrivals and evictions stores all that arrives, and the source when all of it
    * has arrived. */
  ghost predicate AlwaysFaithful<T(!new)>(t: Temp<T>, src: seq<T>, cs: seq<Request<T>>)
    requires Valid(t) && forall j :: 0 <= j < |cs| ==> cs[j].Chunk?
  {
    forall events :: InOrder(events, 0, |cs|) ==> Good(t, src, cs, events)
  }

  predicate Good<T(==)>(t: Temp<T>, src: seq<T>, cs: seq<Request<T>>, events: seq<Event>)
    requires Valid(t) && forall j :: 0 <= j < |cs| ==> cs[j].Chunk?
  {
    var (t', ok) := Receive(t, cs, events);
    ok && (Arrived(events, 0) == |cs| ==> t'.file == Some(src))
  }

  /** The file holds the first chunk and no more than the second one will cover. */
  predicate HoldsFirst<T(==)>(t: Temp<T>, cs: seq<Request<T>>)
    requires cs != [] && forall j :: 0 <= j < |cs| ==> cs[j].Chunk?
  {
    var d := cs[0].data;
    && t.file.Some? && |d| <= |t.file.value| <= Covered(cs) && t.file.value[..|d|] == d
    && (t.cached ==> t.fpos == |d|)
  }

  /** What chunks that tile the whole of a source look like at their front. */
  predicate Whole<T(==)>(src: seq<T>, cs: seq<Request<T>>) {
    && cs != [] && Tiles(src, 0, cs) && End(cs[|cs| - 1]) == |src|
    && (1 < |cs| ==> cs[0].data != [])
  }

  lemma FirstTwo<T>(src: seq<T>, cs: seq<Request<T>>)
    requires Whole(src, cs)
    ensures forall j :: 0 <= j < |cs| ==> cs[j].Chunk?
    ensures cs[0].pos == 0 && cs[0].data == src[..End(cs[0])]
    ensures 1 < |cs| ==> cs[0].data != [] && cs[1].pos == End(cs[0]) && PieceOf(cs[1], src)
  {
    TilesAt(src, cs, 0);
    if 1 < |cs| {
      TilesAt(src, cs, 1);
    }
    assert forall j :: 0 <= j < |cs| ==> PieceOf(cs[j], src);
  }

  lemma StoreFirst<T>(t: Temp<T>, src: seq<T>, cs: seq<Request<T>>)
    requires Whole(src, cs) && forall j :: 0 <= j < |cs| ==> cs[j].Chunk?
    requires Valid(t) && (Harmless(t, cs) || HoldsFirst(t, cs))
    ensures var (t', reply) := UpLoad(t, cs[0].data, 0, |cs[0].data|);
            reply == Stored && Valid(t') && HoldsFirst(t', cs)
  {
    FirstTwo(src, cs);
    var d := cs[0].data;
    if t.cached && |d| < t.fpos {
      assert UpLoad(t, d, 0, |d|) == UpLoad(Deleted(), d, 0, |d|);
    }
  }

  lemma StoreBehind<T>(t: Temp<T>, d: seq<T>, e: seq<T>)
    requires Valid(t) && t.file.Some? && d != []
    requires |d| <= |t.file.value| <= |d| + |e| && t.file.value[..|d|] == d && (t.cached ==> t.fpos == |d|)
    ensures var (t', reply) := UpLoad(t, e, |d|, |e|);
            reply == Stored && Valid(t') && AtEnd(t') && t'.file == Some(d + e)
  {
    StoredWhen(t, e, |d|, |e|);
    StoredIsFaithful(t, e, |d|, |e|);
    StoredAt(t, e, |d|, |e|);
    hide UpLoad;
  }

  lemma StoreSecond<T>(t: Temp<T>, src: seq<T>, cs: seq<Request<T>>)
    requires Whole(src, cs) && 1 < |cs| && forall j :: 0 <= j < |cs| ==> cs[j].Chunk?
    requires Valid(t) && HoldsFirst(t, cs)
    ensures var (t', reply) := UpLoad(t, cs[1].data, cs[1].pos, |cs[1].data|);
            reply == Stored && Valid(t') && AtEnd(t') &&
            End(cs[1]) <= |src| && t'.file == Some(src[..End(cs[1])])
  {
    hide UpLoad, Whole, Tiles, Valid, AtEnd;
    FirstTwo(src, cs);
    var d, e := cs[0].data, cs[1].data;
    assert |d| == End(cs[0]) == cs[1].pos && d == src[..|d|] && e == src[|d|..End(cs[1])];
    StoreBehind(t, d, e);
    assert d + e == src[..End(cs[1])];
  }

  lemma StoredAt<T>(t: Temp<T>, data: seq<T>, pos: nat, room: nat)
    requires Valid(t) && UpLoad(t, data, pos, room).1 == Stored
    ensures var t' := UpLoad(t, data, pos, room).0; Valid(t') && t'.cached && t'.fpos == pos + |data|
  {
  }

  /** From a file that holds the first chunk on. */
  lemma {:induction false} AfterFirst<T>(t: Temp<T>, src: seq<T>, cs: seq<Request<T>>, events: seq<Event>)
    requires Whole(src, cs) && forall j :: 0 <= j < |cs| ==> cs[j].Chunk?
    requires Valid(t) && HoldsFirst(t, cs) && InOrder(events, 1, |cs|)
    ensures var (t', ok) := Receive(t, cs, events);
            ok && (Arrived(events, 1) == |cs| ==> t'.file == Some(src))
    decreases |events|
  {
    FirstTwo(src, cs);
    if events == [] {
      if |cs| == 1 {
        OnlyChunk(t, src, cs);
      }
    } else {
      hide UpLoad, Receive, Whole, Tiles, PieceOf, Valid, AtEnd, HoldsFirst;
      match events[0]
      case Evict =>
        EvictedIsValid(t);
        EvictedHoldsFirst(t, cs);
        ReceiveEvict(t, cs, events);
        AfterFirst(Temp(t.file, false, 0), src, cs, events[1..]);
      case Deliver(i) =>
        var t' := UpLoad(t, cs[i].data, cs[i].pos, |cs[i].data|).0;
        if i == 0 {
          StoreFirst(t, src, cs);
          ReceiveDeliver(t, cs, events);
          AfterFirst(t', src, cs, events[1..]);
        } else {
          StoreSecond(t, src, cs);
          ReceiveDeliver(t, cs, events);
          AfterSecond(t', src, cs, events[1..]);
        }
    }
  }

  lemma EvictedHoldsFirst<T>(t: Temp<T>, cs: seq<Request<T>>)
    requires cs != [] && (forall j :: 0 <= j < |cs| ==> cs[j].Chunk?) && HoldsFirst(t, cs)
    ensures HoldsFirst(Temp(t.file, false, 0), cs)
  {
  }

  lemma OnlyChunk<T>(t: Temp<T>, src: seq<T>, cs: seq<Request<T>>)
    requires Whole(src, cs) && |cs| == 1 && cs[0].Chunk? && HoldsFirst(t, cs)
    ensures t.file == Some(src)
  {
    FirstTwo(src, cs);
    var f, d := t.file.value, cs[0].data;
    assert f == f[..|d|] && src[..|src|] == src;
  }

  lemma AfterSecond<T>(t: Temp<T>, src: seq<T>, cs: seq<Request<T>>, events: seq<Event>)
    requires Whole(src, cs) && 1 < |cs| && forall j :: 0 <= j < |cs| ==> cs[j].Chunk?
    requires Valid(t) && AtEnd(t) && InOrder(events, 2, |cs|)
    requires End(cs[1]) <= |src| && t.file == Some(src[..End(cs[1])])
    ensures var (t', ok) := Receive(t, cs, events);
            ok && (Arrived(events, 2) == |cs| ==> t'.file == Some(src))
  {
    hide UpLoad, Tiles, PieceOf, Valid, AtEnd, Receive, Arrived, InOrder;
    UploadFaithful(t, src, cs, events, 2);
    assert src[..|src|] == src;
  }

  lemma {:induction false} BeforeFirst<T>(t: Temp<T>, src: seq<T>, cs: seq<Request<T>>, events: seq<Event>)
    requires Whole(src, cs) && forall j :: 0 <= j < |cs| ==> cs[j].Chunk?
    requires Valid(t) && Harmless(t, cs) && InOrder(events, 0, |cs|)
    ensures Good(t, src, cs, events)
    decreases |events|
  {
    FirstTwo(src, cs);
    hide UpLoad, Whole, Tiles, PieceOf, AtEnd;
    if events != [] {
      match events[0]
      case Evict => BeforeFirst(Temp(t.file, false, 0), src, cs, events[1..]);
      case Deliver(i) =>
        StoreFirst(t, src, cs);
        hide HoldsFirst, Harmless, Valid;
        AfterFirst(UpLoad(t, cs[0].data, 0, |cs[0].data|).0, src, cs, events[1..]);
    }
  }

  /** What a schedule does that goes wrong with a handle that is not harmless. */
  function Revealing(n: nat): seq<Event> {
    if n == 1 then [Deliver(0)] else [Deliver(0)] + ([Evict] + [Deliver(1)])
  }

  lemma HarmShows<T>(t: Temp<T>, src: seq<T>, cs: seq<Request<T>>)
    requires Whole(src, cs) && forall j :: 0 <= j < |cs| ==> cs[j].Chunk?
    requires Valid(t) && !Harmless(t, cs)
    ensures InOrder(Revealing(|cs|), 0, |cs|) && !Good(t, src, cs, Revealing(|cs|))
  {
    FirstTwo(src, cs);
    var d, t1 := cs[0].data, UpLoad(t, cs[0].data, 0, |cs[0].data|).0;
    TailStays(t, d);
    if |cs| == 1 {
      OneEvent(t, cs, 0);
      assert Revealing(1) == [Deliver(0)] && Arrived(Revealing(1), 0) == 1;
      assert |src| == |d|;
    } else {
      ThreeEvents(t, cs);
      var t2 := Temp(t1.file, false, 0);
      assert UpLoad(t2, cs[1].data, cs[1].pos, |cs[1].data|).1 == NonContinuous;
    }
  }

  lemma TailStays<T>(t: Temp<T>, d: seq<T>)
    requires Valid(t) && t.cached && t.fpos <= |d| < |Existing(t)|
    ensures var (t', reply) := UpLoad(t, d, 0, |d|);
            reply == Stored && Valid(t') && t'.file.Some? && |t'.file.value| == |Existing(t)|
  {
  }

  lemma OneEvent<T>(t: Temp<T>, cs: seq<Request<T>>, i: nat)
    requires Valid(t) && i < |cs| && forall j :: 0 <= j < |cs| ==> cs[j].Chunk?
    ensures var (t', reply) := UpLoad(t, cs[i].data, cs[i].pos, |cs[i].data|);
            Receive(t, cs, [Deliver(i)]) == (t', reply == Stored)
  {
    hide UpLoad;
    assert [Deliver(i)][1..] == [];
    StoredKeepsValid(t, cs[i].data, cs[i].pos, |cs[i].data|);
  }

  lemma ThreeEvents<T>(t: Temp<T>, cs: seq<Request<T>>)
    requires Valid(t) && 1 < |cs| && forall j :: 0 <= j < |cs| ==> cs[j].Chunk?
    requires UpLoad(t, cs[0].data, cs[0].pos, |cs[0].data|).1 == Stored
    ensures var t1 := UpLoad(t, cs[0].data, cs[0].pos, |cs[0].data|).0;
            Receive(t, cs, Revealing(|cs|)) == Receive(Temp(t1.file, false, 0), cs, [Deliver(1)])
    ensures var t2 := Temp(UpLoad(t, cs[0].data, cs[0].pos, |cs[0].data|).0.file, false, 0);
            Receive(t2, cs, [Deliver(1)]).1 == (UpLoad(t2, cs[1].data, cs[1].pos, |cs[1].data|).1 == Stored)
    ensures InOrder(Revealing(|cs|), 0, |cs|)
  {
    hide UpLoad;
    StoredKeepsValid(t, cs[0].data, cs[0].pos, |cs[0].data|);
    var t1 := UpLoad(t, cs[0].data, cs[0].pos, |cs[0].data|).0;
    var rest := [Evict] + [Deliver(1)];
    assert Revealing(|cs|)[1..] == rest && rest[1..] == [Deliver(1)] && [Deliver(1)][1..] == [];
    assert Receive(t1, cs, rest) == Receive(Temp(t1.file, false, 0), cs, [Deliver(1)]);
    assert InOrder([Deliver(1)], 1, |cs|) && InOrder(rest, 1, |cs|);
    OneEvent(Temp(t1.file, false, 0), cs, 1);
  }

  /** Whatever temporary file and handle are left over: every schedule of a whole upload ends with the
    * source, exactly when the handle is harmless. */
  lemma FaithfulWhen<T(!new)>(t: Temp<T>, src: seq<T>, cs: seq<Request<T>>)
    requires Valid(t) && Whole(src, cs) && forall j :: 0 <= j < |cs| ==> cs[j].Chunk?
    ensures AlwaysFaithful(t, src, cs) <==> Harmless(t, cs)
  {
    if Harmless(t, cs) {
      forall events | InOrder(events, 0, |cs|) ensures Good(t, src, cs, events) {
        BeforeFirst(t, src, cs, events);
      }
    } else {
      HarmShows(t, src, cs);
    }
  }

  /** The client's loop, on a file that it can install: the chunks before the install request leave
    * the source in the temporary file in every schedule, exactly when the handle is harmless. */
  lemma WholeUpload<T(!new)>(t: Temp<T>, src: seq<T>, bufLen: nat) returns (cs: seq<Request<T>>)
    requires Valid(t) && 0 < bufLen && |src| <= FOURGIGS
    ensures Requests(src, 0, bufLen, true) == cs + [Install] && Whole(src, cs)
    ensures (forall j :: 0 <= j < |cs| ==> cs[j].Chunk?) && (AlwaysFaithful(t, src, cs) <==> Harmless(t, cs))
  {
    cs := RequestsTile(src, 0, bufLen, true);
    FrontRequests(src, bufLen, cs);
    FirstTwo(src, cs);
    FaithfulWhen(t, src, cs);
  }

  lemma FrontRequests<T>(src: seq<T>, bufLen: nat, cs: seq<Request<T>>)
    requires 0 < bufLen && |src| <= FOURGIGS && Requests(src, 0, bufLen, true) == cs + [Install]
    ensures cs != [] && (1 < |cs| ==> cs[0].Chunk? && cs[0].data != [])
  {
    var rs, data := Requests(src, 0, bufLen, true), ReadAt(src, 0, bufLen);
    assert rs[0] == Chunk(0, data);
    if data == [] {
      assert Requests(src, 0, bufLen, false) == [Install];
      assert rs == [Chunk(0, data)] + [Install];
    }
  }
}
