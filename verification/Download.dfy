/** Downloading a file block by block: the server's block and the client's loop. */
module Download {

  const FOURGIGS := 0xffff_ffff
  const UBUF_SPACE := 1024

  /** How much of a file the server sends at once, when the client asks for blocks of `asked` bytes. */
  function BlockLength(asked: nat, packetsize: nat): nat {
    if asked > packetsize then packetsize else if asked == 0 then UBUF_SPACE else asked
  }

  /** The bytes that the server reads at a position; there are none behind the end. */
  function Block<T>(src: seq<T>, pos: nat, n: nat): (b: seq<T>)
    ensures |b| <= n
    ensures pos <= |src| ==> pos + |b| <= |src| && b == src[pos..pos + |b|]
    ensures pos + n <= |src| ==> |b| == n
    ensures pos <= |src| < pos + n ==> pos + |b| == |src|
  {
    if pos >= |src| then [] else if pos + n <= |src| then src[pos..pos + n] else src[pos..]
  }

  /** A position as it fits into a message. */
  function Wire(pos: nat): nat {
    pos % (FOURGIGS + 1)
  }

  function Min(a: nat, b: nat): nat {
    if a < b then a else b
  }

  /** `serve_file`, for a request that carries a length: what the file has at the position, up to as
    * much as was asked for, a packet at most, and 1024 bytes if nothing was said. */
  method ServeFile<T>(src: seq<T>, pos: nat, asked: nat, packetsize: nat) returns (bytes: seq<T>)
    ensures bytes == Block(src, pos, BlockLength(asked, packetsize))
    ensures pos >= |src| ==> bytes == []
    ensures pos < |src| ==>
              && pos + |bytes| <= |src| && bytes == src[pos..pos + |bytes|]
              && (pos + |bytes| < |src| ==> |bytes| == if 1 <= asked <= packetsize then asked
                                                       else if asked == 0 then 1024 else packetsize)
              && |bytes| <= if 1 <= asked <= packetsize then asked else if asked == 0 then 1024 else packetsize
  {
    var len := asked;
    if len > packetsize {
      len := packetsize;
    } else if len <= 0 {
      len := UBUF_SPACE;
    }
    var at := if pos < |src| then pos else |src|;
    bytes := if |src| - at < len then src[at..] else src[at..at + len];
  }

  /** What the client writes from `pos` on, in blocks of `n` bytes on a disk that takes `room` bytes,
    * and whether it reports success. */
  function Fetched<T>(src: seq<T>, pos: nat, n: nat, room: nat): (seq<T>, bool)
    decreases if pos <= FOURGIGS then FOURGIGS + 1 - pos else 0
  {
    var b := Block(src, Wire(pos), n);
    var wrote := Min(|b|, room);
    if pos + wrote > FOURGIGS then (b[..wrote], true)
    else if b == [] then ([], true)
    else if wrote < |b| then (b[..wrote], false)
    else
      var (rest, ok) := Fetched(src, pos + |b|, n, room - |b|);
      (b + rest, ok)
  }

  lemma FetchedStep<T>(src: seq<T>, pos: nat, n: nat, room: nat)
    requires pos <= FOURGIGS
    ensures var b, (written, ok) := Block(src, pos, n), Fetched(src, pos, n, room);
            var wrote := Min(|b|, room);
            if pos + wrote <= FOURGIGS && b != [] && wrote == |b| then
              var (more, ok') := Fetched(src, pos + |b|, n, room - |b|);
              written == b + more && ok == ok'
            else written == b[..wrote] && ok == (pos + wrote > FOURGIGS || b == [])
  {
    hide Block;
    SmallWire(pos);
    hide Wire;
  }

  lemma SmallWire(pos: nat)
    requires pos <= FOURGIGS
    ensures Wire(pos) == pos
  {
  }

  lemma Joined<T>(a: seq<T>, b: seq<T>, c: seq<T>)
    ensures a + (b + c) == a + b + c
  {
  }

  /** `util_download_main`: asks for blocks until an empty one, and returns what went into the local
    * file and the code. */
  method UtilDownload<T(==)>(src: seq<T>, start: nat, asked: nat, packetsize: nat, room: nat)
      returns (fp: seq<T>, code: int)
    requires start <= FOURGIGS
    ensures (fp, code == 0) == Fetched(src, start, BlockLength(asked, packetsize), room)
    ensures code == 0 || code == -1
  {
    hide Fetched, Block, BlockLength, Wire;
    ghost var n := BlockLength(asked, packetsize);
    fp := [];
    var pos, left: nat := start, room;
    while true
      invariant pos <= FOURGIGS
      invariant var (all, ok), (rest, ok') := Fetched(src, start, n, room), Fetched(src, pos, n, left);
        all == fp + rest && ok == ok'
      decreases FOURGIGS - pos
    {
      SmallWire(pos);
      FetchedStep(src, pos, n, left);
      var ub := ServeFile(src, Wire(pos), asked, packetsize);
      var rlen := |ub|;
      var wrote := Min(rlen, left);
      ghost var before := fp;
      fp, left := fp + ub[..wrote], left - wrote;
      if pos + wrote > FOURGIGS {
        return fp, 0;
      }
      if rlen != 0 && rlen == wrote {
        Joined(before, ub, Fetched(src, pos + rlen, n, left).0);
        assert ub[..wrote] == ub;
      }
      pos := pos + wrote;
      if rlen == 0 {
        return fp, 0;
      }
      if rlen != wrote {
        return fp, -1;
      }
    }
  }

  // ------------------------------------------------------------------------------------------
  // What arrives
  // ------------------------------------------------------------------------------------------

  /** The end of the last block that the client asks for in a file without end. */
  function LastAsked(pos: nat, n: nat): (e: nat)
    requires 0 < n
    ensures FOURGIGS < e && pos <= e
    decreases if pos <= FOURGIGS then FOURGIGS + 1 - pos else 0
  {
    if pos > FOURGIGS then pos else LastAsked(pos + n, n)
  }

  /** It is the first multiple of the block size, counted from the start, that is too large for a
    * position. */
  lemma {:induction false} LastAskedIs(pos: nat, n: nat) returns (k: nat)
    requires 0 < n && pos <= FOURGIGS
    ensures 0 < k && pos + (k - 1) * n <= 0xffff_ffff < pos + k * n == LastAsked(pos, n)
    decreases FOURGIGS - pos
  {
    if pos + n <= FOURGIGS {
      k := LastAskedIs(pos + n, n);
      OneMore(pos, k, n);
      k := k + 1;
    } else {
      k := 1;
      LastStep(pos, n);
    }
  }

  lemma OneMore(pos: nat, k: nat, n: nat)
    ensures pos + n + k * n == pos + (k + 1) * n && pos + n + (k - 1) * n == pos + k * n
  {
  }

  /** Where the download ends if the local disk takes everything. */
  function Reach<T>(src: seq<T>, start: nat, n: nat): nat
    requires 0 < n
  {
    Min(|src|, LastAsked(start, n))
  }

  /** The blocks are put together without gap or overlap: what is written is the file from the start
    * to where the file, the positions or the disk end.  Success is reported when the file or the
    * positions end there, and also when the disk does behind the last position. */
  lemma {:induction false} DownloadIs<T>(src: seq<T>, start: nat, n: nat, room: nat)
    requires 0 < n && start <= FOURGIGS && start <= |src|
    ensures var (written, ok) := Fetched(src, start, n, room);
            var end := Min(Reach(src, start, n), start + room);
            && start <= end && written == src[start..end]
            && (ok <==> end == Reach(src, start, n) || end > FOURGIGS)
    decreases FOURGIGS - start
  {
    hide Fetched, LastAsked;
    var b := Block(src, start, n);
    FetchedStep(src, start, n, room);
    LastStep(start, n);
    if start + Min(|b|, room) <= FOURGIGS && b != [] && |b| <= room {
      if |b| == n {
        DownloadIs(src, start + n, n, room - n);
        Sliced(src, start, start + n, Min(Reach(src, start + n, n), start + room));
      } else {
        AtEnd(src, n, room - |b|);
      }
    }
  }

  lemma Sliced<T>(src: seq<T>, a: nat, b: nat, c: nat)
    requires a <= b <= c <= |src|
    ensures src[a..b] + src[b..c] == src[a..c]
  {
  }

  lemma LastStep(start: nat, n: nat)
    requires 0 < n && start <= FOURGIGS
    ensures LastAsked(start, n) == LastAsked(start + n, n)
    ensures start + n > FOURGIGS ==> LastAsked(start, n) == start + n
  {
  }

  lemma AtEnd<T>(src: seq<T>, n: nat, room: nat)
    requires |src| <= FOURGIGS
    ensures Fetched(src, |src|, n, room) == ([], true)
  {
  }

  /** The whole rest of the file arrives if and only if the disk takes it and it ends before the last
    * block that the client can ask for. */
  lemma DownloadComplete<T>(src: seq<T>, start: nat, n: nat, room: nat)
    requires 0 < n && start <= FOURGIGS && start <= |src|
    ensures Fetched(src, start, n, room).0 == src[start..] <==>
            |src| <= start + room && |src| <= LastAsked(start, n)
  {
    DownloadIs(src, start, n, room);
    var end := Min(Reach(src, start, n), start + room);
    assert |src[start..end]| == end - start && |src[start..]| == |src| - start;
    assert src[start..|src|] == src[start..];
  }

  /** Reported success means that the rest of the file is there, on every disk, if and only if the file
    * is no longer than the positions go. */
  lemma SuccessIsTrueWhen<T(!new)>(src: seq<T>, start: nat, n: nat)
    requires 0 < n && start <= FOURGIGS && start <= |src|
    ensures (forall room: nat :: Fetched(src, start, n, room).1 ==> Fetched(src, start, n, room).0 == src[start..])
       <==> |src| <= FOURGIGS + 1
  {
    if |src| <= FOURGIGS + 1 {
      forall room: nat | Fetched(src, start, n, room).1
        ensures Fetched(src, start, n, room).0 == src[start..]
      {
        DownloadIs(src, start, n, room);
        DownloadComplete(src, start, n, room);
      }
    } else {
      var room := FOURGIGS + 1 - start;
      DownloadIs(src, start, n, room);
      DownloadComplete(src, start, n, room);
      assert Fetched(src, start, n, room).1;
    }
  }
}
