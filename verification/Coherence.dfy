/** The cached listing of a directory: which changes of the directory a client is shown.
  *
  * One directory is followed, under any number of names that lead to it.  Everything else the
  * server does can only push entries out of the two caches. */
module Coherence {
  import opened Options

  // ------------------------------------------------------------------------------------------
  // The directory and the caches
  // ------------------------------------------------------------------------------------------

  type Name = string

  /** A change of what the directory holds.  `mark` is the server's clock for a change that the
    * server makes and notes, and `stamp` the time that the file system puts on the directory. */
  datatype Change = Change(mark: int, stamp: int, via: Option<Name>)

  /** The server's record of the directory under one name. */
  datatype Info = Info(mtime: int, lastcheck: int)

  /** A listing shows the directory as it was after the first `seen` changes. */
  datatype Listing = Listing(mtime: int, seen: nat)

  datatype Config = Config(timeout: int, directoryMtime: bool)

  datatype State = State(now: int, log: seq<Change>, mtime: int, infos: map<Name, Info>, listing: Option<Listing>)

  /** What happens: a request that changes the directory and notes it (`effect` is the new time of
    * the directory, if it did change), a change that nothing notes, a listing, any other request
    * with a path, and an entry that leaves a cache. */
  datatype Event =
    | Modify(name: Name, time: int, effect: Option<int>)
    | Unnoted(stamp: int)
    | Get(name: Name, time: int)
    | Visit(name: Name, time: int)
    | DropInfo(name: Name)
    | DropListing

  /** The clock does not go back, and file system and server read the same clock. */
  predicate Enabled(s: State, e: Event) {
    match e
    case Modify(_, t, effect) => s.now <= t && s.mtime <= t && (effect.Some? ==> t <= effect.value)
    case Unnoted(stamp) => s.now <= stamp && s.mtime <= stamp
    case Get(_, t) => s.now <= t && s.mtime <= t
    case Visit(_, t) => s.now <= t && s.mtime <= t
    case DropInfo(_) => true
    case DropListing => true
  }

  // ------------------------------------------------------------------------------------------
  // What the requests do
  // ------------------------------------------------------------------------------------------

  /** The part of `validate_path` about the cache: the record it returns for a name. */
  function Checked(c: Config, s: State, name: Name, t: int): Info {
    if name in s.infos && s.infos[name].lastcheck + c.timeout > t then s.infos[name]
    else if name in s.infos && c.directoryMtime && s.mtime == s.infos[name].mtime then
      Info(s.mtime, t)
    else Info(if c.directoryMtime then s.mtime else t, t)
  }

  function Look(c: Config, s: State, name: Name, t: int): State {
    s.(now := t, infos := s.infos[name := Checked(c, s, name, t)])
  }

  /** `server_get_dir`: the listing that a client is sent. */
  function Serve(s: State, name: Name): Listing
    requires name in s.infos
  {
    if s.listing.Some? && !(s.listing.value.mtime < s.infos[name].mtime) then s.listing.value
    else Listing(s.now, |s.log|)
  }

  /** A delete, an install, a grab or a rename: notes the time in the record of the directory. */
  function Note(s: State, name: Name, effect: Option<int>): State {
    var noted := s.(infos := s.infos[name := Info(s.now, s.now)]);
    if effect.None? then noted
    else noted.(log := s.log + [Change(s.now, effect.value, Some(name))], mtime := effect.value)
  }

  function Apply(c: Config, s: State, e: Event): State {
    match e
    case Modify(name, t, effect) => Note(Look(c, s, name, t), name, effect)
    case Unnoted(stamp) => s.(log := s.log + [Change(stamp, stamp, None)], mtime := stamp)
    case Get(name, t) =>
      var looked := Look(c, s, name, t);
      looked.(listing := Some(Serve(looked, name)))
    case Visit(name, t) => Look(c, s, name, t)
    case DropInfo(name) => s.(infos := s.infos - {name})
    case DropListing => s.(listing := None)
  }

  function Start(now: int, mtime: int): State {
    State(now, [], mtime, map[], None)
  }

  ghost predicate Run(c: Config, s: State, events: seq<Event>)
    decreases |events|
  {
    events == [] || (Enabled(s, events[0]) && Run(c, Apply(c, s, events[0]), events[1..]))
  }

  function Final(c: Config, s: State, events: seq<Event>): State
    decreases |events|
  {
    if events == [] then s else Final(c, Apply(c, s, events[0]), events[1..])
  }

  // ------------------------------------------------------------------------------------------
  // What every run keeps
  // ------------------------------------------------------------------------------------------

  /** The record under `name` is not older than a change that it should know of. */
  predicate Knows(i: Info, name: Name, ch: Change) {
    ch.via == Some(name) || ch.stamp < i.lastcheck ==> ch.mark <= i.mtime
  }

  ghost predicate InfosKnow(s: State) {
    forall name, j | name in s.infos && 0 <= j < |s.log| :: Knows(s.infos[name], name, s.log[j])
  }

  ghost predicate LogIsOrdered(s: State) {
    forall j | 0 <= j < |s.log| :: s.log[j].mark <= s.log[j].stamp <= s.mtime
  }

  /** What a listing does not show came later. */
  ghost predicate Later(l: Listing, s: State) {
    l.mtime <= s.now && l.seen <= |s.log| && forall j | l.seen <= j < |s.log| :: l.mtime <= s.log[j].mark
  }

  ghost predicate Inv(s: State) {
    LogIsOrdered(s) && InfosKnow(s) && (s.listing.Some? ==> Later(s.listing.value, s)) &&
    forall name | name in s.infos :: s.infos[name].lastcheck <= s.now
  }

  lemma LookKeeps(c: Config, s: State, name: Name, t: int)
    requires Inv(s) && s.now <= t && s.mtime <= t
    ensures Inv(Look(c, s, name, t))
    ensures forall j | 0 <= j < |s.log| :: Settled(c, s.log[j], name, t) ==>
              s.log[j].mark <= Checked(c, s, name, t).mtime
  {
    var i := Checked(c, s, name, t);
    forall j | 0 <= j < |s.log| ensures Knows(i, name, s.log[j]) {
      assert name in s.infos ==> Knows(s.infos[name], name, s.log[j]);
    }
  }

  lemma InvStep(c: Config, s: State, e: Event)
    requires Inv(s) && Enabled(s, e)
    ensures Inv(Apply(c, s, e))
  {
    match e
    case Modify(name, t, _) => LookKeeps(c, s, name, t);
    case Get(name, t) => LookKeeps(c, s, name, t);
    case Visit(name, t) => LookKeeps(c, s, name, t);
    case _ =>
  }

  lemma {:induction false} InvRun(c: Config, s: State, events: seq<Event>)
    requires Inv(s) && Run(c, s, events)
    ensures Inv(Final(c, s, events))
    decreases |events|
  {
    hide Inv, Apply;
    if events != [] {
      InvStep(c, s, events[0]);
      InvRun(c, Apply(c, s, events[0]), events[1..]);
    }
  }

  // ------------------------------------------------------------------------------------------
  // Which changes a client is shown
  // ------------------------------------------------------------------------------------------

  /** A change that a listing asked for under `name` at time `t` should show: it was made and
    * noted under the same name, or it is as old as a record may get without a new look. */
  predicate Settled(c: Config, ch: Change, name: Name, t: int) {
    ch.via == Some(name) || ch.stamp + c.timeout <= t
  }

  /** Whatever happened before, a listing shows every settled change, except those made in the
    * very second in which the listing was built. */
  lemma Coherent(c: Config, now: int, mtime: int, events: seq<Event>, name: Name, t: int)
    requires Run(c, Start(now, mtime), events)
    requires Enabled(Final(c, Start(now, mtime), events), Get(name, t))
    ensures var s := Apply(c, Final(c, Start(now, mtime), events), Get(name, t));
      s.listing.Some? && s.listing.value.seen <= |s.log| &&
      forall j | 0 <= j < |s.log| :: Settled(c, s.log[j], name, t) ==>
        j < s.listing.value.seen || s.log[j].mark == s.listing.value.mtime
  {
    hide Run, Final;
    InvRun(c, Start(now, mtime), events);
    LookKeeps(c, Final(c, Start(now, mtime), events), name, t);
  }

  /** The listing that is kept shows everything that has happened. */
  predicate UpToDate(s: State) {
    s.listing.Some? && s.listing.value.seen == |s.log|
  }

  /** The listing sent to a request shows everything that had happened before it. */
  predicate ShowsAll(c: Config, s: State, name: Name, t: int) {
    var r := Apply(c, s, Get(name, t));
    r.listing.Some? && r.listing.value.seen == |s.log|
  }

  /** Whether the record for a name is used without a new look at the directory. */
  predicate IsFresh(c: Config, s: State, name: Name, t: int) {
    name in s.infos && t < s.infos[name].lastcheck + c.timeout
  }

  /** The time that a new look at the directory gives its record, at least. */
  function Looked(c: Config, stamp: int, t: int): int {
    if c.directoryMtime then stamp else t
  }

  /** Whenever the listing is up to date: when a change that the server then makes and notes is shown
    * to the very next request for the listing under the same name.  At once, unless the listing was
    * built in the same second; then it has to wait for the next look at the directory. */
  lemma NotedIsShownWhen(c: Config, s: State, name: Name, made: int, stamp: int, t: int)
    requires UpToDate(s)
    requires var e := Modify(name, made, Some(stamp)); Enabled(s, e) && Enabled(Apply(c, s, e), Get(name, t))
    ensures var built := s.listing.value.mtime;
            ShowsAll(c, Apply(c, s, Modify(name, made, Some(stamp))), name, t) <==>
            built < made || (made + c.timeout <= t && built < Looked(c, stamp, t))
  {
  }

  /** Whenever the listing is up to date: when a change that the server does not note, such as a new
    * directory made by a client, is shown to the very next request.  A record that is still fresh hides
    * it, unless that record is younger than the listing anyway. */
  lemma UnnotedIsShownWhen(c: Config, s: State, name: Name, stamp: int, t: int)
    requires UpToDate(s) && Enabled(s, Unnoted(stamp)) && Enabled(Apply(c, s, Unnoted(stamp)), Get(name, t))
    ensures var built := s.listing.value.mtime;
            ShowsAll(c, Apply(c, s, Unnoted(stamp)), name, t) <==>
            built < if IsFresh(c, s, name, t) then s.infos[name].mtime else Looked(c, stamp, t)
  {
  }

  // ------------------------------------------------------------------------------------------
  // With anything in between
  // ------------------------------------------------------------------------------------------

  /** An event that makes the server forget a listing built at `built`: it leaves the cache, or a
    * request for it finds or makes a younger record of the directory. */
  predicate Renews(c: Config, s: State, e: Event, built: int) {
    e == DropListing || (e.Get? && built < Checked(c, s, e.name, e.time).mtime)
  }

  predicate Renewed(c: Config, s: State, events: seq<Event>, built: int)
    decreases |events|
  {
    events != [] && (Renews(c, s, events[0], built) || Renewed(c, Apply(c, s, events[0]), events[1..], built))
  }

  /** No listing is kept that stops before change number `j`. */
  predicate Shown(s: State, j: nat) {
    s.listing.None? || j < s.listing.value.seen
  }

  lemma {:induction false} ShownStays(c: Config, s: State, events: seq<Event>, j: nat)
    requires j < |s.log| && Shown(s, j)
    ensures Shown(Final(c, s, events), j)
    decreases |events|
  {
    if events != [] {
      hide Checked;
      ShownStays(c, Apply(c, s, events[0]), events[1..], j);
    }
  }

  /** A listing that does not show change `j` stays until something renews it. */
  lemma {:induction false} OldStays(c: Config, s: State, events: seq<Event>, j: nat)
    requires j < |s.log| && s.listing.Some? && s.listing.value.seen <= j
    ensures Shown(Final(c, s, events), j) <==> Renewed(c, s, events, s.listing.value.mtime)
    decreases |events|
  {
    if events != [] {
      hide Checked;
      var t := Apply(c, s, events[0]);
      if Renews(c, s, events[0], s.listing.value.mtime) {
        ShownStays(c, t, events[1..], j);
      } else {
        OldStays(c, t, events[1..], j);
      }
    }
  }

  /** A change is made while the listing is up to date; then anything happens, looks and drops and other
    * changes under any names, and at last a client asks for the listing.  It is shown the change if and
    * only if since then the listing was dropped or some request, this one or one before, came with a
    * record younger than the listing. */
  lemma ShownWhen(c: Config, s: State, change: Event, events: seq<Event>, name: Name, t: int)
    requires UpToDate(s) && (change.Unnoted? || (change.Modify? && change.effect.Some?))
    ensures var r := Final(c, Apply(c, s, change), events + [Get(name, t)]);
            && r.listing.Some?
            && (|s.log| < r.listing.value.seen <==>
                Renewed(c, Apply(c, s, change), events + [Get(name, t)], s.listing.value.mtime))
  {
    var u, all := Apply(c, s, change), events + [Get(name, t)];
    OldStays(c, u, all, |s.log|);
    FinalOfTwo(c, u, events, Get(name, t));
  }

  lemma {:induction false} FinalOfTwo(c: Config, s: State, events: seq<Event>, last: Event)
    ensures Final(c, s, events + [last]) == Apply(c, Final(c, s, events), last)
    decreases |events|
  {
    hide Apply;
    var all := events + [last];
    if events == [] {
      assert all == [last] && all[1..] == [];
    } else {
      assert all[1..] == events[1..] + [last];
      FinalOfTwo(c, Apply(c, s, events[0]), events[1..], last);
    }
  }

  /** Nothing is changed or noted: only looks at the directory, and entries that leave the caches. */
  predicate Quiet(events: seq<Event>) {
    forall i :: 0 <= i < |events| ==> !events[i].Modify? && !events[i].Unnoted?
  }

  predicate NothingYounger(s: State, built: int) {
    s.mtime <= built && forall name :: name in s.infos ==> s.infos[name].mtime <= built
  }

  lemma QuietStep(c: Config, s: State, e: Event, built: int)
    requires c.directoryMtime && NothingYounger(s, built) && !e.Modify? && !e.Unnoted?
    ensures NothingYounger(Apply(c, s, e), built)
    ensures Renews(c, s, e, built) <==> e == DropListing
  {
  }

  /** With directory times, a change in the second in which the listing was built is hidden for good: until
    * something else changes it is shown if and only if the listing itself is dropped, however long the
    * wait and however often records are looked up anew. */
  lemma {:induction false} HiddenUntilDropped(c: Config, s: State, events: seq<Event>, built: int)
    requires c.directoryMtime && NothingYounger(s, built) && Quiet(events)
    ensures Renewed(c, s, events, built) <==> DropListing in events
    decreases |events|
  {
    if events != [] {
      QuietStep(c, s, events[0], built);
      hide Apply, Renews, NothingYounger;
      HiddenUntilDropped(c, Apply(c, s, events[0]), events[1..], built);
      assert events == [events[0]] + events[1..];
    }
  }

  // ------------------------------------------------------------------------------------------
  // The server's two caches
  // ------------------------------------------------------------------------------------------

  class Caches {
    const config: Config
    var curTime: int
    var dirstat: map<Name, Info>
    var dirlist: Option<Listing>

    constructor (config: Config, now: int)
      ensures this.config == config && On([], 0) == Start(now, 0)
    {
      this.config := config;
      curTime, dirstat, dirlist := now, map[], None;
    }

    /** The caches beside a directory with these changes and this time. */
    ghost function On(log: seq<Change>, mtime: int): State
      reads this
    {
      State(curTime, log, mtime, dirstat, dirlist)
    }

    /** The cache part of `validate_path`; `stMtime` is the time of the directory.  A record checked not
      * longer ago than the timeout is used as it is; else it was checked now, and has the time of the
      * directory if directory times are used, and the time of the check if not. */
    method ValidatePath(name: Name, stMtime: int, ghost log: seq<Change>)
      modifies this`dirstat
      ensures On(log, stMtime) == Look(config, old(On(log, stMtime)), name, curTime)
      ensures dirstat.Keys == old(dirstat).Keys + {name}
      ensures forall other :: other in old(dirstat) && other != name ==> dirstat[other] == old(dirstat)[other]
      ensures if name in old(dirstat) && curTime - old(dirstat)[name].lastcheck < config.timeout
              then dirstat[name] == old(dirstat)[name]
              else dirstat[name].lastcheck == curTime
                   && dirstat[name].mtime == if config.directoryMtime then stMtime else curTime
    {
      if name in dirstat {
        var di := dirstat[name];
        if di.lastcheck + config.timeout > curTime {
          assert dirstat[name := di] == dirstat;
          return;
        }
        if config.directoryMtime && stMtime == di.mtime {
          dirstat := dirstat[name := di.(lastcheck := curTime)];
          return;
        }
        dirstat := dirstat - {name};
      }
      var mtime := if config.directoryMtime then stMtime else curTime;
      dirstat := dirstat[name := Info(mtime, curTime)];
      assert dirstat == old(dirstat)[name := Info(mtime, curTime)];
    }

    /** `server_get_dir`; `version` tells how many changes the directory has gone through. */
    method ServerGetDir(name: Name, version: nat, ghost log: seq<Change>, ghost mtime: int) returns (dl: Listing)
      requires name in dirstat && version == |log|
      modifies this`dirlist
      ensures dl == Serve(old(On(log, mtime)), name)
      ensures if old(dirlist).Some? && old(dirlist).value.mtime >= dirstat[name].mtime
              then dl == old(dirlist).value else dl.mtime == curTime && dl.seen == version
      ensures On(log, mtime) == old(On(log, mtime)).(listing := Some(dl))
    {
      if dirlist.Some? && dirlist.value.mtime < dirstat[name].mtime {
        dirlist := None;
      }
      if dirlist.None? {
        dirlist := Some(Listing(curTime, version));
      }
      dl := dirlist.value;
    }

    /** What a delete, an install, a grab and a rename do to the record of the directory. */
    method NoteChange(name: Name, ghost log: seq<Change>, ghost mtime: int, ghost effect: Option<int>)
      requires name in dirstat
      modifies this`dirstat
      ensures On(if effect.Some? then log + [Change(curTime, effect.value, Some(name))] else log,
                 if effect.Some? then effect.value else mtime) == Note(old(On(log, mtime)), name, effect)
      ensures dirstat == old(dirstat)[name := Info(curTime, curTime)]
    {
      dirstat := dirstat[name := Info(curTime, curTime)];
    }

    /** A request that deletes a file of the directory, from the path to the record. */
    method DelFile(name: Name, time: int, stMtime: int, ghost log: seq<Change>, ghost stamp: int)
      requires Enabled(On(log, stMtime), Modify(name, time, Some(stamp)))
      modifies this
      ensures On(log + [Change(time, stamp, Some(name))], stamp) ==
              Apply(config, old(On(log, stMtime)), Modify(name, time, Some(stamp)))
    {
      curTime := time;
      ValidatePath(name, stMtime, log);
      NoteChange(name, log, stMtime, Some(stamp));
    }

    /** A request for the listing of the directory. */
    method GetDir(name: Name, time: int, stMtime: int, version: nat, ghost log: seq<Change>) returns (dl: Listing)
      requires Enabled(On(log, stMtime), Get(name, time)) && version == |log|
      modifies this
      ensures On(log, stMtime) == Apply(config, old(On(log, stMtime)), Get(name, time))
      ensures dirlist == Some(dl)
    {
      curTime := time;
      ValidatePath(name, stMtime, log);
      dl := ServerGetDir(name, version, log, stMtime);
    }
  }
}
