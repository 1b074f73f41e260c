/** The playback position that spirc keeps and the one it reports to Spotify
    (connect/src/spirc.rs, connect/src/state.rs).

    Times and positions are milliseconds; each handler takes its one reading of the clock as a
    parameter, and nothing is assumed about how the clock moves. */
module Playback {
  import opened Wrappers

  const U32_LIMIT: nat := 0x1_0000_0000

  type u32 = n: nat | n < U32_LIMIT

  /** A 64-bit difference cast with `as u32`. */
  function AsU32(n: int): u32 {
    n % U32_LIMIT
  }

  function Abs(n: int): nat {
    if n < 0 then -n else n
  }

  datatype PlayStatus =
    | Stopped
    | LoadingPlay(positionMs: u32)
    | LoadingPause(positionMs: u32)
    | Playing(nominalStartTime: int, preloading: bool)
    | Paused(positionMs: u32, preloading: bool)

  /** The fields of the player message that describe playback. */
  datatype Player = Player(
    positionAsOfTimestamp: int,
    timestamp: int,
    duration: int,
    isPlaying: bool,
    isPaused: bool,
    isBuffering: bool,
    playbackSpeed: int)
  {
    /** The position a remote device shows at `now`. */
    function Shown(now: int): int {
      positionAsOfTimestamp + playbackSpeed * (now - timestamp)
    }
  }

  datatype State = State(status: PlayStatus, player: Player, updateState: bool)

  datatype Event =
    | Play
    | Pause
    | PlayPause
    | Seek(positionMs: u32)
    | Notify
    | PlayerPlaying(positionMs: u32)
    | PlayerPaused(positionMs: u32)
    | PlayerStopped
    | PlayerLoading
    | PlayerSeeked(positionMs: u32)

  // ----- What each handler does

  function At(p: Player, positionMs: int, now: int): Player {
    p.(positionAsOfTimestamp := positionMs, timestamp := now)
  }

  function WithStatus(p: Player, status: PlayStatus): Player {
    var paused := status.LoadingPause? || status.Paused? || status.Stopped?;
    p.(isPaused := paused,
       playbackSpeed := if paused then 0 else 1,
       isBuffering := paused || status.LoadingPause? || status.LoadingPlay?,
       isPlaying := paused || status.LoadingPlay? || status.Playing?)
  }

  function Resumed(s: State, now: int): State {
    match s.status
    case Paused(p, pre) => s.(status := Playing(now - p, pre), player := At(s.player, p, now))
    case LoadingPause(p) => s.(status := LoadingPlay(p))
    case _ => s
  }

  function Suspended(s: State, now: int): State {
    match s.status
    case Playing(start, pre) =>
      s.(status := Paused(AsU32(now - start), pre), player := At(s.player, AsU32(now - start), now))
    case LoadingPlay(p) => s.(status := LoadingPause(p))
    case _ => s
  }

  function Step(s: State, e: Event, now: int): State {
    match e
    case Play => Resumed(s, now)
    case Pause => Suspended(s, now)
    case PlayPause => if s.status.Paused? || s.status.LoadingPause? then Resumed(s, now) else Suspended(s, now)
    case Seek(p) =>
      if p > s.player.duration then s else
        var moved := s.(player := At(s.player, p, now));
        (match s.status
         case Stopped => moved
         case LoadingPause(_) => moved.(status := LoadingPause(p))
         case LoadingPlay(_) => moved.(status := LoadingPlay(p))
         case Paused(_, pre) => moved.(status := Paused(p, pre))
         case Playing(_, pre) => moved.(status := Playing(now - p, pre)))
    case Notify =>
      var flagged := WithStatus(s.player, s.status);
      s.(player := if flagged.isPlaying && !flagged.isPaused
                   then At(flagged, flagged.positionAsOfTimestamp + (now - flagged.timestamp), now)
                   else flagged)
    case PlayerPlaying(p) =>
      (match s.status
       case Playing(start, pre) =>
         if Abs(start - (now - p)) > 100
         then State(Playing(now - p, pre), At(s.player, p, now), true)
         else s
       case LoadingPlay(_) => State(Playing(now - p, false), At(s.player, p, now), true)
       case LoadingPause(_) => State(Playing(now - p, false), At(s.player, p, now), true)
       case _ => s)
    case PlayerPaused(p) =>
      if s.status.Stopped? then s else State(Paused(p, false), At(s.player, p, now), true)
    case PlayerStopped =>
      if s.status.Stopped? then s else s.(status := Stopped, updateState := true)
    case PlayerLoading =>
      (match s.status
       case LoadingPlay(p) => s.(player := At(s.player, p, now), updateState := true)
       case LoadingPause(p) => s.(player := At(s.player, p, now), updateState := true)
       case _ => s.(player := At(s.player, 0, now), updateState := true))
    case PlayerSeeked(p) => s.(player := At(s.player, p, now), updateState := true)
  }

  /** `SpircTask::position` before its cast to 32 bits. */
  function Own(status: PlayStatus, now: int): int {
    match status
    case Stopped => 0
    case LoadingPlay(p) => p
    case LoadingPause(p) => p
    case Paused(p, _) => p
    case Playing(start, _) => now - start
  }

  /** `SpircTask::position`. */
  function Position(status: PlayStatus, now: int): u32 {
    AsU32(Own(status, now))
  }

  /** The reported position, extrapolated from its timestamp while playing. */
  function Reported(s: State, now: int): int {
    s.player.positionAsOfTimestamp + if s.status.Playing? then now - s.player.timestamp else 0
  }

  // ----- The reported position and spirc's own

  predicate Active(status: PlayStatus) {
    status.Playing? || status.Paused?
  }

  /** How far the reported position is ahead of spirc's own while playing or paused. */
  function Drift(s: State): int {
    match s.status
    case Playing(start, _) => s.player.positionAsOfTimestamp - s.player.timestamp + start
    case Paused(p, _) => s.player.positionAsOfTimestamp - p
    case _ => 0
  }

  predicate InSync(s: State) {
    Drift(s) == 0
  }

  /** The drift is the same at every time. In sync, the two positions are equal exactly as far as the
      32-bit cast does not wrap around. */
  lemma InSyncMeans(s: State, now: int)
    requires Active(s.status)
    ensures Reported(s, now) == Own(s.status, now) + Drift(s)
    ensures InSync(s) ==>
      (Reported(s, now) == Position(s.status, now) <==> 0 <= Own(s.status, now) < U32_LIMIT)
  {
  }

  /** The position that a `Loading` or `Seeked` event of the player announces while one is playing or
      paused: these events rewrite only the reported position. */
  function Announced(e: Event): int
    requires Announces(e)
  {
    if e.PlayerSeeked? then e.positionMs else 0
  }

  predicate Announces(e: Event) {
    e.PlayerLoading? || e.PlayerSeeked?
  }

  /** How far an announced position is ahead of the one that spirc has. */
  function Error(s: State, e: Event, now: int): int
    requires Announces(e)
  {
    if Active(s.status) then Announced(e) - Own(s.status, now) else 0
  }

  /** Announcements make their error the drift; all other events leave the drift or set it to zero. */
  lemma EventsMoveDrift(s: State, e: Event, now: int)
    ensures Announces(e) ==> Drift(Step(s, e, now)) == Error(s, e, now)
    ensures !Announces(e) ==> Drift(Step(s, e, now)) == Drift(s) || InSync(Step(s, e, now))
  {
  }

  // ----- Whole runs

  datatype Timed = Timed(event: Event, now: int)

  function Run(s: State, events: seq<Timed>): State {
    if events == [] then s else
      var last := events[|events| - 1];
      Step(Run(s, events[..|events| - 1]), last.event, last.now)
  }

  ghost predicate InSyncThroughout(s: State, events: seq<Timed>) {
    InSync(Run(s, events)) && (events != [] ==> InSyncThroughout(s, events[..|events| - 1]))
  }

  /** Every announcement in the run is of the position that spirc has at that moment. */
  ghost predicate AllAccurate(s: State, events: seq<Timed>) {
    events != [] ==>
      var front, last := events[..|events| - 1], events[|events| - 1];
      && AllAccurate(s, front)
      && (Announces(last.event) ==> Error(Run(s, front), last.event, last.now) == 0)
  }

  /** A run keeps the two positions in sync, after each of its events and whatever the clock does,
      exactly when all its announcements are accurate. */
  lemma {:induction false} RunsStayInSyncExactly(s: State, events: seq<Timed>)
    requires InSync(s)
    ensures InSyncThroughout(s, events) <==> AllAccurate(s, events)
  {
    if events == [] {
    } else {
      var front, last := events[..|events| - 1], events[|events| - 1];
      RunsStayInSyncExactly(s, front);
      EventsMoveDrift(Run(s, front), last.event, last.now);
    }
  }

  /** The `i`-th event of the run is an announcement, no later one is, and the drift is its error. */
  ghost predicate IsLastError(s: State, events: seq<Timed>, i: nat, drift: int) {
    && i < |events| && Announces(events[i].event)
    && drift == Error(Run(s, events[..i]), events[i].event, events[i].now)
    && forall k :: i < k < |events| ==> !Announces(events[k].event)
  }

  lemma OneMoreEvent(s: State, events: seq<Timed>, i: nat, drift: int)
    requires events != [] && !Announces(events[|events| - 1].event)
    requires IsLastError(s, events[..|events| - 1], i, drift)
    ensures IsLastError(s, events, i, drift)
  {
    assert events[..|events| - 1][..i] == events[..i];
  }

  /** Where drift comes from: it is the error of the last announcement of the run, or, if there was
      none, the drift from before. Nothing else adds to it. */
  lemma {:induction false} DriftIsTheLastError(s: State, events: seq<Timed>) returns (at: Option<nat>)
    requires !InSync(Run(s, events))
    ensures at.Some? ==> IsLastError(s, events, at.value, Drift(Run(s, events)))
    ensures at.None? ==>
      Drift(Run(s, events)) == Drift(s) && forall k :: 0 <= k < |events| ==> !Announces(events[k].event)
  {
    if events == [] {
      at := None;
    } else {
      var front, last := events[..|events| - 1], events[|events| - 1];
      EventsMoveDrift(Run(s, front), last.event, last.now);
      if Announces(last.event) {
        at := Some(|events| - 1);
      } else {
        at := DriftIsTheLastError(s, front);
        if at.Some? {
          OneMoreEvent(s, events, at.value, Drift(Run(s, front)));
        }
      }
    }
  }

  /** What remote devices show after a notification: spirc's position off by the drift. */
  lemma NotifiedShows(s: State, sent: int, now: int)
    ensures var told := Step(s, Notify, sent);
      Active(told.status) ==>
        && told.player.Shown(now) == Own(told.status, now) + Drift(s)
        && (InSync(s) ==>
            (told.player.Shown(now) == Position(told.status, now) <==> 0 <= Own(told.status, now) < U32_LIMIT))
  {
  }

  /** After a notification at any point of any run, what remote devices show at a later time is spirc's
      position off by the drift. If all announcements were accurate it is exactly spirc's position at
      every time at which the 32-bit cast does not wrap around. */
  lemma NotifiedDevicesAgree(s: State, events: seq<Timed>, sent: int, now: int)
    ensures var before, told := Run(s, events), Step(Run(s, events), Notify, sent);
      Active(told.status) ==>
        && told.player.Shown(now) == Own(told.status, now) + Drift(before)
        && (InSync(s) && AllAccurate(s, events) ==>
            (told.player.Shown(now) == Position(told.status, now) <==> 0 <= Own(told.status, now) < U32_LIMIT))
  {
    NotifiedShows(Run(s, events), sent, now);
    if InSync(s) && AllAccurate(s, events) {
      RunsStayInSyncExactly(s, events);
    }
  }

  /** Playing from the start of a track of three minutes, in sync. */
  const FROM_START: State :=
    State(Playing(0, false), Player(0, 0, 180_000, true, false, false, 1), false)

  /** An instance: a seek while playing, and the `Seeked` event for it some time later. The reported
      position then lags behind by that time. */
  lemma LateSeekedLags(delay: nat)
    ensures InSync(FROM_START)
    ensures var seek, seeked := Timed(Seek(60_000), 1_000), Timed(PlayerSeeked(60_000), 1_000 + delay);
      Drift(Run(FROM_START, [seek, seeked])) == 0 - delay
  {
    var events := [Timed(Seek(60_000), 1_000), Timed(PlayerSeeked(60_000), 1_000 + delay)];
    assert events[..1][..0] == [] && events[..1][0] == events[0];
    assert Run(FROM_START, events[..1]) == Step(Run(FROM_START, events[..1][..0]), Seek(60_000), 1_000);
    EventsMoveDrift(Run(FROM_START, events[..1]), events[1].event, events[1].now);
  }

  /** An instance: 2^32 ms after the start without a correction spirc's position is zero again. */
  lemma LongPlayWraps()
    ensures InSync(FROM_START)
    ensures Reported(FROM_START, U32_LIMIT) == U32_LIMIT && Position(FROM_START.status, U32_LIMIT) == 0
  {
  }

  // ----- What moves the position

  /** By how much an event moves spirc's own position at the moment it happens. */
  function Jump(s: State, e: Event, now: int): int {
    match e
    case Seek(p) => if s.status.Stopped? || p > s.player.duration then 0 else p - Own(s.status, now)
    case PlayerPlaying(p) =>
      var off := p - Own(s.status, now);
      if s.status.LoadingPlay? || s.status.LoadingPause? || (s.status.Playing? && Abs(off) > 100) then off else 0
    case PlayerPaused(p) => if s.status.Stopped? then 0 else p - Own(s.status, now)
    case PlayerStopped => -Own(s.status, now)
    case _ => 0
  }

  function Jumps(s: State, events: seq<Timed>): int {
    if events == [] then 0 else
      var front, last := events[..|events| - 1], events[|events| - 1];
      Jumps(s, front) + Jump(Run(s, front), last.event, last.now)
  }

  /** The time the status was `Playing`, from `from` through the events. */
  function Played(s: State, events: seq<Timed>, from: int): int {
    if events == [] then 0 else
      var front, last := events[..|events| - 1], events[|events| - 1];
      Played(s, front, from) +
      if Run(s, front).status.Playing? then last.now - LastTime(front, from) else 0
  }

  function LastTime(events: seq<Timed>, from: int): int {
    if events == [] then from else events[|events| - 1].now
  }

  lemma Wrapped(a: int, b: int, wraps: int)
    requires a == b + wraps * U32_LIMIT
    ensures AsU32(a) == AsU32(b)
  {
  }

  /** Between events the position advances while playing; at an event it jumps. */
  function MovedBy(s: State, e: Event, before: int, now: int): int {
    (if s.status.Playing? then now - before else 0) + Jump(s, e, now)
  }

  /** Only pausing casts the position, which drops multiples of 2^32. */
  lemma PositionStep(s: State, e: Event, before: int, now: int) returns (wraps: int)
    ensures Own(Step(s, e, now).status, now) ==
      Own(s.status, before) + MovedBy(s, e, before, now) + wraps * U32_LIMIT
  {
    wraps := if s.status.Playing? && (e.Pause? || e.PlayPause?) then -(Own(s.status, now) / U32_LIMIT) else 0;
  }

  lemma {:induction false} OwnIsConserved(s: State, events: seq<Timed>, from: int) returns (wraps: int)
    ensures Own(Run(s, events).status, LastTime(events, from)) ==
      Own(s.status, from) + Played(s, events, from) + Jumps(s, events) + wraps * U32_LIMIT
  {
    if events == [] {
      wraps := 0;
    } else {
      var front, last := events[..|events| - 1], events[|events| - 1];
      var earlier := OwnIsConserved(s, front, from);
      var more := PositionStep(Run(s, front), last.event, LastTime(front, from), last.now);
      wraps := earlier + more;
    }
  }

  /** Conservation: over any run, the position is where it was, plus the time spent playing, plus the
      jumps. Pausing, resuming, reporting and announcements do not move it. */
  lemma PositionIsConserved(s: State, events: seq<Timed>, from: int)
    ensures Position(Run(s, events).status, LastTime(events, from)) ==
      AsU32(Own(s.status, from) + Played(s, events, from) + Jumps(s, events))
  {
    var wraps := OwnIsConserved(s, events, from);
    Wrapped(Own(Run(s, events).status, LastTime(events, from)),
            Own(s.status, from) + Played(s, events, from) + Jumps(s, events), wraps);
  }

  predicate MayJump(e: Event) {
    e.Seek? || e.PlayerPlaying? || e.PlayerPaused? || e.PlayerStopped?
  }

  /** However often playback is paused, resumed and reported, the position is where it was plus the
      time spent playing. */
  lemma {:induction false} TogglesConservePosition(s: State, events: seq<Timed>, from: int)
    requires forall i :: 0 <= i < |events| ==> !MayJump(events[i].event)
    ensures Jumps(s, events) == 0
    ensures Position(Run(s, events).status, LastTime(events, from)) ==
      AsU32(Own(s.status, from) + Played(s, events, from))
  {
    if events == [] {
    } else {
      TogglesConservePosition(s, events[..|events| - 1], from);
    }
    PositionIsConserved(s, events, from);
  }

  lemma {:induction false} RunConcat(s: State, a: seq<Timed>, b: seq<Timed>)
    ensures Run(s, a + b) == Run(Run(s, a), b)
    decreases |b|
  {
    if b == [] {
      assert a + b == a;
    } else {
      RunConcat(s, a, b[..|b| - 1]);
      assert (a + b)[..|a + b| - 1] == a + b[..|b| - 1];
    }
  }

  /** A report that leaves the status playing leaves spirc's own position at most 100 ms off. */
  lemma ReportIsTaken(s: State, p: u32, at: int)
    requires Step(s, PlayerPlaying(p), at).status.Playing?
    ensures Abs(Own(Step(s, PlayerPlaying(p), at).status, at) - p) <= 100
  {
  }

  /** From a report of the player that it plays at a position until the next report, seek or stop of any
      run, spirc's own position is the reported one plus the time played since, at most 100 ms off. */
  lemma WithinToleranceSince(s: State, before: seq<Timed>, p: u32, at: int, since: seq<Timed>) returns (off: int)
    requires Step(Run(s, before), PlayerPlaying(p), at).status.Playing?
    requires forall i :: 0 <= i < |since| ==> !MayJump(since[i].event)
    ensures Abs(off) <= 100
    ensures var reported := Step(Run(s, before), PlayerPlaying(p), at);
      Position(Run(s, before + [Timed(PlayerPlaying(p), at)] + since).status, LastTime(since, at)) ==
      AsU32(p + Played(reported, since, at) + off)
  {
    var report := Timed(PlayerPlaying(p), at);
    RunConcat(s, before + [report], since);
    RunOneMore(s, before, report);
    ReportIsTaken(Run(s, before), p, at);
    off := PlayedSince(Step(Run(s, before), report.event, at), p, at, since);
  }

  lemma RunOneMore(s: State, before: seq<Timed>, last: Timed)
    ensures Run(s, before + [last]) == Step(Run(s, before), last.event, last.now)
  {
    assert (before + [last])[..|before|] == before;
  }

  lemma PlayedSince(s: State, p: u32, at: int, since: seq<Timed>) returns (off: int)
    requires forall i :: 0 <= i < |since| ==> !MayJump(since[i].event)
    ensures off == Own(s.status, at) - p
    ensures Position(Run(s, since).status, LastTime(since, at)) == AsU32(p + Played(s, since, at) + off)
  {
    off := Own(s.status, at) - p;
    TogglesConservePosition(s, since, at);
    assert p + Played(s, since, at) + off == Own(s.status, at) + Played(s, since, at);
  }

  ghost predicate OnlyToggles(events: seq<Timed>) {
    forall i :: 0 <= i < |events| ==> events[i].event.PlayPause?
  }

  /** Any number of toggles: the status alternates, and what it says besides the position is kept. */
  lemma {:induction false} TogglesAlternate(s: State, events: seq<Timed>)
    requires OnlyToggles(events)
    ensures var r, even := Run(s, events).status, |events| % 2 == 0;
      match s.status
      case Stopped => r == Stopped
      case LoadingPlay(p) => r == if even then LoadingPlay(p) else LoadingPause(p)
      case LoadingPause(p) => r == if even then LoadingPause(p) else LoadingPlay(p)
      case Playing(_, pre) => if even then r.Playing? && r.preloading == pre else r.Paused? && r.preloading == pre
      case Paused(_, pre) => if even then r.Paused? && r.preloading == pre else r.Playing? && r.preloading == pre
  {
    if events == [] {
    } else {
      TogglesAlternate(s, events[..|events| - 1]);
    }
  }

  predicate IsPlayerEvent(e: Event) {
    e.PlayerPlaying? || e.PlayerPaused? || e.PlayerStopped? || e.PlayerLoading? || e.PlayerSeeked?
  }

  /** Any number of player events that do not ask for a notification leave the whole state as it was. */
  lemma {:induction false} QuietRunsChangeNothing(s: State, events: seq<Timed>)
    requires forall i :: 0 <= i < |events| ==> IsPlayerEvent(events[i].event)
    requires !Run(s, events).updateState
    ensures Run(s, events) == s
  {
    if events == [] {
    } else {
      QuietRunsChangeNothing(s, events[..|events| - 1]);
    }
  }

  // ----- The objects that hold the state

  class ConnectState {
    var player: Player

    constructor (initial: Player)
      ensures player == initial
    {
      player := initial;
    }

    method UpdatePosition(positionMs: u32, timestamp: int)
      modifies this
      ensures player == At(old(player), positionMs, timestamp)
    {
      player := player.(positionAsOfTimestamp := positionMs, timestamp := timestamp);
    }

    method UpdatePositionInRelation(timestamp: int)
      modifies this
      ensures player ==
        At(old(player), old(player).positionAsOfTimestamp + (timestamp - old(player).timestamp), timestamp)
      ensures forall now :: player.playbackSpeed == 1 ==> player.Shown(now) == old(player).Shown(now)
    {
      var diff := timestamp - player.timestamp;
      player := player.(positionAsOfTimestamp := player.positionAsOfTimestamp + diff);
      player := player.(timestamp := timestamp);
    }

    method SetStatus(status: PlayStatus)
      modifies this
      ensures player == WithStatus(old(player), status)
    {
      player := player.(isPaused := status.LoadingPause? || status.Paused? || status.Stopped?);
      if player.isPaused {
        player := player.(playbackSpeed := 0);
      } else {
        player := player.(playbackSpeed := 1);
      }
      player := player.(isBuffering := player.isPaused || status.LoadingPause? || status.LoadingPlay?);
      player := player.(isPlaying := player.isPaused || status.LoadingPlay? || status.Playing?);
    }

    predicate IsPlaying()
      reads this
    {
      player.isPlaying && !player.isPaused
    }
  }

  class SpircTask {
    const connectState: ConnectState
    var playStatus: PlayStatus
    var updateState: bool

    ghost function View(): State
      reads this, connectState
    {
      State(playStatus, connectState.player, updateState)
    }

    constructor (connect: ConnectState)
      ensures connectState == connect && View() == State(Stopped, connect.player, false)
    {
      connectState, playStatus, updateState := connect, Stopped, false;
    }

    method HandlePlay(now: int)
      modifies this, connectState
      ensures View() == Step(old(View()), Play, now)
    {
      match playStatus {
        case Paused(positionMs, preloading) =>
          connectState.UpdatePosition(positionMs, now);
          playStatus := Playing(now - positionMs, preloading);
        case LoadingPause(positionMs) =>
          playStatus := LoadingPlay(positionMs);
        case _ => return;
      }
    }

    method HandlePause(now: int)
      modifies this, connectState
      ensures View() == Step(old(View()), Pause, now)
    {
      match playStatus {
        case Playing(nominalStartTime, preloading) =>
          var positionMs := AsU32(now - nominalStartTime);
          connectState.UpdatePosition(positionMs, now);
          playStatus := Paused(positionMs, preloading);
        case LoadingPlay(positionMs) =>
          playStatus := LoadingPause(positionMs);
        case _ =>
      }
    }

    method HandlePlayPause(now: int)
      modifies this, connectState
      ensures View() == Step(old(View()), PlayPause, now)
    {
      match playStatus {
        case Paused(_, _) => HandlePlay(now);
        case LoadingPause(_) => HandlePlay(now);
        case Playing(_, _) => HandlePause(now);
        case LoadingPlay(_) => HandlePause(now);
        case _ =>
      }
    }

    method HandleSeek(positionMs: u32, now: int)
      modifies this, connectState
      ensures View() == Step(old(View()), Seek(positionMs), now)
    {
      if positionMs > connectState.player.duration {
        return;
      }
      connectState.UpdatePosition(positionMs, now);
      match playStatus {
        case Stopped =>
        case LoadingPause(_) => playStatus := LoadingPause(positionMs);
        case LoadingPlay(_) => playStatus := LoadingPlay(positionMs);
        case Paused(_, preloading) => playStatus := Paused(positionMs, preloading);
        case Playing(_, preloading) => playStatus := Playing(now - positionMs, preloading);
      }
    }

    method Notify(now: int)
      modifies connectState
      ensures View() == Step(old(View()), Event.Notify, now)
    {
      connectState.SetStatus(playStatus);
      if connectState.IsPlaying() {
        connectState.UpdatePositionInRelation(now);
      }
    }

    /** The `Playing` and `PositionCorrection` arms of `handle_player_event`. */
    method OnPlaying(positionMs: u32, now: int)
      modifies this, connectState
      ensures View() == Step(old(View()), PlayerPlaying(positionMs), now)
    {
      var newNominalStartTime := now - positionMs;
      match playStatus {
        case Playing(nominalStartTime, preloading) =>
          if Abs(nominalStartTime - newNominalStartTime) > 100 {
            playStatus := Playing(newNominalStartTime, preloading);
            connectState.UpdatePosition(positionMs, now);
          } else {
            return;
          }
        case LoadingPlay(_) =>
          connectState.UpdatePosition(positionMs, now);
          playStatus := Playing(newNominalStartTime, false);
        case LoadingPause(_) =>
          connectState.UpdatePosition(positionMs, now);
          playStatus := Playing(newNominalStartTime, false);
        case _ => return;
      }
      updateState := true;
    }

    /** The `Paused` arm of `handle_player_event`. */
    method OnPaused(newPositionMs: u32, now: int)
      modifies this, connectState
      ensures View() == Step(old(View()), PlayerPaused(newPositionMs), now)
    {
      match playStatus {
        case Stopped => return;
        case _ =>
          connectState.UpdatePosition(newPositionMs, now);
          playStatus := Paused(newPositionMs, false);
      }
      updateState := true;
    }

    /** The `Stopped`, `Loading` and `Seeked` arms of `handle_player_event`. */
    method OnOther(e: Event, now: int)
      requires e.PlayerStopped? || e.PlayerLoading? || e.PlayerSeeked?
      modifies this, connectState
      ensures View() == Step(old(View()), e, now)
    {
      match e {
        case PlayerStopped =>
          if playStatus.Stopped? {
            return;
          }
          playStatus := Stopped;
        case PlayerLoading =>
          match playStatus {
            case LoadingPlay(positionMs) => connectState.UpdatePosition(positionMs, now);
            case LoadingPause(positionMs) => connectState.UpdatePosition(positionMs, now);
            case _ => connectState.UpdatePosition(0, now);
          }
        case PlayerSeeked(positionMs) => connectState.UpdatePosition(positionMs, now);
      }
      updateState := true;
    }
  }
}
