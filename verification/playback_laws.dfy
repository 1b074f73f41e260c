/** Which status a run of playback events leads to, what remote devices are told, and what each event
    does to the position (connect/src/spirc.rs, connect/src/state.rs). */
module PlaybackLaws {
  import opened Playback

  // ----- Which status it is

  /** The same status with the same preloading flag, whatever the position. */
  predicate SameKind(a: PlayStatus, b: PlayStatus) {
    match a
    case Stopped => b.Stopped?
    case LoadingPlay(_) => b.LoadingPlay?
    case LoadingPause(_) => b.LoadingPause?
    case Playing(_, pre) => b.Playing? && b.preloading == pre
    case Paused(_, pre) => b.Paused? && b.preloading == pre
  }

  predicate KeepsKind(e: Event) {
    e.Seek? || e.Notify? || e.PlayerLoading? || e.PlayerSeeked?
  }

  /** Over any run of seeks, notifications and `Loading` and `Seeked` events it stays the same status. */
  lemma {:induction false} KindIsKept(s: State, events: seq<Timed>)
    requires forall i :: 0 <= i < |events| ==> KeepsKind(events[i].event)
    ensures SameKind(s.status, Run(s, events).status)
  {
    if events == [] {
    } else {
      var n := |events| - 1;
      KindIsKept(s, events[..n]);
      assert KeepsKind(events[n].event);
    }
  }

  lemma KindAfterEvent(s: State, e: Event, now: int)
    ensures var was, r := s.status, Step(s, e, now).status;
      match e
      case Play =>
        if was.Paused? then r.Playing? && r.preloading == was.preloading
        else if was.LoadingPause? then r.LoadingPlay? else r == was
      case Pause =>
        if was.Playing? then r.Paused? && r.preloading == was.preloading
        else if was.LoadingPlay? then r.LoadingPause? else r == was
      case PlayPause =>
        if was.Paused? then r.Playing? && r.preloading == was.preloading
        else if was.Playing? then r.Paused? && r.preloading == was.preloading
        else if was.LoadingPause? then r.LoadingPlay?
        else if was.LoadingPlay? then r.LoadingPause? else r == was
      case PlayerPlaying(_) =>
        if was.LoadingPlay? || was.LoadingPause? then r.Playing? && !r.preloading else SameKind(was, r)
      case PlayerPaused(_) => if was.Stopped? then r.Stopped? else r.Paused? && !r.preloading
      case PlayerStopped => r.Stopped?
      case _ => SameKind(was, r)
  {
  }

  /** The status at any point of any run: what the last play, pause, toggle or `Playing`, `Paused` or
      `Stopped` event of the player made of the one before it; nothing else changes which one it is. */
  lemma StatusAfter(s: State, before: seq<Timed>, e: Event, at: int, since: seq<Timed>)
    requires forall i :: 0 <= i < |since| ==> KeepsKind(since[i].event)
    ensures var was, r := Run(s, before).status, Run(s, before + [Timed(e, at)] + since).status;
      match e
      case Play =>
        if was.Paused? then r.Playing? && r.preloading == was.preloading
        else if was.LoadingPause? then r.LoadingPlay? else SameKind(was, r)
      case Pause =>
        if was.Playing? then r.Paused? && r.preloading == was.preloading
        else if was.LoadingPlay? then r.LoadingPause? else SameKind(was, r)
      case PlayPause =>
        if was.Paused? then r.Playing? && r.preloading == was.preloading
        else if was.Playing? then r.Paused? && r.preloading == was.preloading
        else if was.LoadingPause? then r.LoadingPlay?
        else if was.LoadingPlay? then r.LoadingPause? else r.Stopped?
      case PlayerPlaying(_) =>
        if was.LoadingPlay? || was.LoadingPause? then r.Playing? && !r.preloading else SameKind(was, r)
      case PlayerPaused(_) => if was.Stopped? then r.Stopped? else r.Paused? && !r.preloading
      case PlayerStopped => r.Stopped?
      case _ => SameKind(was, r)
  {
    var mid := Step(Run(s, before), e, at);
    RunConcat(s, before + [Timed(e, at)], since);
    RunOneMore(s, before, Timed(e, at));
    KindAfterEvent(Run(s, before), e, at);
    KindIsKept(mid, since);
  }

  // ----- What remote devices are told

  /** After a notification at any point of any run: paused, with speed zero, exactly for the three
      statuses that do not play; buffering for all but `Playing`; and always playing or paused. */
  lemma ToldStatus(s: State, events: seq<Timed>, now: int)
    ensures var told := Run(s, events + [Timed(Notify, now)]);
      var p := told.player;
      && told.status == Run(s, events).status && told.updateState == Run(s, events).updateState
      && (p.isPaused <==> told.status.Paused? || told.status.LoadingPause? || told.status.Stopped?)
      && p.playbackSpeed == (if p.isPaused then 0 else 1)
      && (p.isBuffering <==> !told.status.Playing?)
      && p.isPlaying
  {
    RunOneMore(s, events, Timed(Notify, now));
  }

  predicate SameFlags(p: Player, r: Player) {
    && r.isPaused == p.isPaused && r.isPlaying == p.isPlaying && r.isBuffering == p.isBuffering
    && r.playbackSpeed == p.playbackSpeed && r.duration == p.duration
  }

  lemma FlagsKeptByEvent(s: State, e: Event, now: int)
    requires !e.Notify?
    ensures SameFlags(s.player, Step(s, e, now).player)
  {
  }

  /** Only a notification changes what devices are told besides the position. */
  lemma {:induction false} FlagsAreKept(s: State, events: seq<Timed>)
    requires forall i :: 0 <= i < |events| ==> !events[i].event.Notify?
    ensures SameFlags(s.player, Run(s, events).player)
  {
    if events == [] {
    } else {
      var n := |events| - 1;
      FlagsAreKept(s, events[..n]);
      FlagsKeptByEvent(Run(s, events[..n]), events[n].event, events[n].now);
    }
  }

  // ----- Positions

  /** `position` for each status: the time since the nominal start, cast to 32 bits, or what is stored. */
  lemma PositionExactly(s: State, events: seq<Timed>, now: int)
    ensures var status := Run(s, events).status;
      Position(status, now) ==
        match status
        case Playing(start, _) => (now - start) % 0x1_0000_0000
        case Paused(p, _) => p
        case LoadingPlay(p) => p
        case LoadingPause(p) => p
        case Stopped => 0
  {
  }

  predicate ReportsPosition(p: Player, positionMs: int, now: int) {
    p.positionAsOfTimestamp == positionMs && p.timestamp == now
  }

  ghost predicate IsSought(was: State, p: u32, now: int, r: State) {
    if p <= was.player.duration then
      && ReportsPosition(r.player, p, now) && r.updateState == was.updateState
      && (!was.status.Stopped? ==> Own(r.status, now) == p)
    else r == was
  }

  lemma SeekMovesAtOnce(s: State, p: u32, now: int)
    ensures IsSought(s, p, now, Step(s, Seek(p), now))
  {
  }

  /** A seek within the duration moves both positions there; one beyond it changes nothing at all. */
  lemma SeekMoves(s: State, before: seq<Timed>, p: u32, now: int)
    ensures IsSought(Run(s, before), p, now, Run(s, before + [Timed(Seek(p), now)]))
  {
    RunOneMore(s, before, Timed(Seek(p), now));
    SeekMovesAtOnce(Run(s, before), p, now);
  }

  ghost predicate TakesPlaying(was: State, p: u32, now: int, r: State) {
    var off := p - Own(was.status, now);
    if was.status.LoadingPlay? || was.status.LoadingPause? || (was.status.Playing? && (off > 100 || off < -100)) then
      ReportsPosition(r.player, p, now) && r.updateState && Own(r.status, now) == p
    else r == was
  }

  lemma PlayingReportsAtOnce(s: State, p: u32, now: int)
    ensures TakesPlaying(s, p, now, Step(s, PlayerPlaying(p), now))
  {
  }

  /** `Playing` reports are taken while loading and when they are more than 100 ms off; others, and those
      that come while paused or stopped, change nothing at all. */
  lemma PlayingReports(s: State, before: seq<Timed>, p: u32, now: int)
    ensures TakesPlaying(Run(s, before), p, now, Run(s, before + [Timed(PlayerPlaying(p), now)]))
  {
    RunOneMore(s, before, Timed(PlayerPlaying(p), now));
    PlayingReportsAtOnce(Run(s, before), p, now);
  }

  ghost predicate TakesPaused(was: State, p: u32, now: int, r: State) {
    if was.status.Stopped? then r == was
    else ReportsPosition(r.player, p, now) && r.updateState && Own(r.status, now) == p
  }

  lemma PausedReportsAtOnce(s: State, p: u32, now: int)
    ensures TakesPaused(s, p, now, Step(s, PlayerPaused(p), now))
  {
  }

  /** `Paused` reports are taken unless stopped. */
  lemma PausedReports(s: State, before: seq<Timed>, p: u32, now: int)
    ensures TakesPaused(Run(s, before), p, now, Run(s, before + [Timed(PlayerPaused(p), now)]))
  {
    RunOneMore(s, before, Timed(PlayerPaused(p), now));
    PausedReportsAtOnce(Run(s, before), p, now);
  }

  ghost predicate IsAnnounced(was: State, e: Event, now: int, r: State)
    requires e.PlayerLoading? || e.PlayerSeeked?
  {
    && r.status == was.status && r.updateState
    && ReportsPosition(r.player,
         if e.PlayerSeeked? then e.positionMs
         else if was.status.LoadingPlay? || was.status.LoadingPause? then was.status.positionMs else 0, now)
  }

  lemma AnnouncementsAtOnce(s: State, e: Event, now: int)
    requires e.PlayerLoading? || e.PlayerSeeked?
    ensures IsAnnounced(s, e, now, Step(s, e, now))
  {
  }

  /** `Loading` and `Seeked` events rewrite the reported position and leave the status alone: a track
      that is loading is reported where it will start, any other one at the start. */
  lemma Announcements(s: State, before: seq<Timed>, e: Event, now: int)
    requires e.PlayerLoading? || e.PlayerSeeked?
    ensures IsAnnounced(Run(s, before), e, now, Run(s, before + [Timed(e, now)]))
  {
    RunOneMore(s, before, Timed(e, now));
    AnnouncementsAtOnce(Run(s, before), e, now);
  }

  /** A stop asks for a notification unless playback was stopped already, and leaves the report alone. */
  lemma Stops(s: State, before: seq<Timed>, now: int)
    ensures var was, r := Run(s, before), Run(s, before + [Timed(PlayerStopped, now)]);
      r.player == was.player && r.updateState == (was.updateState || !was.status.Stopped?)
  {
    RunOneMore(s, before, Timed(PlayerStopped, now));
  }

  ghost predicate IsControlled(was: State, e: Event, now: int, r: State)
    requires e.Play? || e.Pause? || e.PlayPause?
  {
    && r.updateState == was.updateState
    && (if was.status.Playing? != r.status.Playing? then ReportsPosition(r.player, Position(was.status, now), now)
        else r.player == was.player)
    && (r.status.LoadingPlay? || r.status.LoadingPause? ==> Own(r.status, now) == Own(was.status, now))
  }

  lemma ControlsReportAtOnce(s: State, e: Event, now: int)
    requires e.Play? || e.Pause? || e.PlayPause?
    ensures IsControlled(s, e, now, Step(s, e, now))
  {
  }

  /** Play, pause and toggle do not ask for a notification; they report spirc's own position exactly when
      they change whether it advances. */
  lemma ControlsReport(s: State, before: seq<Timed>, e: Event, now: int)
    requires e.Play? || e.Pause? || e.PlayPause?
    ensures IsControlled(Run(s, before), e, now, Run(s, before + [Timed(e, now)]))
  {
    RunOneMore(s, before, Timed(e, now));
    ControlsReportAtOnce(Run(s, before), e, now);
  }
}
