/** What is on the screen after each request, and for how long: in pictures and milliseconds. */
module OsdLaws {
  import opened Wrappers
  import opened OsdView
  import opened OsdClient

  /** The banner a request asks for. */
  function Asked(s: Stage, n: int): Picture {
    BannerText(Banner(s, if n < 0 then 0 else n))
  }

  predicate StaysUp(s: Stage) {
    s in {Checking, Syncing, Stopping, Pico8Import, PowerSaveRelease, PowerSaveSaving}
  }

  predicate EndsByItself(s: Stage) {
    s in {SettingsNotSaved, StorageReadOnly, Pico8Exit, Pico8ImportFailed, PowerSaveSaved, PowerSaveFailed, BootResume}
  }

  lemma StagesAre(s: Stage)
    ensures StaysUp(s) <==> Progress(s)
    ensures EndsByItself(s) <==> Transient(s)
  {
  }

  predicate OnlyTicks(es: seq<Event>) {
    forall e | e in es :: e.TickAt?
  }

  /** One of the ticks comes at or after the moment. */
  predicate TickSince(es: seq<Event>, moment: nat) {
    exists e :: e in es && e.TickAt? && e.at >= moment
  }

  lemma TickSinceNext(es: seq<Event>, moment: nat)
    requires es != []
    ensures TickSince(es, moment) <==>
      TickSince(es[..|es| - 1], moment) || (es[|es| - 1].TickAt? && es[|es| - 1].at >= moment)
  {
    assert es == es[..|es| - 1] + [es[|es| - 1]];
  }

  /** Ticks leave a screen without a deadline alone. */
  lemma {:induction false} TicksKeep(l: Layers, es: seq<Event>)
    requires OnlyTicks(es) && l.overlay.None?
    ensures Run(l, es) == l
    decreases |es|
  {
    if es != [] {
      assert es == es[..|es| - 1] + [es[|es| - 1]] && es[|es| - 1] in es;
      TicksKeep(l, es[..|es| - 1]);
    }
  }

  /** Ticks end the upper layer at its deadline, and never before. */
  lemma {:induction false} TicksEnd(l: Layers, es: seq<Event>, until: U64)
    requires OnlyTicks(es) && l.overlay.Some? && l.overlay.value.until == until && until != NEVER
    ensures Run(l, es) == if TickSince(es, until) then l.(overlay := None) else l
    decreases |es|
  {
    if es != [] {
      TickSinceNext(es, until);
      assert es == es[..|es| - 1] + [es[|es| - 1]] && es[|es| - 1] in es;
      TicksEnd(l, es[..|es| - 1], until);
    }
  }

  /** A stage request shows its stage and count at once, unless it is progress and a level toast is up. */
  lemma StageShows(l: Layers, s: Stage, n: int, at: U64)
    requires Wellformed(l)
    ensures Shown(Next(l, StageAt(s, n, at))) == if StaysUp(s) && Shown(l).LevelBar? then Shown(l) else Asked(s, n)
  {
  }

  /** Progress then stays through any ticks; under a toast it shows as soon as the toast is over. */
  lemma ProgressStays(l: Layers, s: Stage, n: int, at: U64, ticks: seq<Event>)
    requires Wellformed(l) && StaysUp(s) && OnlyTicks(ticks)
    ensures !Shown(l).LevelBar? ==> Shown(Run(Next(l, StageAt(s, n, at)), ticks)) == Asked(s, n)
    ensures Shown(l).LevelBar? && Shown(Run(Next(l, StageAt(s, n, at)), ticks)) != Asked(s, n) ==>
      Shown(Run(Next(l, StageAt(s, n, at)), ticks)) == Shown(l)
  {
    var m := Next(l, StageAt(s, n, at));
    if Shown(l).LevelBar? {
      var until := m.overlay.value.until;
      if until != NEVER { TicksEnd(m, ticks, until); } else { NeverDue(m, ticks); }
    } else {
      TicksKeep(m, ticks);
    }
  }

  lemma {:induction false} NeverDue(l: Layers, es: seq<Event>)
    requires OnlyTicks(es) && l.overlay.Some? && l.overlay.value.until == NEVER
    ensures Run(l, es) == l
    decreases |es|
  {
    if es != [] {
      assert es == es[..|es| - 1] + [es[|es| - 1]] && es[|es| - 1] in es;
      NeverDue(l, es[..|es| - 1]);
    }
  }

  /** A warning or prompt stays for four seconds: until the first tick at or after that. Then the screen is empty. */
  lemma WarningLasts(l: Layers, s: Stage, n: int, at: U64, ticks: seq<Event>)
    requires Wellformed(l) && EndsByItself(s) && OnlyTicks(ticks) && at + 4000 < NEVER
    ensures Shown(Run(Next(l, StageAt(s, n, at)), ticks))
      == if TickSince(ticks, at + 4000) then Nothing else Asked(s, n)
  {
    TicksEnd(Next(l, StageAt(s, n, at)), ticks, at + 4000);
  }

  /**
   * A level toast shows its level between 0 and 100 and stays for 1.2 seconds; then the progress it covered is back,
   * or, if it covered none, the screen is empty.
   */
  lemma ToastLasts(l: Layers, kind: Kind, percent: int, at: U64, ticks: seq<Event>)
    requires Wellformed(l) && (kind == Brightness || kind == Volume) && OnlyTicks(ticks) && at + 1200 < NEVER
    ensures var toast := LevelBar(kind, if percent <= 0 then 0 else if percent >= 100 then 100 else percent);
      var below := if Shown(l).BannerText? && StaysUp(Shown(l).banner.stage) then Shown(l)
                   else if Shown(l).LevelBar? && l.progress.Some? then BannerText(l.progress.value) else Nothing;
      Shown(Run(Next(l, LevelAt(kind, percent, at)), ticks)) == if TickSince(ticks, at + 1200) then below else toast
  {
    TicksEnd(Next(l, LevelAt(kind, percent, at)), ticks, at + 1200);
  }

  /** A hide empties the screen, but for a level toast; after the toast nothing is left. */
  lemma HideClears(l: Layers, ticks: seq<Event>)
    requires Wellformed(l) && OnlyTicks(ticks)
    ensures Shown(Next(l, HideBanner)) == if Shown(l).LevelBar? then Shown(l) else Nothing
    ensures var after := Shown(Run(Next(l, HideBanner), ticks)); after == Nothing || after == Shown(l)
    ensures !Shown(l).LevelBar? ==> Shown(Run(Next(l, HideBanner), ticks)) == Nothing
  {
    var m := Next(l, HideBanner);
    if m.overlay.None? {
      TicksKeep(m, ticks);
    } else if m.overlay.value.until == NEVER {
      NeverDue(m, ticks);
    } else {
      TicksEnd(m, ticks, m.overlay.value.until);
    }
  }

  /** Other view kinds are no levels. */
  lemma OtherKindsIgnored(l: Layers, kind: Kind, percent: int, at: U64)
    requires kind == NoView || kind == StageView
    ensures Next(l, LevelAt(kind, percent, at)) == l
  {
  }

  // ---------------------------------------------------------------- requests

  /** What the display shows once it has served a request, and what it replies. */
  lemma ServeShows(screen: Layers, m: Message, now: U64, drawn: bool)
    requires Wellformed(screen) && Sendable(m)
    ensures var served := Serve(screen, m, now, drawn);
      match m
      case LevelRequest(kind, percent) =>
        served.ok == drawn && (if drawn
          then Shown(served.screen)
            == LevelBar(kind, if percent <= 0 then 0 else if percent >= 100 then 100 else percent)
          else served.screen == screen)
      case StageRequest(s, n, expires) =>
        served.ok == (drawn && (expires == 0 || now < expires)) && (if served.ok
          then Shown(served.screen) == if StaysUp(s) && Shown(screen).LevelBar? then Shown(screen) else Asked(s, n)
          else served.screen == screen)
      case HideRequest =>
        served.ok && Shown(served.screen) == if Shown(screen).LevelBar? then Shown(screen) else Nothing
  {
  }

  /** What the display does by itself: ticks, and serving the request at the head of its queue. */
  datatype Work = Ticks(at: U64) | Serves(at: U64, drawn: bool)

  function Do(o: Osd, w: Work): Osd {
    match w
    case Ticks(at) => o.(screen := OnTick(o.screen, at))
    case Serves(at, drawn) =>
      if o.queue == [] then o else Osd(o.running, o.queue[1..], Serve(o.screen, o.queue[0], at, drawn).screen)
  }

  function DoAll(o: Osd, ws: seq<Work>): Osd
    decreases |ws|
  {
    if ws == [] then o else DoAll(Do(o, ws[0]), ws[1..])
  }

  /** Every exit prompt still waiting has run out by this moment. */
  predicate AllExpired(o: Osd, since: nat) {
    forall m | m in o.queue && m.StageRequest? && m.stage == Pico8Exit :: 0 < m.expires <= since
  }

  /** An exit prompt that is not served before it expires never appears, whatever else is served. */
  lemma {:induction false} LatePromptNeverShows(o: Osd, ws: seq<Work>, since: nat)
    requires Wellformed(o.screen) && (forall m | m in o.queue :: Sendable(m))
    requires !PromptShown(o) && AllExpired(o, since) && forall w | w in ws :: w.at >= since
    ensures !PromptShown(DoAll(o, ws))
    decreases |ws|
  {
    if ws != [] {
      var next := Do(o, ws[0]);
      assert ws[0] in ws;
      if ws[0].Serves? && o.queue != [] {
        assert o.queue[0] in o.queue;
        ServeShows(o.screen, o.queue[0], ws[0].at, ws[0].drawn);
        ServeKeepsWellformed(o.screen, o.queue[0], ws[0].at, ws[0].drawn);
      }
      LatePromptNeverShows(next, ws[1..], since);
    }
  }
}
