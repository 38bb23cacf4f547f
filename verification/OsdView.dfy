/** What the on-screen display shows: one slot in the program, two layers in the specification. */
module OsdView {
  import opened Wrappers

  const LEVEL_MS := 1200
  const TRANSIENT_MS := 4000
  const UINT64 := 0x1_0000_0000_0000_0000
  const NEVER: nat := UINT64 - 1
  const INT_MAX: int := 0x7FFF_FFFF

  type U64 = x: nat | x < UINT64

  datatype Stage =
    | Checking | Syncing | Stopping | SettingsNotSaved | StorageReadOnly | Pico8Exit | Pico8Import | Pico8ImportFailed
    | PowerSaveRelease | PowerSaveSaving | PowerSaveSaved | PowerSaveFailed | BootResume

  /** Stays up until its producer replaces or hides it. */
  predicate Progress(s: Stage) {
    s.Checking? || s.Syncing? || s.Stopping? || s.Pico8Import? || s.PowerSaveRelease? || s.PowerSaveSaving?
  }

  /** Ends by itself. */
  predicate Transient(s: Stage) {
    || s.SettingsNotSaved? || s.StorageReadOnly? || s.Pico8Exit? || s.Pico8ImportFailed?
    || s.PowerSaveSaved? || s.PowerSaveFailed? || s.BootResume?
  }

  lemma EveryStageIsOneOrTheOther(s: Stage)
    ensures Progress(s) <==> !Transient(s)
  {
  }

  datatype Kind = NoView | Brightness | Volume | StageView

  datatype Effect = Keep | Draw | Hide

  function Clamp(percent: int): int {
    if percent < 0 then 0 else if percent > 100 then 100 else percent
  }

  /** `now + ms` in 64 bits. */
  function Deadline(now: U64, ms: nat): U64 {
    (now + ms) % UINT64
  }

  // ---------------------------------------------------------------- the two layers

  datatype Banner = Banner(stage: Stage, pending: int)

  datatype Overlay =
    | Level(kind: Kind, percent: int, until: U64)
    | Timed(banner: Banner, until: U64)

  /** A progress banner at the bottom, and above it at most one thing that ends by itself. */
  datatype Layers = Layers(progress: Option<Banner>, overlay: Option<Overlay>)

  const BLANK := Layers(None, None)

  datatype Picture = Nothing | LevelBar(kind: Kind, percent: int) | BannerText(banner: Banner)

  function Shown(l: Layers): Picture {
    match l.overlay
    case Some(Level(kind, percent, _)) => LevelBar(kind, percent)
    case Some(Timed(banner, _)) => BannerText(banner)
    case None => if l.progress.Some? then BannerText(l.progress.value) else Nothing
  }

  predicate Wellformed(l: Layers) {
    && (l.progress.Some? ==> Progress(l.progress.value.stage))
    && (l.overlay.Some? && l.overlay.value.Timed? ==> Transient(l.overlay.value.banner.stage) && l.progress.None?)
    && (l.overlay.Some? && l.overlay.value.Level? ==> l.overlay.value.kind.Brightness? || l.overlay.value.kind.Volume?)
  }

  predicate LevelUp(l: Layers) {
    l.overlay.Some? && l.overlay.value.Level?
  }

  /** A level toast takes the upper layer; the progress below it stays. */
  function OnLevel(l: Layers, kind: Kind, percent: int, now: U64): Layers {
    l.(overlay := Some(Level(kind, Clamp(percent), Deadline(now, LEVEL_MS))))
  }

  /** Progress replaces the lower layer; a warning or prompt clears it and takes the upper one. */
  function OnStage(l: Layers, stage: Stage, pending: int, now: U64): Layers {
    var banner := Banner(stage, if pending < 0 then 0 else pending);
    if Progress(stage) then Layers(Some(banner), if LevelUp(l) then l.overlay else None)
    else Layers(None, Some(Timed(banner, Deadline(now, TRANSIENT_MS))))
  }

  /** All banners go; a level toast runs out by itself. */
  function OnHide(l: Layers): Layers {
    Layers(None, if LevelUp(l) then l.overlay else None)
  }

  predicate Due(l: Layers, now: U64) {
    l.overlay.Some? && l.overlay.value.until != NEVER && l.overlay.value.until <= now
  }

  /** The upper layer ends; what is below shows again. */
  function OnTick(l: Layers, now: U64): Layers {
    if Due(l, now) then l.(overlay := None) else l
  }

  // ---------------------------------------------------------------- the program

  class View {
    var kind: Kind
    var percent: int
    var stage: Stage
    var pendingItems: int
    var hideAt: U64
    var hasRetained: bool
    var retainedStage: Stage
    var retainedPendingItems: int

    ghost predicate Valid()
      reads this
    {
      && (hasRetained ==> (kind.Brightness? || kind.Volume?) && Progress(retainedStage))
      && (kind.StageView? && Progress(stage) ==> hideAt == NEVER)
    }

    /** The layers the one slot stands for. */
    ghost function Abs(): (l: Layers)
      reads this
      ensures Valid() ==> Wellformed(l)
    {
      match kind
      case NoView => BLANK
      case StageView =>
        if Progress(stage) then Layers(Some(Banner(stage, pendingItems)), None)
        else Layers(None, Some(Timed(Banner(stage, pendingItems), hideAt)))
      case _ =>
        Layers(if hasRetained then Some(Banner(retainedStage, retainedPendingItems)) else None,
               Some(Level(kind, percent, hideAt)))
    }

    /** jw_osd_view_reset */
    constructor ()
      ensures Valid() && Abs() == BLANK
    {
      kind, percent, stage, pendingItems, hideAt := NoView, 0, Checking, 0, 0;
      hasRetained, retainedStage, retainedPendingItems := false, Checking, 0;
    }

    method Retain(s: Stage, pending: int)
      modifies this`hasRetained, this`retainedStage, this`retainedPendingItems
      ensures hasRetained && retainedStage == s && retainedPendingItems == pending
    {
      hasRetained, retainedStage, retainedPendingItems := true, s, pending;
    }

    /** jw_osd_view_level */
    method ShowLevel(k: Kind, p: int, now: U64) returns (e: Effect)
      requires Valid()
      modifies this
      ensures Valid()
      ensures if k.Brightness? || k.Volume? then e == Draw && Abs() == OnLevel(old(Abs()), k, p, now)
              else e == Keep && Abs() == old(Abs())
    {
      if !k.Brightness? && !k.Volume? {
        return Keep;
      }
      if kind.StageView? && Progress(stage) { Retain(stage, pendingItems); }
      var clamped := p;
      if clamped < 0 { clamped := 0; }
      if clamped > 100 { clamped := 100; }
      kind, percent, hideAt := k, clamped, Deadline(now, LEVEL_MS);
      return Draw;
    }

    /** jw_osd_view_stage */
    method ShowStage(s: Stage, pending: int, now: U64) returns (e: Effect)
      requires Valid()
      modifies this
      ensures Valid() && Abs() == OnStage(old(Abs()), s, pending, now)
      ensures e == if Progress(s) && LevelUp(old(Abs())) then Keep else Draw
    {
      var items := if pending < 0 then 0 else pending;
      if Progress(s) && (kind.Brightness? || kind.Volume?) {
        Retain(s, items);
        return Keep;
      }
      hasRetained := false;
      kind, stage, pendingItems := StageView, s, items;
      hideAt := if Transient(s) then Deadline(now, TRANSIENT_MS) else NEVER;
      return Draw;
    }

    /** jw_osd_view_hide_stage */
    method HideStage() returns (e: Effect)
      requires Valid()
      modifies this
      ensures Valid() && Abs() == OnHide(old(Abs()))
      ensures e == if Shown(old(Abs())).BannerText? then Hide else Keep
    {
      hasRetained := false;
      if !kind.StageView? {
        return Keep;
      }
      kind := NoView;
      return Hide;
    }

    /** jw_osd_view_tick */
    method Tick(now: U64) returns (e: Effect)
      requires Valid()
      modifies this
      ensures Valid() && Abs() == OnTick(old(Abs()), now)
      ensures e == if !Due(old(Abs()), now) then Keep else if Shown(Abs()).Nothing? then Hide else Draw
    {
      if kind.NoView? || hideAt == NEVER || now < hideAt {
        return Keep;
      }
      if !kind.StageView? && hasRetained {
        kind, stage, pendingItems, hideAt := StageView, retainedStage, retainedPendingItems, NEVER;
        hasRetained := false;
        return Draw;
      }
      kind, hasRetained := NoView, false;
      return Hide;
    }

    /** jw_osd_view_timeout_ms: exactly how long until a tick has something to do. */
    method TimeoutMs(now: U64) returns (wait: int)
      requires Valid()
      ensures -1 <= wait <= INT_MAX
      ensures wait == 0 <==> Due(Abs(), now)
      ensures wait == -1 <==> forall t: U64 :: !Due(Abs(), t)
      ensures 0 < wait < INT_MAX ==> forall t: U64 | now <= t :: Due(Abs(), t) <==> now + wait <= t
      ensures wait == INT_MAX ==> forall t: U64 | now <= t < now + INT_MAX :: !Due(Abs(), t)
    {
      if kind.NoView? || hideAt == NEVER {
        return -1;
      }
      assert Due(Abs(), hideAt);
      if hideAt <= now {
        return 0;
      }
      var rest := hideAt - now;
      return if rest > INT_MAX then INT_MAX else rest;
    }
  }

  // ---------------------------------------------------------------- runs

  datatype Event =
    | LevelAt(kind: Kind, percent: int, at: U64)
    | StageAt(stage: Stage, pending: int, at: U64)
    | HideBanner
    | TickAt(at: U64)

  function Next(l: Layers, e: Event): Layers {
    match e
    case LevelAt(k, p, now) => if k.Brightness? || k.Volume? then OnLevel(l, k, p, now) else l
    case StageAt(s, n, now) => OnStage(l, s, n, now)
    case HideBanner => OnHide(l)
    case TickAt(now) => OnTick(l, now)
  }

  function EffectOf(l: Layers, e: Event): Effect {
    match e
    case LevelAt(k, _, _) => if k.Brightness? || k.Volume? then Draw else Keep
    case StageAt(s, _, _) => if Progress(s) && LevelUp(l) then Keep else Draw
    case HideBanner => if Shown(l).BannerText? then Hide else Keep
    case TickAt(now) => if !Due(l, now) then Keep else if Shown(Next(l, e)).Nothing? then Hide else Draw
  }

  function Run(l: Layers, es: seq<Event>): Layers {
    if es == [] then l else Next(Run(l, es[..|es| - 1]), es[|es| - 1])
  }

  /** The program runs any sequence of events exactly as the layers do. */
  method Replay(v: View, es: seq<Event>)
    requires v.Valid()
    modifies v
    ensures v.Valid() && v.Abs() == Run(old(v.Abs()), es)
  {
    ghost var start := v.Abs();
    for i := 0 to |es|
      invariant v.Valid() && v.Abs() == Run(start, es[..i])
    {
      assert es[..i + 1][..i] == es[..i];
      var e;
      match es[i] {
        case LevelAt(k, p, now) => e := v.ShowLevel(k, p, now);
        case StageAt(s, n, now) => e := v.ShowStage(s, n, now);
        case HideBanner => e := v.HideStage();
        case TickAt(now) => e := v.Tick(now);
      }
    }
    assert es[..|es|] == es;
  }

  /** The backend redraws when told to: KEEP leaves the picture, HIDE clears it, DRAW leaves something to draw. */
  lemma EffectsAreHonest(l: Layers, e: Event)
    requires Wellformed(l)
    ensures Wellformed(Next(l, e))
    ensures EffectOf(l, e).Keep? ==> Shown(Next(l, e)) == Shown(l)
    ensures EffectOf(l, e).Hide? ==> Shown(Next(l, e)).Nothing? && !Shown(l).Nothing?
    ensures EffectOf(l, e).Draw? ==> !Shown(Next(l, e)).Nothing?
  {
    match e {
      case TickAt(now) =>
      case _ =>
    }
  }

  predicate Showing(l: Layers, s: Stage) {
    Shown(l).BannerText? && Shown(l).banner.stage == s
  }

  lemma {:induction false} RunWellformed(l: Layers, es: seq<Event>)
    requires Wellformed(l)
    ensures Wellformed(Run(l, es))
    decreases |es|
  {
    if es != [] {
      RunWellformed(l, es[..|es| - 1]);
      EffectsAreHonest(Run(l, es[..|es| - 1]), es[|es| - 1]);
    }
  }

  /** A warning or exit prompt that is not on screen now only comes back through a new request for it. */
  lemma {:induction false} PromptNeverReturns(l: Layers, es: seq<Event>, s: Stage)
    requires Wellformed(l) && Transient(s) && !Showing(l, s)
    requires forall e | e in es :: !(e.StageAt? && e.stage == s)
    ensures !Showing(Run(l, es), s)
    decreases |es|
  {
    if es != [] {
      RunWellformed(l, es[..|es| - 1]);
      PromptNeverReturns(l, es[..|es| - 1], s);
    }
  }

  /** Covering, hiding or replacing a prompt takes it off the screen at once. */
  lemma PromptEnds(l: Layers, e: Event, s: Stage)
    requires Wellformed(l) && Transient(s)
    ensures e.HideBanner? || (e.LevelAt? && (e.kind.Brightness? || e.kind.Volume?))
      || (e.StageAt? && e.stage != s && Showing(l, s))
      ==> !Showing(Next(l, e), s)
  {
  }

  /** After a hide no banner of any kind appears until one is asked for. */
  lemma {:induction false} HiddenStaysHidden(l: Layers, es: seq<Event>)
    requires forall e | e in es :: !e.StageAt?
    ensures !Shown(Run(OnHide(l), es)).BannerText? && Run(OnHide(l), es).progress.None?
    ensures LevelUp(Run(OnHide(l), es)) || Run(OnHide(l), es) == BLANK
    decreases |es|
  {
    if es != [] { HiddenStaysHidden(l, es[..|es| - 1]); }
  }

  /** A covered progress banner is back, in its latest form, as soon as the toast is over. */
  lemma ProgressComesBack(l: Layers, kind: Kind, percent: int, now: U64, update: Option<(Stage, int)>, at: U64,
                          later: U64)
    requires Wellformed(l) && l.progress.Some? && (kind.Brightness? || kind.Volume?)
    requires update.Some? ==> Progress(update.value.0)
    requires now + LEVEL_MS < NEVER && now + LEVEL_MS <= later
    ensures var covered := OnLevel(l, kind, percent, now);
      var updated := if update.None? then covered else OnStage(covered, update.value.0, update.value.1, at);
      && Shown(updated) == LevelBar(kind, Clamp(percent))
      && Shown(OnTick(updated, later)) == BannerText(
           if update.None? then l.progress.value
           else Banner(update.value.0, if update.value.1 < 0 then 0 else update.value.1))
  {
  }
}
