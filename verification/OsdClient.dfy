/** The daemon's side of the display protocol, over an OSD that may answer late, lose replies, or exit. */
module OsdClient {
  import opened OsdView

  const BANNER_TIMEOUT_MS := 100
  /** The daemon's `long long` clock, with room for one more deadline. */
  const CLOCK_MAX := 0x7FFF_FFFF_FFFF_0000

  datatype Message =
    | LevelRequest(kind: Kind, percent: int)
    | StageRequest(stage: Stage, pending: int, expires: nat)
    | HideRequest

  /** A request the client has made, and whether it was acknowledged in time. */
  datatype Exchange = Exchange(message: Message, acknowledged: bool)

  /** The OSD process: requests it has accepted but not served, in order, and what it shows. */
  datatype Osd = Osd(running: bool, queue: seq<Message>, screen: Layers)

  const GONE := Osd(false, [], BLANK)

  datatype Served = Served(screen: Layers, ok: bool)

  /** `jw__handle_message`; `drawn` tells whether the backend could submit the picture. */
  function Serve(screen: Layers, m: Message, now: U64, drawn: bool): Served {
    match m
    case LevelRequest(kind, percent) =>
      if drawn then Served(OnLevel(screen, kind, percent, now), true) else Served(screen, false)
    case StageRequest(stage, pending, expires) =>
      if (expires != 0 && expires <= now) || !drawn then Served(screen, false)
      else Served(OnStage(screen, stage, pending, now), true)
    case HideRequest => Served(OnHide(screen), true)
  }

  predicate Sendable(m: Message) {
    m.LevelRequest? ==> m.kind.Brightness? || m.kind.Volume?
  }

  predicate PromptShown(o: Osd) {
    Showing(o.screen, Pico8Exit)
  }

  predicate PromptPending(o: Osd) {
    exists i :: 0 <= i < |o.queue| && o.queue[i].StageRequest? && o.queue[i].stage == Pico8Exit
  }

  /** The prompt is on screen, nothing is on its way to replace it, and it stays at least until `until`. */
  predicate PromptUp(o: Osd, until: nat) {
    && o.running && o.queue == [] && PromptShown(o)
    && o.screen.overlay.Some? && o.screen.overlay.value.Timed? && until <= o.screen.overlay.value.until < NEVER
  }

  lemma ServeKeepsWellformed(screen: Layers, m: Message, now: U64, drawn: bool)
    requires Wellformed(screen) && Sendable(m)
    ensures Wellformed(Serve(screen, m, now, drawn).screen)
  {
    if m.StageRequest? { EveryStageIsOneOrTheOther(m.stage); }
  }

  datatype Menu = Armed | Confirmed | Unavailable

  datatype Call =
    | CallLevel(kind: Kind, percent: int, timeout: nat)
    | CallStage(stage: Stage, pending: int)
    | CallHide
    | CallMenu

  class Daemon {
    const discardHook: bool
    var now: nat
    var osd: Osd
    /** `exit_deadline_ms` */
    var deadline: nat
    /** The OSD exited and the daemon has not noticed yet. */
    var unnoticed: bool
    /** The requests the client has made, in order, each with its outcome. */
    ghost var sent: seq<Exchange>

    ghost predicate World()
      reads this
    {
      && now <= CLOCK_MAX && (!osd.running ==> osd == GONE) && (unnoticed ==> !osd.running)
      && Wellformed(osd.screen) && forall m | m in osd.queue :: Sendable(m)
    }

    /** Armed only while the prompt is what the OSD acknowledged, and only as long as it is on screen. */
    ghost predicate Rule()
      reads this
    {
      && (deadline != 0 ==> unnoticed || osd.queue == [])
      && (deadline > now ==> unnoticed || PromptUp(osd, deadline))
    }

    ghost predicate Valid()
      reads this
    {
      World() && Rule()
    }

    constructor (hook: bool, start: nat)
      requires start <= CLOCK_MAX
      ensures Valid() && deadline == 0 && now == start && discardHook == hook
    {
      discardHook, now, osd, deadline, unnoticed := hook, start, GONE, 0, false;
      sent := [];
    }

    // -------------------------------------------------------------- what happens by itself

    method Pass(ms: nat)
      requires World()
      modifies this`now
      ensures World() && now >= old(now)
    {
      if now + ms <= CLOCK_MAX { now := now + ms; }
    }

    method OsdTicks()
      requires World()
      modifies this`osd
      ensures World() && osd == old(osd).(screen := OnTick(old(osd).screen, now))
    {
      osd := osd.(screen := OnTick(osd.screen, now));
    }

    method OsdExits()
      requires World()
      modifies this`osd, this`unnoticed
      ensures World() && osd == GONE && unnoticed == (old(unnoticed) || old(osd).running)
    {
      if osd.running { unnoticed := true; }
      osd := GONE;
    }

    /** The OSD serves the request at the head of its queue. */
    method OsdServes(drawn: bool) returns (ok: bool)
      requires World() && osd.queue != []
      modifies this`osd
      ensures World() && osd.running && osd.queue == old(osd).queue[1..]
      ensures Serve(old(osd).screen, old(osd).queue[0], now, drawn) == Served(osd.screen, ok)
    {
      assert osd.queue[0] in osd.queue;
      ServeKeepsWellformed(osd.screen, osd.queue[0], now, drawn);
      var served := Serve(osd.screen, osd.queue[0], now, drawn);
      ok := served.ok;
      osd := Osd(osd.running, osd.queue[1..], served.screen);
    }

    /** jw_osd_client_prompt_lost, as the daemon calls it when it sees the OSD gone. */
    method NoticeExit()
      requires World()
      modifies this`deadline, this`unnoticed
      ensures Valid() && deadline == 0 && !unnoticed
    {
      deadline, unnoticed := 0, false;
    }

    /** Any number of these, in any order, between two calls of the client: the rule survives them all. */
    method Meanwhile(steps: nat)
      requires Valid()
      modifies this
      ensures Valid() && now >= old(now) && (deadline == old(deadline) || deadline == 0) && sent == old(sent)
    {
      for i := 0 to steps
        invariant Valid() && now >= old(now) && (deadline == old(deadline) || deadline == 0) && sent == old(sent)
      {
        var what: nat := *;
        var amount: nat := *;
        var drawn: bool := *;
        if what == 0 {
          Pass(amount);
        } else if what == 1 {
          OsdTicks();
        } else if what == 2 {
          OsdExits();
        } else if what == 3 {
          NoticeExit();
        } else if osd.queue != [] {
          var ok := OsdServes(drawn);
        }
      }
    }

    // -------------------------------------------------------------- one exchange

    /**
     * What a reply in time proves: the OSD has just served this request, after all earlier ones, or there is no OSD to
     * hide on.
     */
    ghost predicate Acknowledged(m: Message, show: bool)
      reads this
    {
      || (!show && osd == GONE)
      || (osd.running && osd.queue == []
          && now <= CLOCK_MAX && exists before ::
            Wellformed(before) && Serve(before, m, now, true) == Served(osd.screen, true))
    }

    /**
     * `request`: 0 only for an ok reply in time. Everything else is left open: the request may not have been accepted,
     * may still be waiting, or may have been served with its reply late or lost.
     */
    method Request(m: Message, timeout: nat, show: bool) returns (rc: int)
      requires World() && Sendable(m)
      modifies this`now, this`osd, this`unnoticed, this`sent
      ensures World() && now >= old(now) && (rc == 0 ==> Acknowledged(m, show))
      ensures sent == old(sent) + [Exchange(m, rc == 0)]
    {
      rc := Send(m, timeout, show);
      sent := sent + [Exchange(m, rc == 0)];
    }

    method Send(m: Message, timeout: nat, show: bool) returns (rc: int)
      requires World() && Sendable(m)
      modifies this`now, this`osd, this`unnoticed
      ensures World() && now >= old(now) && (rc == 0 ==> Acknowledged(m, show))
    {
      if unnoticed {
        return -1;
      }
      if !osd.running {
        if !show {
          return 0;
        }
        var spawned: bool := *;
        if !spawned {
          return -1;
        }
        osd := Osd(true, [], BLANK);
      }
      var ready: bool := *;
      if !ready {
        return -1;
      }
      rc := Await(m, timeout, show);
    }

    /** The accepted request waits behind the older ones while time passes, the OSD works, or exits. */
    method Await(m: Message, timeout: nat, show: bool) returns (rc: int)
      requires World() && osd.running && Sendable(m)
      modifies this`now, this`osd, this`unnoticed
      ensures World() && now >= old(now) && (rc == 0 ==> Acknowledged(m, show))
    {
      var limit := now + timeout;
      osd := osd.(queue := osd.queue + [m]);
      var patience: nat :| patience >= 0;
      for i := 0 to patience
        invariant World() && old(now) <= now && osd.running && osd.queue != [] && osd.queue[|osd.queue| - 1] == m
      {
        var what: nat := *;
        var amount: nat := *;
        var drawn: bool := *;
        if what == 0 {
          Pass(amount);
        } else if what == 1 {
          OsdTicks();
        } else if what == 2 {
          OsdExits();
          return -1;
        } else {
          var mine := |osd.queue| == 1;
          ghost var before := osd.screen;
          var ok := OsdServes(drawn);
          if mine {
            var replied: bool := *;
            if ok && replied && now <= limit {
              assert Serve(before, m, now, true) == Served(osd.screen, true);
              return 0;
            }
            return -1;
          }
        }
      }
      return -1;
    }

    // -------------------------------------------------------------- the client

    /** jw_osd_client_show_level */
    method ShowLevel(kind: Kind, percent: int, timeout: nat) returns (rc: int)
      requires Valid()
      modifies this
      ensures Valid() && deadline == 0 && (rc == 0 ==> LevelUp(osd.screen) && osd.queue == [])
      ensures if !kind.Brightness? && !kind.Volume? then rc == -1 && sent == old(sent)
              else var m := LevelRequest(kind, percent);
                // A second attempt follows exactly a first one that was not acknowledged.
                || (rc == 0 && sent == old(sent) + [Exchange(m, true)])
                || (rc == 0 && sent == old(sent) + [Exchange(m, false)] + [Exchange(m, true)])
                || (rc == -1 && sent == old(sent) + [Exchange(m, false)] + [Exchange(m, false)])
    {
      deadline := 0;
      if !kind.Brightness? && !kind.Volume? {
        return -1;
      }
      for attempt := 0 to 2
        invariant Valid() && deadline == 0
        invariant attempt == 0 ==> sent == old(sent)
        invariant attempt == 1 ==> sent == old(sent) + [Exchange(LevelRequest(kind, percent), false)]
        invariant attempt == 2 ==>
          var missed := Exchange(LevelRequest(kind, percent), false);
          sent == old(sent) + [missed] + [missed]
      {
        rc := Request(LevelRequest(kind, percent), timeout, true);
        if rc == 0 {
          return;
        }
        if attempt == 0 { Pass(100); }
      }
      return -1;
    }

    /** jw_osd_client_show_stage: any stage but the exit prompt. */
    method ShowStage(stage: Stage, pending: int) returns (rc: int)
      requires Valid()
      modifies this
      ensures Valid() && deadline == 0
      ensures rc == 0 ==> osd.queue == [] && !PromptShown(osd) && Shown(osd.screen) != Nothing
      ensures if stage == Pico8Exit then rc == -1 && sent == old(sent)
              else var m := StageRequest(stage, if stage != Syncing || pending < 0 then 0 else pending, 0);
                sent == old(sent) + [Exchange(m, rc == 0)]
    {
      deadline := 0;
      if stage == Pico8Exit {
        return -1;
      }
      var items := if stage != Syncing || pending < 0 then 0 else pending;
      rc := Request(StageRequest(stage, items, 0), BANNER_TIMEOUT_MS, true);
    }

    /** jw_osd_client_hide */
    method HideBanner() returns (rc: int)
      requires Valid()
      modifies this
      ensures Valid() && deadline == 0 && sent == old(sent) + [Exchange(HideRequest, rc == 0)]
      ensures rc == 0 ==> osd.queue == [] && !Shown(osd.screen).BannerText?
    {
      deadline := 0;
      rc := Request(HideRequest, BANNER_TIMEOUT_MS, false);
    }

    /** `jw_pico8_exit_confirmed`: a press inside the window confirms and disarms; any other arms. */
    method ExitConfirmed() returns (confirmed: bool)
      modifies this`deadline
      ensures confirmed <==> old(deadline) > now
      ensures deadline == if confirmed then 0 else now + TRANSIENT_MS
    {
      if deadline > now {
        deadline := 0;
        return true;
      }
      deadline := now + TRANSIENT_MS;
      return false;
    }

    /** The prompt may be on screen although it was not acknowledged: hide it, or end the OSD. */
    method TakeBack() returns (hid: bool)
      requires World()
      modifies this
      ensures Valid() && deadline == 0 && now >= old(now) && sent == old(sent) + [Exchange(HideRequest, hid)]
      ensures !hid && discardHook ==> osd == GONE && !unnoticed
      ensures discardHook ==> !PromptShown(osd) && !PromptPending(osd)
    {
      deadline := 0;
      var rc := Request(HideRequest, BANNER_TIMEOUT_MS, false);
      hid := rc == 0;
      if !hid && discardHook {
        osd, unnoticed := GONE, false;
      }
    }

    /**
     * jw_osd_client_pico8_menu. A press confirms only while the prompt it answers is up; the deadline is left armed
     * only for a prompt the OSD has just acknowledged; and when the prompt is reported unavailable it is neither on
     * screen nor on its way there.
     */
    method Pico8Menu() returns (r: Menu, ghost asked: nat, ghost hid: bool)
      requires Valid()
      modifies this
      ensures Valid()
      ensures r.Confirmed? <==> old(deadline) > old(now)
      ensures r.Confirmed? ==> deadline == 0 && old(unnoticed || PromptUp(osd, deadline))
      ensures r.Armed? ==> deadline == old(now) + TRANSIENT_MS && PromptUp(osd, deadline)
      ensures r.Unavailable? ==> deadline == 0 && (discardHook ==> !PromptShown(osd) && !PromptPending(osd))
      // One prompt that expires with the wait for it, taken back when not acknowledged; a confirmation only hides.
      // An OSD that does not acknowledge the hiding either is discarded where that can be done.
      ensures r.Confirmed? ==> sent == old(sent) + [Exchange(HideRequest, hid)]
      ensures !r.Confirmed? ==> old(now) <= asked <= now
      ensures r.Armed? ==> sent == old(sent) + [Exchange(StageRequest(Pico8Exit, 0, asked + BANNER_TIMEOUT_MS), true)]
      ensures r.Unavailable? ==>
        sent == old(sent) + [Exchange(StageRequest(Pico8Exit, 0, asked + BANNER_TIMEOUT_MS), false)]
          + [Exchange(HideRequest, hid)]
      ensures r.Unavailable? && !hid && discardHook ==> osd == GONE && !unnoticed
    {
      var confirmed := ExitConfirmed();
      if confirmed {
        var hidden := HideBanner();
        return Confirmed, now, hidden == 0;
      }
      var gap: nat := *;
      Pass(gap);
      asked := now;
      var rc := Request(StageRequest(Pico8Exit, 0, now + BANNER_TIMEOUT_MS), BANNER_TIMEOUT_MS, true);
      if rc != 0 {
        hid := TakeBack();
        return Unavailable, asked, hid;
      }
      return Armed, asked, false;
    }

    /** Whole sessions: any calls in any order, with anything in between. */
    method Session(calls: seq<Call>)
      requires Valid()
      modifies this
      ensures Valid()
    {
      for i := 0 to |calls|
        invariant Valid()
      {
        var steps: nat := *;
        Meanwhile(steps);
        match calls[i] {
          case CallLevel(kind, percent, timeout) => var rc := ShowLevel(kind, percent, timeout);
          case CallStage(stage, pending) => var rc := ShowStage(stage, pending);
          case CallHide => var rc := HideBanner();
          case CallMenu => var r, asked, hid := Pico8Menu();
        }
      }
    }
  }
}
