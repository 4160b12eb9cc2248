/** The host's callbacks: stream ownership, injected input and the screen lease driven by the same events. */
module Host {
  import Streams
  import HeldInput
  import ScreenLease

  datatype State = State(streams: Streams.State, input: HeldInput.State, screen: ScreenLease.State)

  /** What happens to the host. `displays`, `stuck`, `done`, `works` and `now` come from its surroundings. */
  datatype Event =
    | Connect
    | Disconnect(client: nat, stuck: set<nat>)
    | Select(client: nat, ids: seq<nat>, displays: set<nat>, stuck: set<nat>)
    | Configure(client: nat, cfg: Streams.Config, displays: set<nat>, stuck: set<nat>)
    | RemoveVirtual(id: nat, virtuals: set<nat>, displays: set<nat>, stuck: set<nat>)
    | ScreenOff(client: nat, off: bool, works: bool, now: int)
    | MouseInput(client: nat, m: HeldInput.Mouse)
    | KeyInput(client: nat, vk: nat, pressed: bool, mask: nat)
    | SetViewOnly(on: bool)
    | Tick(now: int, done: set<nat>)
    | Quit(stuck: set<nat>)

  function Initial(cfg: Streams.Config, viewOnly: bool): State
  {
    State(Streams.Initial(cfg), HeldInput.Initial(viewOnly), ScreenLease.INITIAL)
  }

  ghost function Step(s: State, e: Event): State
  {
    match e
    case Connect => s.(screen := ScreenLease.Light(s.screen))
    case Disconnect(client, stuck) =>
      State(Streams.Disconnect(s.streams, client, stuck),
            if client == s.streams.client then HeldInput.Leave(s.input) else s.input,
            ScreenLease.Disconnect(s.screen, client))
    case Select(client, ids, displays, stuck) =>
      s.(streams := Streams.Select(s.streams, client, ids, displays, stuck),
         input := if client != s.streams.client then HeldInput.TakeOver(s.input, client) else s.input)
    case Configure(client, cfg, displays, stuck) =>
      s.(streams := Streams.Configure(s.streams, client, cfg, displays, stuck))
    case RemoveVirtual(id, virtuals, displays, stuck) =>
      s.(streams := Streams.RemoveVirtual(s.streams, id, virtuals, displays, stuck))
    case ScreenOff(client, off, works, now) =>
      s.(screen := ScreenLease.ScreenOff(s.screen, client, off, s.input.client, s.input.viewOnly, works, now))
    case MouseInput(client, m) => s.(input := HeldInput.MouseMove(s.input, client, m))
    case KeyInput(client, vk, pressed, mask) => s.(input := HeldInput.Keyboard(s.input, client, vk, pressed, mask))
    case SetViewOnly(on) => s.(input := s.input.(viewOnly := on))
    case Tick(now, done) =>
      s.(streams := Streams.Reap(s.streams, false, done),
         screen := ScreenLease.Tick(s.screen, s.input.client, s.input.viewOnly, now))
    case Quit(stuck) =>
      s.(streams := Streams.Quit(s.streams, stuck), screen := ScreenLease.Light(s.screen))
  }

  ghost function Run(s: State, es: seq<Event>): State
    decreases |es|
  {
    if es == [] then s else Run(Step(s, es[0]), es[1..])
  }

  /** Client numbers start at 1. */
  predicate FromClient(e: Event)
  {
    match e
    case Select(client, _, _, _) => client > 0
    case ScreenOff(client, _, _, _) => client > 0
    case _ => true
  }

  /** What holds after every run: of the workers, of the input, of the screen, and that they agree on the owner. */
  ghost predicate Inv(s: State)
  {
    Streams.Inv(s.streams) && HeldInput.Inv(s.input) && ScreenLease.Inv(s.screen) &&
    (s.input.client == 0 || s.input.client == s.streams.client)
  }

  lemma StepKeepsInv(s: State, e: Event)
    requires Inv(s) && FromClient(e)
    ensures Inv(Step(s, e))
  {
    hide Streams.Inv, HeldInput.Inv, Streams.Select, Streams.Configure, Streams.Quit, Streams.Reap,
        Streams.RemoveVirtual;
    hide HeldInput.Keyboard, HeldInput.MouseMove, HeldInput.TakeOver, HeldInput.Leave;
    match e
    case Connect => ScreenLease.LightKeepsInv(s.screen);
    case Disconnect(client, stuck) =>
      Streams.DisconnectKeepsInv(s.streams, client, stuck);
      HeldInput.LeaveClears(s.input);
      ScreenLease.LightKeepsInv(s.screen);
    case Select(client, ids, displays, stuck) =>
      Streams.SelectKeepsInv(s.streams, client, ids, displays, stuck);
      SelectOwner(s.streams, client, ids, displays, stuck);
      HeldInput.TakeOverClears(s.input, client);
    case Configure(client, cfg, displays, stuck) =>
      Streams.ConfigureKeepsInv(s.streams, client, cfg, displays, stuck);
      ConfigureOwner(s.streams, client, cfg, displays, stuck);
    case RemoveVirtual(id, virtuals, displays, stuck) =>
      Streams.RemoveVirtualKeepsInv(s.streams, id, virtuals, displays, stuck);
    case ScreenOff(client, off, works, now) =>
      ScreenLease.ScreenOffKeepsInv(s.screen, client, off, s.input.client, s.input.viewOnly, works, now);
    case MouseInput(client, m) => HeldInput.MouseKeepsInv(s.input, client, m);
    case KeyInput(client, vk, pressed, mask) => HeldInput.KeyboardKeepsInv(s.input, client, vk, pressed, mask);
    case SetViewOnly(on) => ViewOnlyKeepsInv(s.input, on);
    case Tick(now, done) =>
      Streams.ReapKeepsInv(s.streams, false, done);
      ReapOwner(s.streams, done);
      ScreenLease.TickEnforces(s.screen, s.input.client, s.input.viewOnly, now);
    case Quit(stuck) =>
      Streams.QuitJoinsAll(s.streams, stuck);
      QuitOwner(s.streams, stuck);
      ScreenLease.LightKeepsInv(s.screen);
  }

  lemma SelectOwner(s: Streams.State, client: nat, ids: seq<nat>, displays: set<nat>, stuck: set<nat>)
    requires Streams.Inv(s)
    ensures Streams.Select(s, client, ids, displays, stuck).client == client
  {
    Streams.SelectKeepsInv(s, client, ids, displays, stuck);
  }

  lemma ConfigureOwner(s: Streams.State, client: nat, cfg: Streams.Config, displays: set<nat>, stuck: set<nat>)
    requires Streams.Inv(s)
    ensures Streams.Configure(s, client, cfg, displays, stuck).client == s.client
  {
    if !cfg.SamePicture(s.cfg) { Streams.ReconfigureRestarts(s, client, cfg, displays, stuck); }
  }

  lemma ReapOwner(s: Streams.State, done: set<nat>)
    ensures Streams.Reap(s, false, done).client == s.client
  {
  }

  lemma QuitOwner(s: Streams.State, stuck: set<nat>)
    ensures Streams.Quit(s, stuck).client == s.client
  {
  }

  lemma ViewOnlyKeepsInv(s: HeldInput.State, on: bool)
    requires HeldInput.Inv(s)
    ensures HeldInput.Inv(s.(viewOnly := on))
  {
  }

  /** The invariants hold after every run from the start. */
  lemma {:induction false} RunKeepsInv(s: State, es: seq<Event>)
    requires Inv(s) && forall e | e in es :: FromClient(e)
    ensures Inv(Run(s, es))
    decreases |es|
  {
    if es != [] {
      StepKeepsInv(s, es[0]);
      RunKeepsInv(Step(s, es[0]), es[1..]);
    }
  }

  // ----- who injects what -----

  /** Input is refused on a view-only host, and from any client but the one that drives the PC. */
  lemma InputRefused(s: State, e: Event)
    requires e.MouseInput? || e.KeyInput?
    requires s.input.viewOnly || e.client != s.input.client
    ensures Step(s, e) == s
  {
  }

  /** Otherwise it is injected as it came, a key with its latched modifiers round it. */
  lemma InputInjected(s: State, e: Event)
    requires (e.MouseInput? || e.KeyInput?) && !s.input.viewOnly && e.client == s.input.client
    ensures var t := Step(s, e);
      && t.streams == s.streams && t.screen == s.screen && t.input.client == s.input.client
      && match e
         case MouseInput(c, m) =>
           t.input == s.input.(log := s.input.log + [HeldInput.Entry(c, HeldInput.MouseEvent(m))], heldMouse := m)
         case KeyInput(c, vk, pressed, mask) =>
           var mods := HeldInput.KeyEntries(c, HeldInput.Wrapping(vk, mask), pressed);
           var key := [HeldInput.Entry(c, HeldInput.KeyEvent(vk, pressed))];
           t.input.log == s.input.log + if pressed then mods + key else key + mods
         case _ => true
  {
    if e.KeyInput? {
      HeldInput.KeyboardInjects(s.input, e.client, e.vk, e.pressed, e.mask);
      HeldInput.KeysSame(s.input, e.client, e.vk, e.pressed, e.mask);
    }
  }

  /** What an event other than accepted input injects: the host's own releases at most. */
  lemma OnlyInputInjects(s: State, e: Event)
    requires !(e.MouseInput? || e.KeyInput?) || s.input.viewOnly || e.client != s.input.client
    ensures s.input.log <= Step(s, e).input.log
    ensures HeldInput.Releases(Step(s, e).input.log[|s.input.log|..])
  {
    hide Streams.Select, Streams.Configure, Streams.Quit, Streams.Reap, Streams.RemoveVirtual, HeldInput.Release;
    HeldInput.ReleaseInjects(s.input.(client := 0));
    if e.Select? { HeldInput.ReleaseInjects(s.input.(client := e.client)); }
  }

  /** While view-only stays on, a run injects nothing but the host's own releases. */
  lemma {:induction false} ViewOnlyInjectsNothing(s: State, es: seq<Event>)
    requires s.input.viewOnly && forall e | e in es :: e != SetViewOnly(false)
    ensures Run(s, es).input.viewOnly
    ensures s.input.log <= Run(s, es).input.log && HeldInput.Releases(Run(s, es).input.log[|s.input.log|..])
    decreases |es|
  {
    if es != [] {
      var t := Step(s, es[0]);
      assert es[0] in es && forall e | e in es[1..] :: e in es;
      OnlyInputInjects(s, es[0]);
      StaysViewOnly(s, es[0]);
      hide Step;
      ViewOnlyInjectsNothing(t, es[1..]);
      var a, b := t.input.log[|s.input.log|..], Run(t, es[1..]).input.log[|t.input.log|..];
      assert Run(s, es).input.log[|s.input.log|..] == a + b;
    }
  }

  lemma StaysViewOnly(s: State, e: Event)
    requires s.input.viewOnly && e != SetViewOnly(false)
    ensures Step(s, e).input.viewOnly
  {
    HeldInput.ReleaseKeepsSetting(s.input.(client := 0));
    if e.Select? { HeldInput.ReleaseKeepsSetting(s.input.(client := e.client)); }
  }

  /** Whether the event takes the screen's lease from an owner who was told to have it. */
  predicate TakesLease(s: State, e: Event)
  {
    && e.ScreenOff? && ScreenLease.TakesLease(s.screen, e.client, e.off, s.input.client)
    && ScreenLease.LastTold(s.screen.sent, s.screen.owner)
  }

  /** An event leaves a client misled about the screen exactly when it takes the lease. */
  lemma MisledIffTaken(s: State, e: Event)
    requires Inv(s) && FromClient(e) && ScreenLease.NoneMisled(s.screen)
    ensures ScreenLease.NoneMisled(Step(s, e).screen) <==> !TakesLease(s, e)
  {
    hide Streams.Inv, Streams.Select, Streams.Configure, Streams.Quit, Streams.Reap, Streams.RemoveVirtual;
    hide HeldInput.Inv;
    hide HeldInput.Keyboard, HeldInput.MouseMove, HeldInput.TakeOver, HeldInput.Leave, ScreenLease.NoneMisled;
    hide ScreenLease.ScreenOff, ScreenLease.Light, ScreenLease.LastTold, ScreenLease.TakesLease;
    ScreenLease.LightMisleadsNone(s.screen);
    if e.ScreenOff? {
      ScreenLease.MisledIffTaken(s.screen, e.client, e.off, s.input.client, s.input.viewOnly, e.works, e.now);
    }
  }

  /** In a run without such an event no client is ever misled. */
  lemma {:induction false} RunMisleadsNone(s: State, es: seq<Event>)
    requires Inv(s) && ScreenLease.NoneMisled(s.screen) && forall e | e in es :: FromClient(e)
    requires forall k | 0 <= k < |es| :: !TakesLease(Run(s, es[..k]), es[k])
    ensures ScreenLease.NoneMisled(Run(s, es).screen)
    decreases |es|
  {
    hide Inv, Step, TakesLease, ScreenLease.NoneMisled;
    if es != [] {
      assert es[..0] == [] && Run(s, []) == s;
      MisledIffTaken(s, es[0]);
      StepKeepsInv(s, es[0]);
      forall k | 0 <= k < |es| - 1 ensures !TakesLease(Run(Step(s, es[0]), es[1..][..k]), es[1..][k]) {
        assert es[1..][..k] == es[..k + 1][1..] && es[..k + 1][0] == es[0];
        assert Run(s, es[..k + 1]) == Run(Step(s, es[0]), es[..k + 1][1..]);
      }
      RunMisleadsNone(Step(s, es[0]), es[1..]);
    }
  }

  lemma {:induction false} RunNext(s: State, es: seq<Event>, k: nat)
    requires k < |es|
    ensures Run(s, es[..k + 1]) == Step(Run(s, es[..k]), es[k])
    decreases k
  {
    hide Step;
    if k == 0 {
      assert es[..0] == [] && es[..1] == [es[0]] && [es[0]][1..] == [];
      assert Run(s, []) == s && Run(Step(s, es[0]), []) == Step(s, es[0]);
    } else {
      RunNext(Step(s, es[0]), es[1..], k - 1);
      assert es[..k + 1][1..] == es[1..][..k] && es[..k][1..] == es[1..][..k - 1];
    }
  }

  /** In any run, a client is misled at some moment exactly when at some moment the lease is taken. */
  lemma {:induction false} MisledInRunIffTaken(s: State, es: seq<Event>)
    requires Inv(s) && ScreenLease.NoneMisled(s.screen) && forall e | e in es :: FromClient(e)
    ensures (forall k | 0 <= k <= |es| :: ScreenLease.NoneMisled(Run(s, es[..k]).screen)) <==>
            (forall k | 0 <= k < |es| :: !TakesLease(Run(s, es[..k]), es[k]))
  {
    hide Inv, Step, TakesLease, Run, ScreenLease.NoneMisled;
    if forall k | 0 <= k <= |es| :: ScreenLease.NoneMisled(Run(s, es[..k]).screen) {
      forall k | 0 <= k < |es| ensures !TakesLease(Run(s, es[..k]), es[k]) {
        RunKeepsInv(s, es[..k]);
        RunNext(s, es, k);
        MisledIffTaken(Run(s, es[..k]), es[k]);
      }
    }
    if forall k | 0 <= k < |es| :: !TakesLease(Run(s, es[..k]), es[k]) {
      forall k | 0 <= k <= |es| ensures ScreenLease.NoneMisled(Run(s, es[..k]).screen) {
        forall m | 0 <= m < k ensures !TakesLease(Run(s, es[..k][..m]), es[..k][m]) {
          assert es[..k][..m] == es[..m];
        }
        RunMisleadsNone(s, es[..k]);
      }
    }
  }

  /** At the start all of this holds, and no client was told anything. */
  lemma InitialInv(cfg: Streams.Config, viewOnly: bool)
    ensures Inv(Initial(cfg, viewOnly)) && ScreenLease.NoneMisled(Initial(cfg, viewOnly).screen)
    ensures !Initial(cfg, viewOnly).screen.dark && Initial(cfg, viewOnly).screen.sent == []
    ensures var input := Initial(cfg, viewOnly).input;
      input.log == [] && input.client == 0 && input.heldMouse == HeldInput.Mouse(0, 0, 0, 0, 0, 0)
  {
  }

  /** Client 1 darkens the screen, client 2 takes over and renews at once: client 1 still believes to hold the lease. */
  lemma LeaseTaken(cfg: Streams.Config, ids: seq<nat>, displays: set<nat>)
    ensures var es := [Select(1, ids, displays, {}), ScreenOff(1, true, true, 0),
                       Select(2, ids, displays, {}), ScreenOff(2, true, true, 1)];
      var t := Run(Initial(cfg, false), es).screen;
      t.owner == 2 && ScreenLease.LastTold(t.sent, 1) && !ScreenLease.NoneMisled(t)
  {
    hide Run, Streams.Inv, Streams.Select, HeldInput.Inv, HeldInput.TakeOver, ScreenLease.NoneMisled;
    var s0 := Initial(cfg, false);
    var e0, e1, e2, e3 := Select(1, ids, displays, {}), ScreenOff(1, true, true, 0),
                          Select(2, ids, displays, {}), ScreenOff(2, true, true, 1);
    var s1 := Step(s0, e0);
    var s2 := Step(s1, e1);
    var s3 := Step(s2, e2);
    FourSteps(s0, e0, e1, e2, e3);
    InitialInv(cfg, false);
    StepKeepsInv(s0, e0);
    Selects(s0, 1, ids, displays);
    Selects(s2, 2, ids, displays);
    ScreenLease.TellTold([], 1, true);
    ScreenLease.TellTold(s3.screen.sent, 2, true);
    assert ScreenLease.LastTold(Step(s3, e3).screen.sent, 1);
    ScreenLease.Misled(Step(s3, e3).screen, 1);
  }

  lemma Selects(s: State, client: nat, ids: seq<nat>, displays: set<nat>)
    requires Streams.Inv(s.streams) && client != s.streams.client
    requires s.input.heldKeys == {} && s.input.heldMouse.buttons == 0
    ensures var t := Step(s, Select(client, ids, displays, {}));
      t.streams.client == client && t.input == s.input.(client := client) && t.screen == s.screen
  {
    SelectOwner(s.streams, client, ids, displays, {});
  }

  lemma FourSteps(s: State, a: Event, b: Event, c: Event, d: Event)
    ensures Run(s, [a, b, c, d]) == Step(Step(Step(Step(s, a), b), c), d)
  {
    hide Step;
    assert [a, b, c, d][1..] == [b, c, d] && [b, c, d][1..] == [c, d] && [c, d][1..] == [d] && [d][1..] == [];
    var s3 := Step(Step(Step(s, a), b), c);
    assert Run(Step(s3, d), []) == Step(s3, d);
    assert Run(s3, [d]) == Step(s3, d);
    assert Run(Step(Step(s, a), b), [c, d]) == Run(s3, [d]);
    assert Run(Step(s, a), [b, c, d]) == Run(Step(Step(s, a), b), [c, d]);
  }

  /** What an event leaves as it was. */
  lemma LeavesAlone(s: State, e: Event)
    ensures var t := Step(s, e);
      match e
      case Connect => t.streams == s.streams && t.input == s.input && (s.screen.owner == 0 ==> t == s)
      case Disconnect(client, _) =>
        && (client != s.streams.client ==> t.streams == s.streams && t.input == s.input)
        && (client != s.screen.owner ==> t.screen == s.screen)
      case Select(client, _, _, _) => t.screen == s.screen && (client == s.streams.client ==> t.input == s.input)
      case Configure(_, _, _, _) => t.input == s.input && t.screen == s.screen
      case RemoveVirtual(_, _, _, _) => t.input == s.input && t.screen == s.screen
      case ScreenOff(_, _, _, _) => t.streams == s.streams && t.input == s.input
      case MouseInput(_, _) => t.streams == s.streams && t.screen == s.screen
      case KeyInput(_, _, _, _) => t.streams == s.streams && t.screen == s.screen
      case SetViewOnly(on) => t == s.(input := s.input.(viewOnly := on))
      case Tick(_, _) =>
        && t.input == s.input && t.streams.active == s.streams.active && t.streams.client == s.streams.client
        && t.streams.stops == s.streams.stops
      case Quit(_) => t.input == s.input
  {
    hide Streams.Select, Streams.Configure, Streams.Quit, Streams.RemoveVirtual;
    hide HeldInput.Keyboard, HeldInput.MouseMove, HeldInput.TakeOver, HeldInput.Leave;
  }

  /** What a single event brings about, in any state a run can reach. */
  lemma Outcome(s: State, e: Event)
    requires Inv(s) && FromClient(e)
    ensures var t := Step(s, e);
      match e
      case Connect => !t.screen.dark
      case Disconnect(client, _) =>
        && (client == s.streams.client ==>
              t.streams.active == [] && t.input.client == 0 && HeldInput.NothingPressed(t.input))
        && (client == s.screen.owner ==> !t.screen.dark)
      case Select(client, _, _, _) =>
        client != s.streams.client ==>
          && t.input.client == client && HeldInput.NothingPressed(t.input)
          && (forall w | w in s.streams.active :: w !in t.streams.active)
      case Tick(now, _) =>
        t.screen.dark ==> t.screen.owner == t.input.client == t.streams.client && !t.input.viewOnly &&
                          now <= t.screen.renewed + 10000
      case Quit(_) =>
        && !t.screen.dark && t.streams.active == [] && t.streams.graveyard == []
        && multiset(t.streams.joined) == multiset(t.streams.started)
      case _ => true
  {
    hide Streams.Inv, HeldInput.Inv, Streams.Select, Streams.Quit, Streams.Reap, HeldInput.TakeOver, HeldInput.Leave;
    match e
    case Connect => ScreenLease.LightKeepsInv(s.screen);
    case Disconnect(client, stuck) =>
      Streams.DisconnectKeepsInv(s.streams, client, stuck);
      HeldInput.LeaveClears(s.input);
      ScreenLease.LightKeepsInv(s.screen);
    case Select(client, ids, displays, stuck) =>
      Streams.SelectKeepsInv(s.streams, client, ids, displays, stuck);
      HeldInput.TakeOverClears(s.input, client);
    case Tick(now, done) =>
      ReapOwner(s.streams, done);
      ScreenLease.TickEnforces(s.screen, s.input.client, s.input.viewOnly, now);
    case Quit(stuck) =>
      Streams.QuitJoinsAll(s.streams, stuck);
      ScreenLease.LightKeepsInv(s.screen);
    case _ =>
  }
}
