/** The host's mutable state and its callbacks, each proved to take the step Host.Step describes. */
module HostService {
  import opened Bits
  import opened Streams
  import HeldInput
  import ScreenLease
  import Host

  class Service {
    // streams
    var activeStreams: seq<Worker>  // in order of their monitors
    var graveyard: seq<Worker>
    var joined: seq<Worker>
    var settings: map<nat, Config>
    var streamsClient: nat
    var streamCfg: Config
    ghost var started: seq<Worker>
    ghost var stops: seq<Stop>
    ghost var silent: seq<Worker>
    // input
    var inputClient: nat
    var heldMouse: HeldInput.Mouse
    var heldKeys: set<nat>
    var viewOnly: bool
    var inputScale: map<nat, HeldInput.Scale>
    ghost var injected: seq<HeldInput.Entry>
    // screen
    var screenOffClient: nat
    var screenOffUntil: int
    ghost var dark: bool
    ghost var renewed: int
    ghost var notices: seq<ScreenLease.Notice>
    var nextWorker: nat

    ghost function StreamsView(): Streams.State
      reads this
    {
      Streams.State(activeStreams, graveyard, joined, started, settings, streamsClient, streamCfg, stops, silent)
    }

    ghost function InputView(): HeldInput.State
      reads this
    {
      HeldInput.State(inputClient, heldMouse, heldKeys, viewOnly, injected)
    }

    ghost function ScreenView(): ScreenLease.State
      reads this
    {
      ScreenLease.State(screenOffClient, screenOffUntil, dark, renewed, notices)
    }

    ghost function View(): Host.State
      reads this
    {
      Host.State(StreamsView(), InputView(), ScreenView())
    }

    /** The laws of Host.Inv hold of the state, as every callback keeps them. */
    ghost predicate Valid()
      reads this
    {
      Numbered() && Host.Inv(View())
    }

    /** Workers are numbered in the order they start. */
    ghost predicate Numbered()
      reads this
    {
      nextWorker == |started|
    }

    constructor (cfg: Config, viewOnly: bool)
      ensures Valid() && View() == Host.Initial(cfg, viewOnly)
    {
      activeStreams, graveyard, joined, started, settings := [], [], [], [], map[];
      streamsClient, streamCfg, stops, silent, nextWorker := 0, cfg, [], [], 0;
      inputClient, heldMouse, heldKeys, injected := 0, HeldInput.NO_MOUSE, {}, [];
      this.viewOnly, inputScale := viewOnly, map[];
      screenOffClient, screenOffUntil, dark, renewed, notices := 0, 0, false, 0, [];
    }

    // ----- workers -----

    /** Asks workers to stop, joins those that return in time and parks the rest. */
    method Retire(ctxs: seq<Worker>, stuck: set<nat>)
      modifies this`joined, this`graveyard
      ensures StreamsView() == Streams.Retire(old(StreamsView()), ctxs, stuck)
    {
      RetireEach(ctxs, stuck, set w | w in ctxs && w.id in stuck);
    }

    method RetireEach(ctxs: seq<Worker>, stuck: set<nat>, ghost late: set<Worker>)
      requires forall w | w in ctxs :: w in late <==> w.id in stuck
      modifies this`joined, this`graveyard
      ensures joined == old(joined) + Keep(ctxs, late, false)
      ensures graveyard == old(graveyard) + Keep(ctxs, late, true)
    {
      for i := 0 to |ctxs|
        invariant joined == old(joined) + Keep(ctxs[..i], late, false)
        invariant graveyard == old(graveyard) + Keep(ctxs[..i], late, true)
      {
        var c := ctxs[i];
        assert c in late <==> c.id in stuck;
        KeepNext(ctxs, i, late, true);
        KeepNext(ctxs, i, late, false);
        hide Keep;
        if c.id !in stuck {
          joined := joined + [c];
        } else {
          graveyard := graveyard + [c];
        }
      }
      assert ctxs[..|ctxs|] == ctxs;
    }

    method StopAll(notify: bool, stuck: set<nat>)
      modifies this`activeStreams, this`joined, this`graveyard, this`stops, this`silent
      ensures StreamsView() == StopEvery(old(StreamsView()), notify, stuck)
    {
      var ctxs := activeStreams;
      activeStreams := [];
      Retire(ctxs, stuck);
      if notify {
        SendStops(ctxs);
      } else {
        silent := silent + ctxs;
      }
    }

    method SendStops(ctxs: seq<Worker>)
      modifies this`stops
      ensures stops == old(stops) + Messages(streamsClient, ctxs)
    {
      for i := 0 to |ctxs|
        invariant stops == old(stops) + Messages(streamsClient, ctxs)[..i]
      {
        stops := stops + [Stop(streamsClient, ctxs[i])];
      }
    }

    /** Splits the active workers into those the selection keeps and those it stops. */
    method TakeDeselected(client: nat, ids: seq<nat>) returns (stopping: seq<Worker>)
      modifies this`activeStreams
      ensures var kept := Kept(old(StreamsView()), client, ids);
        activeStreams == Keep(old(activeStreams), kept, true) && stopping == Keep(old(activeStreams), kept, false)
    {
      ghost var kept := Kept(StreamsView(), client, ids);
      var all, keeping := activeStreams, [];
      stopping := [];
      for i := 0 to |all|
        invariant keeping == Keep(all[..i], kept, true) && stopping == Keep(all[..i], kept, false)
      {
        KeepNext(all, i, kept, true);
        KeepNext(all, i, kept, false);
        if client == streamsClient && all[i].monitor in ids {
          keeping := keeping + [all[i]];
        } else {
          stopping := stopping + [all[i]];
        }
      }
      assert all[..|all|] == all;
      activeStreams := keeping;
    }

    method StopOthers(client: nat, ids: seq<nat>, stuck: set<nat>)
      modifies this`activeStreams, this`joined, this`graveyard, this`stops
      ensures StreamsView() == StopDeselected(old(StreamsView()), client, ids, stuck).(client := streamsClient)
    {
      var stopping := TakeDeselected(client, ids);
      hide Keep, Kept;
      Retire(stopping, stuck);
      hide Streams.Retire;
      SendStops(stopping);
    }

    method ApplySelection(client: nat, ids0: seq<nat>, displays: set<nat>, stuck: set<nat>)
      requires Numbered()
      modifies this`activeStreams, this`joined, this`graveyard, this`stops, this`streamsClient, this`started
      modifies this`settings, this`nextWorker, this`inputClient, this`heldMouse, this`heldKeys, this`injected
      ensures Numbered() && StreamsView() == Streams.Select(old(StreamsView()), client, ids0, displays, stuck)
      ensures InputView() == if client != old(streamsClient) then HeldInput.TakeOver(old(InputView()), client)
                             else old(InputView())
    {
      hide StopDeselected, StartAll, HeldInput.Release;
      var ids := if |ids0| > 3 then ids0[..3] else ids0;
      ghost var s1 := StopDeselected(StreamsView(), client, ids, stuck);
      StopDeselectedClient(StreamsView(), client, ids, stuck);
      StopOthers(client, ids, stuck);
      if client != streamsClient {
        inputClient := client;
        ReleaseInput();
        streamsClient := client;
      }
      assert StreamsView() == s1;
      StartSelected(ids, displays);
    }

    method StartSelected(ids: seq<nat>, displays: set<nat>)
      requires Numbered()
      modifies this`activeStreams, this`started, this`settings, this`nextWorker
      ensures Numbered() && StreamsView() == StartAll(old(StreamsView()), ids, displays)
    {
      for i := 0 to |ids|
        invariant Numbered()
        invariant StartAll(StreamsView(), ids[i..], displays) == StartAll(old(StreamsView()), ids, displays)
      {
        assert ids[i..][0] == ids[i] && ids[i..][1..] == ids[i + 1..];
        StartOne(ids[i], displays);
      }
    }

    method StartOne(id: nat, displays: set<nat>)
      requires Numbered()
      modifies this`activeStreams, this`started, this`settings, this`nextWorker
      ensures Numbered() && StreamsView() == Start(old(StreamsView()), id, displays)
    {
      if id in Monitors(activeStreams) { return; }
      if id !in displays { return; }
      var w := Worker(nextWorker, streamsClient, id);
      nextWorker := nextWorker + 1;
      started := started + [w];
      settings := settings[w.id := streamCfg];
      activeStreams := Insert(activeStreams, w);
    }

    // ----- input -----

    method InjectMouse(client: nat, m: HeldInput.Mouse)
      modifies this`injected
      ensures injected == old(injected) + [HeldInput.Entry(client, HeldInput.MouseEvent(m))]
    {
      injected := injected + [HeldInput.Entry(client, HeldInput.MouseEvent(m))];
    }

    method InjectKey(client: nat, vk: nat, down: bool)
      modifies this`injected
      ensures injected == old(injected) + [HeldInput.Entry(client, HeldInput.KeyEvent(vk, down))]
    {
      injected := injected + [HeldInput.Entry(client, HeldInput.KeyEvent(vk, down))];
    }

    /** Releases what is held: the buttons, then every key in ascending order. */
    method ReleaseInput()
      modifies this`heldMouse, this`heldKeys, this`injected
      ensures InputView() == HeldInput.Release(old(InputView()))
    {
      if heldMouse.buttons != 0 {
        InjectMouse(0, heldMouse.(buttons := 0, scroll := 0, scrollH := 0));
        heldMouse := heldMouse.(buttons := 0);
      }
      ghost var s := InputView();
      var rest := heldKeys;
      while rest != {}
        invariant HeldInput.ReleaseKeys(InputView().(heldKeys := rest)) == HeldInput.ReleaseKeys(s)
        decreases |rest|
      {
        HeldInput.LeastExists(rest);
        var vk: nat :| vk in rest && forall k | k in rest :: vk <= k;
        assert vk == HeldInput.Least(rest);
        InjectKey(0, vk, false);
        rest := rest - {vk};
      }
      heldKeys := {};
    }

    method Key(client: nat, vk: nat, down: bool)
      modifies this`heldKeys, this`injected
      ensures InputView() == HeldInput.Key(old(InputView()), client, vk, down)
    {
      InjectKey(client, vk, down);
      heldKeys := if down then heldKeys + {vk} else heldKeys - {vk};
    }

    method SendModifiers(client: nat, vk: nat, mask: nat, down: bool)
      modifies this`heldKeys, this`injected
      ensures InputView() == HeldInput.Keys(old(InputView()), client, HeldInput.Wrapping(vk, mask), down)
    {
      if HeldInput.IsModifier(vk) { return; }
      ghost var mods := HeldInput.Modifiers(mask);
      ghost var s := InputView();
      var kMods := [(1, 0x10), (2, 0x11), (4, 0x12), (8, 0x5B)];
      ghost var sent := [];
      for i := 0 to 4
        invariant InputView() == HeldInput.Keys(s, client, sent, down) && sent == ModifiersUpTo(mask, i)
      {
        var (bit, mvk) := kMods[i];
        if mask / bit % 2 == 1 {
          KeysThen(s, client, sent, mvk, down);
          Key(client, mvk, down);
          sent := sent + [mvk];
        }
      }
    }

    method OnKeyboard(client: nat, vk: nat, pressed: bool, mask: nat)
      modifies this`heldKeys, this`injected
      requires Valid()
      ensures Valid() && View() == Host.Step(old(View()), Host.KeyInput(client, vk, pressed, mask))
    {
      hide Host.Inv;
      Host.StepKeepsInv(View(), Host.KeyInput(client, vk, pressed, mask));
      if viewOnly { return; }
      if client != inputClient { return; }
      if pressed { SendModifiers(client, vk, mask, true); }
      Key(client, vk, pressed);
      if !pressed { SendModifiers(client, vk, mask, false); }
    }

    /** A stream's worker registers how its pixels map to the monitor's. */
    method SetInputScale(monitor: nat, scale: HeldInput.Scale)
      modifies this`inputScale
      ensures inputScale == HeldInput.AfterScale(old(inputScale), HeldInput.Register(monitor, scale))
    {
      inputScale := inputScale[monitor := scale];
    }

    /** A worker ends: the entry goes if it is still its own. */
    method EraseInputScale(monitor: nat, owner: nat)
      modifies this`inputScale
      ensures inputScale == HeldInput.AfterScale(old(inputScale), HeldInput.Forget(monitor, owner))
    {
      if monitor in inputScale && inputScale[monitor].owner == owner { inputScale := inputScale - {monitor}; }
    }

    method OnMouse(client: nat, m: HeldInput.Mouse)
      modifies this`heldMouse, this`injected
      requires Valid()
      ensures Valid() && View() == Host.Step(old(View()), Host.MouseInput(client, HeldInput.Scaled(m, inputScale)))
    {
      hide Host.Inv;
      Host.StepKeepsInv(View(), Host.MouseInput(client, HeldInput.Scaled(m, inputScale)));
      if viewOnly { return; }
      if client != inputClient { return; }
      var scaled := m;
      if m.monitor in inputScale {
        var sc := inputScale[m.monitor];
        scaled := scaled.(x := HeldInput.Native(m.x, sc.x));
        scaled := scaled.(y := HeldInput.Native(m.y, sc.y));
      }
      InjectMouse(client, scaled);
      heldMouse := scaled;
    }

    method SetViewOnly(on: bool)
      modifies this`viewOnly
      requires Valid()
      ensures Valid() && View() == Host.Step(old(View()), Host.SetViewOnly(on))
    {
      hide Host.Inv;
      Host.StepKeepsInv(View(), Host.SetViewOnly(on));
      viewOnly := on;
    }

    // ----- screen -----

    method SendScreenOff(client: nat, off: bool)
      modifies this`notices
      ensures notices == old(notices) + [ScreenLease.Notice(client, off)]
    {
      notices := notices + [ScreenLease.Notice(client, off)];
    }

    method LightScreen()
      modifies this`screenOffClient, this`dark, this`notices
      ensures ScreenView() == ScreenLease.Light(old(ScreenView()))
    {
      var owner := screenOffClient;
      screenOffClient := 0;
      if owner == 0 { return; }
      dark := false;
      SendScreenOff(owner, false);
    }

    method OnScreenOff(client: nat, off: bool, works: bool, now: int)
      modifies this`screenOffClient, this`screenOffUntil, this`dark, this`renewed, this`notices
      requires Valid() && client > 0
      ensures Valid() && View() == Host.Step(old(View()), Host.ScreenOff(client, off, works, now))
    {
      hide Host.Inv;
      Host.StepKeepsInv(View(), Host.ScreenOff(client, off, works, now));
      if client != inputClient {
        SendScreenOff(client, false);
        return;
      }
      var owner := screenOffClient;
      if !off {
        if owner != 0 { LightScreen(); }
        if owner != client { SendScreenOff(client, false); }
        return;
      }
      if owner == 0 {
        if viewOnly || !works {
          SendScreenOff(client, false);
          return;
        }
      }
      Darken(client, now);
    }

    method Darken(client: nat, now: int)
      modifies this`screenOffClient, this`screenOffUntil, this`dark, this`renewed, this`notices
      ensures var s := old(ScreenView());
        var t := s.(dark := true, until := now + ScreenLease.LEASE_MS, renewed := now, owner := client);
        ScreenView() == if s.owner != client then ScreenLease.Tell(t, client, true) else t
    {
      var owner := screenOffClient;
      dark := true;
      screenOffUntil := now + ScreenLease.LEASE_MS;
      renewed := now;
      screenOffClient := client;
      if owner != client { SendScreenOff(client, true); }
    }

    // ----- the other callbacks -----

    method OnConnected()
      modifies this`screenOffClient, this`dark, this`notices
      requires Valid()
      ensures Valid() && View() == Host.Step(old(View()), Host.Connect)
    {
      hide Host.Inv;
      Host.StepKeepsInv(View(), Host.Connect);
      LightScreen();
    }

    method OnDisconnected(client: nat, stuck: set<nat>)
      modifies this
      requires Valid()
      ensures Valid() && View() == Host.Step(old(View()), Host.Disconnect(client, stuck))
    {
      hide Host.Inv;
      Host.StepKeepsInv(View(), Host.Disconnect(client, stuck));
      hide StopEvery, HeldInput.Leave, ScreenLease.Light;
      if client == screenOffClient { LightScreen(); }
      if client != streamsClient { return; }
      EndStreams(stuck);
    }

    method EndStreams(stuck: set<nat>)
      modifies this`activeStreams, this`joined, this`graveyard, this`stops, this`silent
      modifies this`inputClient, this`heldMouse, this`heldKeys, this`injected
      ensures StreamsView() == StopEvery(old(StreamsView()), false, stuck)
      ensures InputView() == HeldInput.Leave(old(InputView()))
    {
      hide StopEvery, HeldInput.Release;
      StopAll(false, stuck);
      inputClient := 0;
      ReleaseInput();
    }

    method OnSelect(client: nat, ids: seq<nat>, displays: set<nat>, stuck: set<nat>)
      modifies this
      requires Valid() && client > 0
      ensures Valid() && View() == Host.Step(old(View()), Host.Select(client, ids, displays, stuck))
    {
      hide Host.Inv;
      Host.StepKeepsInv(View(), Host.Select(client, ids, displays, stuck));
      ApplySelection(client, ids, displays, stuck);
    }

    method OnStreamConfig(client: nat, cfg: Config, displays: set<nat>, stuck: set<nat>)
      modifies this
      requires Valid()
      ensures Valid() && View() == Host.Step(old(View()), Host.Configure(client, cfg, displays, stuck))
    {
      hide Host.Inv;
      Host.StepKeepsInv(View(), Host.Configure(client, cfg, displays, stuck));
      hide StopEvery, Streams.Select, Monitors;
      if activeStreams != [] && client != streamsClient { return; }
      if cfg.SamePicture(streamCfg) {
        settings := settings + map w | w in activeStreams :: w.id := cfg;
        streamCfg := cfg;
        return;
      }
      Restart(cfg, displays, stuck);
    }

    /** Another codec or size: the streams stop, and start again with it. */
    method Restart(cfg: Config, displays: set<nat>, stuck: set<nat>)
      modifies this
      requires Numbered()
      ensures Numbered() && InputView() == old(InputView()) && ScreenView() == old(ScreenView())
      ensures var s, ids := old(StreamsView()), Monitors(old(activeStreams));
        var s1 := StopEvery(s.(cfg := cfg), true, stuck);
        StreamsView() == if ids == [] then s1 else Streams.Select(s1, s1.client, ids, displays, stuck)
    {
      hide StopEvery, Streams.Select, HeldInput.TakeOver, Monitors;
      ghost var s := StreamsView();
      var ids := Monitors(activeStreams);
      streamCfg := cfg;
      StopAll(true, stuck);
      assert StreamsView() == StopEvery(s.(cfg := cfg), true, stuck);
      if ids != [] { ApplySelection(streamsClient, ids, displays, stuck); }
    }

    /** The monitors streaming besides `id`, and whether `id` is. */
    method OtherMonitors(id: nat) returns (keep: seq<nat>, streaming: bool)
      ensures keep == Without(Monitors(activeStreams), id) && (streaming <==> id in Monitors(activeStreams))
    {
      keep, streaming := [], false;
      ghost var mons := Monitors(activeStreams);
      for i := 0 to |activeStreams|
        invariant keep == Without(mons[..i], id) && (streaming <==> id in mons[..i])
      {
        WithoutAppend(mons[..i], mons[i], id);
        assert mons[..i + 1] == mons[..i] + [mons[i]];
        if activeStreams[i].monitor == id {
          streaming := true;
        } else {
          keep := keep + [activeStreams[i].monitor];
        }
      }
      assert mons[..|mons|] == mons;
    }

    method RemoveVirtual(id: nat, virtuals: set<nat>, displays: set<nat>, stuck: set<nat>)
      modifies this
      requires Valid()
      ensures Valid() && View() == Host.Step(old(View()), Host.RemoveVirtual(id, virtuals, displays, stuck))
    {
      hide Host.Inv, Streams.Select, HeldInput.TakeOver, Monitors, Without;
      Host.StepKeepsInv(View(), Host.RemoveVirtual(id, virtuals, displays, stuck));
      if id !in virtuals { return; }
      var keep, streaming := OtherMonitors(id);
      if streaming { ApplySelection(streamsClient, keep, displays, stuck); }
    }

    method ReapGraveyard(wait: bool, done: set<nat>)
      modifies this`graveyard, this`joined
      ensures StreamsView() == Reap(old(StreamsView()), wait, done)
    {
      ReapEach(wait, done, set w | w in graveyard && (wait || w.id in done));
    }

    method ReapEach(wait: bool, done: set<nat>, ghost back: set<Worker>)
      requires forall w | w in graveyard :: w in back <==> wait || w.id in done
      modifies this`graveyard, this`joined
      ensures graveyard == Keep(old(graveyard), back, false) && joined == old(joined) + Keep(old(graveyard), back, true)
    {
      var all, still := graveyard, [];
      for i := 0 to |all|
        invariant still == Keep(all[..i], back, false) && joined == old(joined) + Keep(all[..i], back, true)
      {
        var c := all[i];
        assert c in back <==> wait || c.id in done;
        KeepNext(all, i, back, true);
        KeepNext(all, i, back, false);
        hide Keep;
        if !wait && c.id !in done {
          still := still + [c];
        } else {
          joined := joined + [c];
        }
      }
      assert all[..|all|] == all;
      graveyard := still;
    }

    method OnTick(now: int, done: set<nat>)
      modifies this
      requires Valid()
      ensures Valid() && View() == Host.Step(old(View()), Host.Tick(now, done))
    {
      hide Host.Inv;
      Host.StepKeepsInv(View(), Host.Tick(now, done));
      ReapGraveyard(false, done);
      if screenOffClient != 0 && (viewOnly || screenOffClient != inputClient || now > screenOffUntil) {
        LightScreen();
      }
    }

    method Shutdown(stuck: set<nat>)
      modifies this
      requires Valid()
      ensures Valid() && View() == Host.Step(old(View()), Host.Quit(stuck))
    {
      hide Host.Inv, StopEvery, Reap, ScreenLease.Light;
      Host.StepKeepsInv(View(), Host.Quit(stuck));
      LightScreen();
      StopAll(false, stuck);
      ReapGraveyard(true, {});
    }
  }

  lemma KeepNext(ws: seq<Worker>, i: nat, some: set<Worker>, inside: bool)
    requires i < |ws|
    ensures Keep(ws[..i + 1], some, inside)
         == Keep(ws[..i], some, inside) + if (ws[i] in some) == inside then [ws[i]] else []
  {
    assert ws[..i + 1] == ws[..i] + [ws[i]];
    KeepAppend(ws[..i], ws[i], some, inside);
  }

  lemma {:induction false} KeepAppend(ws: seq<Worker>, w: Worker, some: set<Worker>, inside: bool)
    ensures Keep(ws + [w], some, inside) == Keep(ws, some, inside) + if (w in some) == inside then [w] else []
  {
    if ws == [] {
      assert [] + [w] == [w] && [w][1..] == [];
    } else {
      assert (ws + [w])[1..] == ws[1..] + [w];
      KeepAppend(ws[1..], w, some, inside);
    }
  }

  lemma StopDeselectedClient(s: Streams.State, client: nat, ids: seq<nat>, stuck: set<nat>)
    ensures StopDeselected(s, client, ids, stuck).client == client
  {
  }

  lemma {:induction false} WithoutAppend(ids: seq<nat>, m: nat, id: nat)
    ensures Without(ids + [m], id) == Without(ids, id) + if m != id then [m] else []
  {
    if ids == [] {
      assert [] + [m] == [m] && [m][1..] == [];
    } else {
      assert (ids + [m])[1..] == ids[1..] + [m];
      WithoutAppend(ids[1..], m, id);
    }
  }

  ghost function ModifiersUpTo(mask: nat, i: nat): seq<nat>
    requires i <= 4
  {
    (if i > 0 && mask % 2 == 1 then [0x10] else []) + (if i > 1 && mask / 2 % 2 == 1 then [0x11] else []) +
    (if i > 2 && mask / 4 % 2 == 1 then [0x12] else []) + (if i > 3 && mask / 8 % 2 == 1 then [0x5B] else [])
  }

  lemma {:induction false} KeysThen(s: HeldInput.State, client: nat, vks: seq<nat>, vk: nat, down: bool)
    ensures HeldInput.Keys(s, client, vks + [vk], down)
         == HeldInput.Key(HeldInput.Keys(s, client, vks, down), client, vk, down)
    decreases |vks|
  {
    if vks == [] {
      assert [] + [vk] == [vk];
    } else {
      assert (vks + [vk])[1..] == vks[1..] + [vk];
      KeysThen(HeldInput.Key(s, client, vks[0], down), client, vks[1..], vk, down);
    }
  }
}
