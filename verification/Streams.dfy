/**
 * Stream workers and their owner: selection, take-over, reconfiguration, disconnection, removal of a
 * virtual monitor, the graveyard of slow workers, and shutdown. One section under the operations lock
 * is one step.
 */
module Streams {

  datatype Config = Config(codec: nat, bitrateKbps: nat, jpegQuality: nat, maxWidth: nat, maxFps: nat)
  {
    predicate SamePicture(other: Config) {
      codec == other.codec && maxWidth == other.maxWidth
    }
  }

  /** A worker thread: its number in order of starting, the client and the monitor it was started for. */
  datatype Worker = Worker(id: nat, client: nat, monitor: nat)

  /** A STREAM_STOP message: the client it was sent to, and the worker whose stream it ends. */
  datatype Stop = Stop(to: nat, worker: Worker)

  /**
   * The active workers in order of their monitors (the source's ordered map), the stuck ones, the joined
   * ones, every worker ever started, the settings each worker runs with, the streaming client, the current
   * configuration, and which workers were stopped with and without a message.
   */
  datatype State = State(active: seq<Worker>, graveyard: seq<Worker>, joined: seq<Worker>, started: seq<Worker>,
                         settings: map<nat, Config>, client: nat, cfg: Config, stops: seq<Stop>, silent: seq<Worker>)

  function Initial(cfg: Config): State
  {
    State([], [], [], [], map[], 0, cfg, [], [])
  }

  // ----- lists of workers -----

  /** The workers of `ws` that are (or are not) in `some`, in order. */
  function Keep(ws: seq<Worker>, some: set<Worker>, inside: bool): (r: seq<Worker>)
    ensures forall w :: w in r <==> w in ws && (w in some <==> inside)
  {
    if ws == [] then [] else (if (ws[0] in some) == inside then [ws[0]] else []) + Keep(ws[1..], some, inside)
  }

  function Monitors(ws: seq<Worker>): (r: seq<nat>)
    ensures |r| == |ws| && forall i | 0 <= i < |ws| :: r[i] == ws[i].monitor
  {
    seq(|ws|, i requires 0 <= i < |ws| => ws[i].monitor)
  }

  function Messages(to: nat, ws: seq<Worker>): (r: seq<Stop>)
    ensures |r| == |ws| && forall i | 0 <= i < |ws| :: r[i] == Stop(to, ws[i])
  {
    seq(|ws|, i requires 0 <= i < |ws| => Stop(to, ws[i]))
  }

  function Stopped(stops: seq<Stop>): (r: seq<Worker>)
    ensures |r| == |stops| && forall i | 0 <= i < |stops| :: r[i] == stops[i].worker
  {
    seq(|stops|, i requires 0 <= i < |stops| => stops[i].worker)
  }

  predicate Sorted(ws: seq<Worker>)
  {
    forall i, j | 0 <= i < j < |ws| :: ws[i].monitor < ws[j].monitor
  }

  function Insert(ws: seq<Worker>, w: Worker): seq<Worker>
  {
    if ws == [] || w.monitor < ws[0].monitor then [w] + ws else [ws[0]] + Insert(ws[1..], w)
  }

  // ----- the steps -----

  /** Joins the workers that stop in time; those in `stuck` go to the graveyard. */
  function Retire(s: State, ctxs: seq<Worker>, stuck: set<nat>): State
  {
    var late := set w | w in ctxs && w.id in stuck;
    s.(joined := s.joined + Keep(ctxs, late, false), graveyard := s.graveyard + Keep(ctxs, late, true))
  }

  function StopEvery(s: State, notify: bool, stuck: set<nat>): State
  {
    var t := Retire(s.(active := []), s.active, stuck);
    if notify then t.(stops := t.stops + Messages(s.client, s.active)) else t.(silent := t.silent + s.active)
  }

  function Limit(ids: seq<nat>): (r: seq<nat>)
    ensures |r| <= 3 && r <= ids
  {
    if |ids| > 3 then ids[..3] else ids
  }

  function Start(s: State, id: nat, displays: set<nat>): State
  {
    if id in Monitors(s.active) || id !in displays then s else
      var w := Worker(|s.started|, s.client, id);
      s.(active := Insert(s.active, w), started := s.started + [w], settings := s.settings[w.id := s.cfg])
  }

  function StartAll(s: State, ids: seq<nat>, displays: set<nat>): State
    decreases |ids|
  {
    if ids == [] then s else StartAll(Start(s, ids[0], displays), ids[1..], displays)
  }

  /** The workers a selection by `client` leaves running. */
  function Kept(s: State, client: nat, ids: seq<nat>): set<Worker>
  {
    set w | w in s.active && client == s.client && w.monitor in ids
  }

  /** Stops what is deselected (all of it on a take-over), then starts what is new. */
  function Select(s: State, client: nat, ids: seq<nat>, displays: set<nat>, stuck: set<nat>): State
  {
    StartAll(StopDeselected(s, client, Limit(ids), stuck), Limit(ids), displays)
  }

  function StopDeselected(s: State, client: nat, ids: seq<nat>, stuck: set<nat>): State
  {
    var kept := Kept(s, client, ids);
    var stopping := Keep(s.active, kept, false);
    var s1 := Retire(s.(active := Keep(s.active, kept, true)), stopping, stuck);
    s1.(stops := s1.stops + Messages(s.client, stopping), client := client)
  }

  /** New stream settings: retuned in place, or every stream restarted for a new codec or size. */
  function Configure(s: State, client: nat, cfg: Config, displays: set<nat>, stuck: set<nat>): State
  {
    if s.active != [] && client != s.client then s
    else if cfg.SamePicture(s.cfg) then
      s.(cfg := cfg, settings := s.settings + map w | w in s.active :: w.id := cfg)
    else
      var ids := Monitors(s.active);
      var s1 := StopEvery(s.(cfg := cfg), true, stuck);
      if ids == [] then s1 else Select(s1, s1.client, ids, displays, stuck)
  }

  function Disconnect(s: State, client: nat, stuck: set<nat>): State
  {
    if client == s.client then StopEvery(s, false, stuck) else s
  }

  function Without(ids: seq<nat>, id: nat): (r: seq<nat>)
    ensures forall m :: m in r <==> m in ids && m != id
    ensures |r| <= |ids|
  {
    if ids == [] then [] else (if ids[0] != id then [ids[0]] else []) + Without(ids[1..], id)
  }

  /** Removes a virtual monitor of this host: its stream stops, the others go on. */
  function RemoveVirtual(s: State, id: nat, virtuals: set<nat>, displays: set<nat>, stuck: set<nat>): State
  {
    if id in virtuals && id in Monitors(s.active)
    then Select(s, s.client, Without(Monitors(s.active), id), displays, stuck)
    else s
  }

  /** Joins the stuck workers that have returned, or waits for all of them. */
  function Reap(s: State, wait: bool, done: set<nat>): State
  {
    var back := set w | w in s.graveyard && (wait || w.id in done);
    s.(graveyard := Keep(s.graveyard, back, false), joined := s.joined + Keep(s.graveyard, back, true))
  }

  function Quit(s: State, stuck: set<nat>): State
  {
    Reap(StopEvery(s, false, stuck), true, {})
  }

  // ----- what every step keeps -----

  /** Each started worker is in exactly one place, and each retired one was stopped exactly once. */
  ghost predicate Conserved(s: State)
  {
    (forall i | 0 <= i < |s.started| :: s.started[i].id == i) &&
    multiset(s.started) == multiset(s.active) + multiset(s.graveyard) + multiset(s.joined) &&
    multiset(Stopped(s.stops)) + multiset(s.silent) == multiset(s.graveyard) + multiset(s.joined)
  }

  /** At most three workers, one a monitor, all of the streaming client and all on the current settings. */
  ghost predicate OneOwner(s: State)
  {
    Sorted(s.active) && |s.active| <= 3 &&
    forall w | w in s.active ::
      w.client == s.client && w.id < |s.started| && w.id in s.settings && s.settings[w.id] == s.cfg
  }

  /** Every STREAM_STOP went to the client its worker was started for. */
  ghost predicate StopsAddressed(s: State)
  {
    forall m | m in s.stops :: m.to == m.worker.client
  }

  ghost predicate Inv(s: State)
  {
    Conserved(s) && OneOwner(s) && StopsAddressed(s)
  }

  // ----- proofs -----

  lemma {:induction false} KeepSplits(ws: seq<Worker>, some: set<Worker>)
    ensures multiset(Keep(ws, some, true)) + multiset(Keep(ws, some, false)) == multiset(ws)
  {
    if ws != [] {
      KeepSplits(ws[1..], some);
      assert ws == [ws[0]] + ws[1..];
    }
  }

  lemma ConsSorted(w: Worker, ws: seq<Worker>)
    requires Sorted(ws) && forall x | x in ws :: w.monitor < x.monitor
    ensures Sorted([w] + ws)
  {
    forall i, j | 0 <= i < j < |ws| + 1 ensures ([w] + ws)[i].monitor < ([w] + ws)[j].monitor {
      assert ([w] + ws)[j] == ws[j - 1];
    }
  }

  lemma HeadSmallest(ws: seq<Worker>)
    requires Sorted(ws) && ws != []
    ensures Sorted(ws[1..]) && forall x | x in ws[1..] :: ws[0].monitor < x.monitor
  {
  }

  lemma {:induction false} KeepSorted(ws: seq<Worker>, some: set<Worker>, inside: bool)
    requires Sorted(ws)
    ensures Sorted(Keep(ws, some, inside)) && |Keep(ws, some, inside)| <= |ws|
  {
    if ws != [] {
      HeadSmallest(ws);
      KeepSorted(ws[1..], some, inside);
      ConsSorted(ws[0], Keep(ws[1..], some, inside));
    }
  }

  lemma {:induction false} InsertAdds(ws: seq<Worker>, w: Worker)
    ensures multiset(Insert(ws, w)) == multiset(ws) + multiset{w}
    ensures forall x :: x in Insert(ws, w) <==> x in ws || x == w
  {
    if ws != [] && ws[0].monitor <= w.monitor {
      InsertAdds(ws[1..], w);
      assert ws == [ws[0]] + ws[1..];
    }
  }

  lemma {:induction false} InsertSorted(ws: seq<Worker>, w: Worker)
    requires Sorted(ws) && forall x | x in ws :: x.monitor != w.monitor
    ensures Sorted(Insert(ws, w)) && |Insert(ws, w)| == |ws| + 1
  {
    if ws == [] {
    } else {
      HeadSmallest(ws);
      if w.monitor < ws[0].monitor {
        ConsSorted(w, ws);
      } else {
        InsertSorted(ws[1..], w);
        InsertAdds(ws[1..], w);
        ConsSorted(ws[0], Insert(ws[1..], w));
      }
    }
  }

  // ----- conservation -----

  lemma MessagesCarry(stops: seq<Stop>, to: nat, ws: seq<Worker>)
    ensures Stopped(stops + Messages(to, ws)) == Stopped(stops) + ws
  {
  }

  /** Retiring active workers and recording how they were stopped conserves every worker. */
  lemma RetireConserves(s: State, kept: set<Worker>, stuck: set<nat>, notify: bool, t: State)
    requires Conserved(s)
    requires var stopping := Keep(s.active, kept, false);
      var s1 := Retire(s.(active := Keep(s.active, kept, true)), stopping, stuck);
      t == if notify then s1.(stops := s1.stops + Messages(s.client, stopping)) else s1.(silent := s1.silent + stopping)
    ensures Conserved(t)
  {
    var stopping := Keep(s.active, kept, false);
    var late := set w | w in stopping && w.id in stuck;
    KeepSplits(s.active, kept);
    KeepSplits(stopping, late);
    MessagesCarry(s.stops, s.client, stopping);
    assert multiset(t.graveyard) + multiset(t.joined) ==
        multiset(s.graveyard) + multiset(s.joined) + multiset(stopping);
    if notify {
      assert multiset(Stopped(t.stops)) == multiset(Stopped(s.stops)) + multiset(stopping);
    } else {
      assert multiset(t.silent) == multiset(s.silent) + multiset(stopping);
    }
  }

  lemma {:induction false} KeepNone(ws: seq<Worker>)
    ensures Keep(ws, {}, false) == ws && Keep(ws, {}, true) == []
  {
    if ws != [] { KeepNone(ws[1..]); }
  }

  lemma StopEveryKeepsInv(s: State, notify: bool, stuck: set<nat>)
    requires Inv(s)
    ensures Inv(StopEvery(s, notify, stuck))
  {
    KeepNone(s.active);
    RetireConserves(s, {}, stuck, notify, StopEvery(s, notify, stuck));
  }

  lemma StopDeselectedKeepsInv(s: State, client: nat, ids: seq<nat>, stuck: set<nat>)
    requires Inv(s)
    ensures Inv(StopDeselected(s, client, ids, stuck))
  {
    var kept, t := Kept(s, client, ids), StopDeselected(s, client, ids, stuck);
    RetireConserves(s, kept, stuck, true, t.(client := s.client));
    KeepSorted(s.active, kept, true);
  }

  lemma {:induction false} LengthWithin(ws: seq<Worker>, ids: seq<nat>)
    requires Sorted(ws) && forall w | w in ws :: w.monitor in ids
    ensures |ws| <= |ids|
    decreases |ws|
  {
    if ws != [] {
      HeadSmallest(ws);
      LengthWithin(ws[1..], Without(ids, ws[0].monitor));
      WithoutShorter(ids, ws[0].monitor);
    }
  }

  lemma {:induction false} WithoutShorter(ids: seq<nat>, id: nat)
    requires id in ids
    ensures |Without(ids, id)| < |ids|
  {
    if ids[0] != id { WithoutShorter(ids[1..], id); }
  }

  lemma StartKeepsInv(s: State, id: nat, displays: set<nat>)
    requires Conserved(s) && StopsAddressed(s) && OwnedWorkers(s)
    ensures var t := Start(s, id, displays);
      Conserved(t) && StopsAddressed(t) && OwnedWorkers(t) && t.client == s.client
  {
    var t := Start(s, id, displays);
    if t != s {
      var w := Worker(|s.started|, s.client, id);
      NoSuchMonitor(s.active, id);
      InsertAdds(s.active, w);
      InsertSorted(s.active, w);
      assert multiset(t.started) == multiset(s.started) + multiset{w};
    }
  }

  /** OneOwner without the bound on the number. */
  ghost predicate OwnedWorkers(s: State)
  {
    Sorted(s.active) && forall w | w in s.active ::
      w.client == s.client && w.id < |s.started| && w.id in s.settings && s.settings[w.id] == s.cfg
  }

  lemma NoSuchMonitor(ws: seq<Worker>, id: nat)
    requires id !in Monitors(ws)
    ensures forall w | w in ws :: w.monitor != id
  {
    forall w | w in ws ensures w.monitor != id {
      var i :| 0 <= i < |ws| && ws[i] == w;
      assert Monitors(ws)[i] == w.monitor;
    }
  }

  lemma MonitorIn(ws: seq<Worker>, id: nat)
    ensures id in Monitors(ws) <==> exists w :: w in ws && w.monitor == id
  {
    if id in Monitors(ws) {
      var i :| 0 <= i < |ws| && Monitors(ws)[i] == id;
      assert ws[i] in ws && ws[i].monitor == id;
    } else {
      NoSuchMonitor(ws, id);
    }
  }

  /** What a series of starts adds: a new worker for each listed monitor that exists and has none. */
  ghost predicate Starts(s: State, ids: seq<nat>, displays: set<nat>, t: State)
  {
    t.client == s.client && t.cfg == s.cfg && t.graveyard == s.graveyard && t.joined == s.joined &&
    t.stops == s.stops && t.silent == s.silent && s.started <= t.started &&
    (forall w | w in s.active :: w in t.active) &&
    (forall w | w in t.active :: w in s.active || (w.id >= |s.started| && w.monitor in ids && w.monitor in displays)) &&
    (forall m | m in ids && m in displays :: m in Monitors(t.active))
  }

  lemma {:induction false} StartAllKeepsInv(s: State, ids: seq<nat>, displays: set<nat>)
    requires Conserved(s) && StopsAddressed(s) && OwnedWorkers(s)
    ensures var t := StartAll(s, ids, displays);
      Conserved(t) && StopsAddressed(t) && OwnedWorkers(t) && Starts(s, ids, displays, t)
    decreases |ids|
  {
    if ids != [] {
      var s1 := Start(s, ids[0], displays);
      StartKeepsInv(s, ids[0], displays);
      StartOnce(s, ids[0], displays);
      StartAllKeepsInv(s1, ids[1..], displays);
      StartsThen(s, ids, displays, s1, StartAll(s, ids, displays));
    }
  }

  lemma StartOnce(s: State, id: nat, displays: set<nat>)
    ensures Starts(s, [id], displays, Start(s, id, displays))
  {
    var w := Worker(|s.started|, s.client, id);
    InsertAdds(s.active, w);
    MonitorIn(Insert(s.active, w), id);
  }

  lemma StartsThen(s: State, ids: seq<nat>, displays: set<nat>, s1: State, t: State)
    requires ids != [] && Starts(s, [ids[0]], displays, s1) && Starts(s1, ids[1..], displays, t)
    ensures Starts(s, ids, displays, t)
  {
    forall m | m in ids && m in displays ensures m in Monitors(t.active) {
      if m == ids[0] {
        assert m in [ids[0]];
        MonitorIn(s1.active, m);
        MonitorIn(t.active, m);
      } else {
        assert m in ids[1..];
      }
    }
  }

  // ----- what a selection does -----

  /** Afterwards exactly the chosen monitors stream, to `client`; what was streaming to it already goes on. */
  ghost predicate Selected(s: State, client: nat, ids: seq<nat>, displays: set<nat>, t: State)
  {
    var first := if |ids| <= 3 then ids else ids[..3];
    t.client == client && t.cfg == s.cfg && s.started <= t.started && t.silent == s.silent &&
    (forall m :: m in Monitors(t.active) <==>
      m in first && (m in displays || (client == s.client && m in Monitors(s.active)))) &&
    (forall w :: w in s.active && w in t.active <==> w in s.active && client == s.client && w.monitor in first) &&
    (forall w | w in t.active && w !in s.active :: w.id >= |s.started|)
  }

  /** Of the workers asked to stop, those that return in time are joined and the stuck ones parked. */
  lemma RetiredGo(s: State, ctxs: seq<Worker>, stuck: set<nat>)
    ensures var t := Retire(s, ctxs, stuck);
      && (forall w :: w in t.joined <==> w in s.joined || (w in ctxs && w.id !in stuck))
      && (forall w :: w in t.graveyard <==> w in s.graveyard || (w in ctxs && w.id in stuck))
      && |t.joined| + |t.graveyard| == |s.joined| + |s.graveyard| + |ctxs|
      && t.active == s.active && t.stops == s.stops && t.silent == s.silent
  {
    var late := set w | w in ctxs && w.id in stuck;
    KeepSplits(ctxs, late);
    assert |multiset(ctxs)| == |ctxs|;
  }

  /** Stopping every stream tells its client of each if asked to, and of none if not. */
  lemma StopEveryTells(s: State, notify: bool, stuck: set<nat>)
    ensures var t := StopEvery(s, notify, stuck);
      && t.active == [] && t.client == s.client && t.started == s.started
      && |t.stops| == |s.stops| + (if notify then |s.active| else 0) && s.stops <= t.stops
      && (forall i | |s.stops| <= i < |t.stops| :: t.stops[i] == Stop(s.client, s.active[i - |s.stops|]))
      && t.silent == (if notify then s.silent else s.silent + s.active)
  {
  }

  lemma SelectKeepsInv(s: State, client: nat, ids: seq<nat>, displays: set<nat>, stuck: set<nat>)
    requires Inv(s)
    ensures Inv(Select(s, client, ids, displays, stuck))
    ensures Selected(s, client, ids, displays, Select(s, client, ids, displays, stuck))
  {
    var l := Limit(ids);
    var s1 := StopDeselected(s, client, l, stuck);
    var t := StartAll(s1, l, displays);
    StopDeselectedKeepsInv(s, client, l, stuck);
    StartAllKeepsInv(s1, l, displays);
    assert forall w | w in t.active :: w.monitor in l;
    LengthWithin(t.active, l);
    SelectChooses(s, client, ids, displays, s1, t);
  }

  lemma SelectChooses(s: State, client: nat, ids: seq<nat>, displays: set<nat>, s1: State, t: State)
    requires Inv(s) && s1.client == client && s1.cfg == s.cfg && s1.started == s.started
    requires s1.active == Keep(s.active, Kept(s, client, Limit(ids)), true)
    requires Starts(s1, Limit(ids), displays, t) && s1.silent == s.silent
    ensures Selected(s, client, ids, displays, t)
  {
    var l := Limit(ids);
    forall m
      ensures m in Monitors(t.active) <==> m in l && (m in displays || (client == s.client && m in Monitors(s.active)))
    {
      MonitorIn(t.active, m);
      MonitorIn(s.active, m);
    }
    forall w | w in s.active && w in t.active ensures w in Kept(s, client, l) {
      assert w.id < |s.started|;
    }
  }

  /** A reconfiguration that is not ignored leaves every active worker on the new settings. */
  lemma ConfigureKeepsInv(s: State, client: nat, cfg: Config, displays: set<nat>, stuck: set<nat>)
    requires Inv(s)
    ensures Inv(Configure(s, client, cfg, displays, stuck))
  {
    if !(s.active != [] && client != s.client) {
      if cfg.SamePicture(s.cfg) {
        hide Conserved, StopsAddressed;
        RetuneKeepsInv(s, cfg);
      } else {
        ReconfigureRestarts(s, client, cfg, displays, stuck);
      }
    }
  }

  lemma RetuneKeepsInv(s: State, cfg: Config)
    requires Inv(s)
    ensures Inv(s.(cfg := cfg, settings := s.settings + map w | w in s.active :: w.id := cfg))
  {
    var m := map w | w in s.active :: w.id := cfg;
    assert forall w | w in s.active :: w.id in m && m[w.id] == cfg;
  }

  lemma StopForRestart(s: State, cfg: Config, stuck: set<nat>, s1: State)
    requires Inv(s) && s1 == StopEvery(s.(cfg := cfg), true, stuck)
    ensures Inv(s1) && s1.active == [] && s1.started == s.started && s1.cfg == cfg && s1.client == s.client
    ensures s1.stops == s.stops + Messages(s.client, s.active)
  {
    KeepNone(s.active);
    RetireConserves(s.(cfg := cfg), {}, stuck, true, s1);
  }

  /**
   * A new codec or size restarts exactly the monitors that were streaming and still exist, each with a new
   * worker, after one STREAM_STOP per stream to the streaming client; anyone else's request changes nothing.
   */
  lemma ReconfigureRestarts(s: State, client: nat, cfg: Config, displays: set<nat>, stuck: set<nat>)
    requires Inv(s) && (cfg.codec != s.cfg.codec || cfg.maxWidth != s.cfg.maxWidth)
    ensures Inv(Configure(s, client, cfg, displays, stuck))
    ensures var t := Configure(s, client, cfg, displays, stuck);
      if s.active != [] && client != s.client then t == s
      else
        && t.cfg == cfg && t.client == s.client && t.stops == s.stops + Messages(s.client, s.active)
        && (forall m :: m in Monitors(t.active) <==> m in Monitors(s.active) && m in displays)
        && (forall w | w in t.active :: w.id >= |s.started|)
  {
    hide Inv;
    if !(s.active != [] && client != s.client) {
      var ids, s1 := Monitors(s.active), StopEvery(s.(cfg := cfg), true, stuck);
      StopForRestart(s, cfg, stuck, s1);
      hide StopEvery;
      assert Limit(ids) == ids by { AtMostThree(s); }
      if ids != [] { RestartStopped(s1, ids, displays, stuck); }
    }
  }

  lemma AtMostThree(s: State)
    requires Inv(s)
    ensures |Monitors(s.active)| <= 3
  {
  }

  lemma RestartStopped(s: State, ids: seq<nat>, displays: set<nat>, stuck: set<nat>)
    requires Inv(s) && s.active == [] && |ids| <= 3
    ensures var t := Select(s, s.client, ids, displays, stuck);
      && Inv(t) && t.cfg == s.cfg && t.client == s.client && t.stops == s.stops
      && (forall m :: m in Monitors(t.active) <==> m in ids && m in displays)
      && (forall w | w in t.active :: w.id >= |s.started|)
  {
    SelectKeepsInv(s, s.client, ids, displays, stuck);
    NothingToStop(s, ids, stuck);
    StartAllKeepsInv(s, ids, displays);
    assert Limit(ids) == ids;
  }

  lemma NothingToStop(s: State, ids: seq<nat>, stuck: set<nat>)
    requires s.active == []
    ensures StopDeselected(s, s.client, ids, stuck) == s
  {
    var t := StopDeselected(s, s.client, ids, stuck);
    assert s.joined + [] == s.joined && s.graveyard + [] == s.graveyard && s.stops + [] == s.stops;
  }

  /** Settings of the same picture reach the running workers without restarting any. */
  lemma RetuneRestartsNothing(s: State, client: nat, cfg: Config, displays: set<nat>, stuck: set<nat>)
    requires Inv(s) && cfg.codec == s.cfg.codec && cfg.maxWidth == s.cfg.maxWidth
    ensures var t := Configure(s, client, cfg, displays, stuck);
      t.active == s.active && t.stops == s.stops && t.started == s.started &&
      (client == s.client ==> forall w | w in t.active :: w.id in t.settings && t.settings[w.id] == cfg)
  {
    ConfigureKeepsInv(s, client, cfg, displays, stuck);
  }

  lemma DisconnectKeepsInv(s: State, client: nat, stuck: set<nat>)
    requires Inv(s)
    ensures var t := Disconnect(s, client, stuck);
      Inv(t) && t.client == s.client && t.stops == s.stops &&
      t.active == if client == s.client then [] else s.active
  {
    StopEveryKeepsInv(s, false, stuck);
  }

  /** Removing a virtual monitor stops its stream and no other. */
  lemma RemoveVirtualKeepsInv(s: State, id: nat, virtuals: set<nat>, displays: set<nat>, stuck: set<nat>)
    requires Inv(s)
    ensures var t := RemoveVirtual(s, id, virtuals, displays, stuck);
      Inv(t) && t.client == s.client &&
      (forall w :: w in t.active <==> w in s.active && !(id in virtuals && w.monitor == id)) && t.started == s.started
  {
    var ids := Monitors(s.active);
    MonitorIn(s.active, id);
    if id in virtuals && id in ids {
      var rest := Without(ids, id);
      SelectKeepsInv(s, s.client, rest, displays, stuck);
      assert Limit(rest) == rest;
      forall w | w in s.active ensures w.monitor in ids { MonitorIn(s.active, w.monitor); }
      var s1 := StopDeselected(s, s.client, rest, stuck);
      forall m | m in rest ensures m in Monitors(s1.active) { MonitorIn(s.active, m); MonitorIn(s1.active, m); }
      NothingToStart(s1, rest, displays);
    }
  }

  lemma {:induction false} NothingToStart(s: State, ids: seq<nat>, displays: set<nat>)
    requires forall m | m in ids :: m in Monitors(s.active)
    ensures StartAll(s, ids, displays) == s
    decreases |ids|
  {
    if ids != [] { NothingToStart(s, ids[1..], displays); }
  }

  lemma ReapKeepsInv(s: State, wait: bool, done: set<nat>)
    requires Inv(s)
    ensures var t := Reap(s, wait, done);
      Inv(t) && t.active == s.active && t.stops == s.stops && t.silent == s.silent
    ensures var t := Reap(s, wait, done);
      && (forall w :: w in t.graveyard <==> w in s.graveyard && !wait && w.id !in done)
      && (forall w :: w in t.joined <==> w in s.joined || (w in s.graveyard && (wait || w.id in done)))
  {
    var back := set w | w in s.graveyard && (wait || w.id in done);
    KeepSplits(s.graveyard, back);
    var t := Reap(s, wait, done);
    assert multiset(t.joined) == multiset(s.joined) + multiset(Keep(s.graveyard, back, true));
  }

  /** After shutdown every worker ever started has been joined, each once. */
  lemma QuitJoinsAll(s: State, stuck: set<nat>)
    requires Inv(s)
    ensures var t := Quit(s, stuck);
      Inv(t) && t.active == [] && t.graveyard == [] &&
      multiset(t.joined) == multiset(t.started) && t.started == s.started && t.stops == s.stops
  {
    var s1 := StopEvery(s, false, stuck);
    StopEveryKeepsInv(s, false, stuck);
    ReapKeepsInv(s1, true, {});
    hide StopEvery, OneOwner, StopsAddressed;
    ReapAll(s1);
  }

  lemma ReapAll(s: State)
    requires Conserved(s) && Conserved(Reap(s, true, {})) && s.active == []
    ensures var t := Reap(s, true, {});
      t.graveyard == [] && multiset(t.joined) == multiset(t.started)
  {
    hide Keep;
    var t := Reap(s, true, {});
    NoMembers(t.graveyard);
    assert multiset(t.graveyard) == multiset{};
  }

  lemma NoMembers(ws: seq<Worker>)
    requires forall w :: w !in ws
    ensures ws == []
  {
    if ws != [] {
      FirstIn(ws);
      assert false;
    }
  }

  lemma FirstIn(ws: seq<Worker>)
    requires ws != []
    ensures ws[0] in ws
  {
  }

  /** Conservation, worker by worker. */
  lemma EachWorkerOnce(s: State, i: nat)
    requires Conserved(s) && i < |s.started|
    ensures var w := s.started[i];
      multiset(s.active)[w] + multiset(s.graveyard)[w] + multiset(s.joined)[w] == 1 &&
      multiset(Stopped(s.stops))[w] + multiset(s.silent)[w] == (if w in s.active then 0 else 1)
  {
    var w := s.started[i];
    StartedOnce(s.started, i);
    var retired := multiset(s.graveyard) + multiset(s.joined);
    assert multiset(s.started)[w] == multiset(s.active)[w] + retired[w];
    assert (multiset(Stopped(s.stops)) + multiset(s.silent))[w] == retired[w];
    assert w in s.active <==> multiset(s.active)[w] > 0;
  }

  lemma {:induction false} StartedOnce(ws: seq<Worker>, i: nat)
    requires i < |ws| && forall j, k | 0 <= j < k < |ws| :: ws[j].id < ws[k].id
    ensures multiset(ws)[ws[i]] == 1
  {
    var n := |ws| - 1;
    assert ws == ws[..n] + [ws[n]];
    if i < n {
      StartedOnce(ws[..n], i);
    } else {
      assert ws[n] !in ws[..n];
      assert multiset(ws[..n])[ws[n]] == 0;
    }
  }
}
