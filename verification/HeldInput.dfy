/** Injected input: who drives the PC, and what is held down. One handler is one step. */
module HeldInput {
  import opened Bits

  datatype Mouse = Mouse(monitor: nat, x: nat, y: nat, buttons: nat, scroll: int, scrollH: int)

  datatype Event = MouseEvent(m: Mouse) | KeyEvent(vk: nat, pressed: bool)

  /** An injected event and the client it came from, 0 for the host's own releases. */
  datatype Entry = Entry(client: nat, e: Event)

  /** The client that drives the PC (0: none), the host's record of what is down, the injected events. */
  datatype State = State(client: nat, heldMouse: Mouse, heldKeys: set<nat>, viewOnly: bool, log: seq<Entry>)

  const NO_MOUSE: Mouse := Mouse(0, 0, 0, 0, 0, 0)

  function Initial(viewOnly: bool): State
  {
    State(0, NO_MOUSE, {}, viewOnly, [])
  }

  // ----- replaying the log -----

  /** The keys that are down after the events. */
  function KeysDown(log: seq<Entry>): set<nat>
  {
    if log == [] then {} else
      var before := KeysDown(log[..|log| - 1]);
      match log[|log| - 1].e
      case MouseEvent(_) => before
      case KeyEvent(vk, pressed) => if pressed then before + {vk} else before - {vk}
  }

  /** The mouse buttons that are down after the events. */
  function ButtonsDown(log: seq<Entry>): nat
  {
    if log == [] then 0 else
      match log[|log| - 1].e
      case MouseEvent(m) => m.buttons
      case KeyEvent(_, _) => ButtonsDown(log[..|log| - 1])
  }

  /** The client whose event last pressed key `vk`. */
  function Presser(log: seq<Entry>, vk: nat): nat
  {
    if log == [] then 0
    else if log[|log| - 1].e == KeyEvent(vk, true) then log[|log| - 1].client
    else Presser(log[..|log| - 1], vk)
  }

  /** The client that last moved the mouse. */
  function Mover(log: seq<Entry>): nat
  {
    if log == [] then 0
    else if log[|log| - 1].e.MouseEvent? then log[|log| - 1].client
    else Mover(log[..|log| - 1])
  }

  // ----- the steps -----

  function Inject(s: State, client: nat, e: Event): State
  {
    s.(log := s.log + [Entry(client, e)])
  }

  /** Injects a key event and records it. */
  function Key(s: State, client: nat, vk: nat, down: bool): State
  {
    Inject(s, client, KeyEvent(vk, down)).(heldKeys := if down then s.heldKeys + {vk} else s.heldKeys - {vk})
  }

  function Keys(s: State, client: nat, vks: seq<nat>, down: bool): State
    decreases |vks|
  {
    if vks == [] then s else Keys(Key(s, client, vks[0], down), client, vks[1..], down)
  }

  predicate IsModifier(vk: nat)
  {
    0x10 <= vk <= 0x12 || 0xA0 <= vk <= 0xA5 || vk == 0x5B || vk == 0x5C
  }

  /** The modifier keys of a bitmask: shift, control, alt, Windows. */
  function Modifiers(mask: nat): seq<nat>
  {
    (if mask % 2 == 1 then [0x10] else []) + (if mask / 2 % 2 == 1 then [0x11] else []) +
    (if mask / 4 % 2 == 1 then [0x12] else []) + (if mask / 8 % 2 == 1 then [0x5B] else [])
  }

  /** The latched modifiers to wrap round a key; none round a modifier key itself. */
  function Wrapping(vk: nat, mask: nat): seq<nat>
  {
    if IsModifier(vk) then [] else Modifiers(mask)
  }

  /** The keys that count as modifiers: shift, control and alt, left and right ones too, and the Windows keys. */
  const MODIFIER_KEYS: set<nat> := {0x10, 0x11, 0x12, 0xA0, 0xA1, 0xA2, 0xA3, 0xA4, 0xA5, 0x5B, 0x5C}

  /** The keys latched by the four low bits of a mask, in the order they are pressed. */
  const LATCHES: seq<nat> := [0x10, 0x11, 0x12, 0x5B]

  /** A modifier key is sent as it is; any other is wrapped in the keys of the mask's bits, each once, in order. */
  lemma WrappingIs(vk: nat, mask: nat, i: nat)
    requires i < 4
    ensures vk in MODIFIER_KEYS ==> Wrapping(vk, mask) == []
    ensures var mods := Wrapping(vk, mask);
      && (vk !in MODIFIER_KEYS ==> (LATCHES[i] in mods <==> LowBits(mask, 4)[i]))
      && (forall m | m in mods :: m in LATCHES)
      && (forall j, k | 0 <= j < k < |mods| :: mods[j] < mods[k])
  {
    FourBits(mask);
    hide LowBits;
  }

  lemma FourBits(v: nat)
    ensures LowBits(v, 4)[0] == (v % 2 == 1) && LowBits(v, 4)[1] == (v / 2 % 2 == 1)
    ensures LowBits(v, 4)[2] == (v / 4 % 2 == 1) && LowBits(v, 4)[3] == (v / 8 % 2 == 1)
  {
    hide LowBits;
    LowBitAt(v, 4, 0);
    LowBitAt(v, 4, 1);
    LowBitAt(v, 4, 2);
    LowBitAt(v, 4, 3);
    LowBitAt(v / 2, 3, 0);
    LowBitAt(v / 2, 3, 1);
    LowBitAt(v / 2, 3, 2);
    LowBitAt(v / 4, 2, 0);
    LowBitAt(v / 4, 2, 1);
    LowBitAt(v / 8, 1, 0);
  }

  /** A keyboard message: the latched modifiers are pressed before the key and released after it. */
  function Keyboard(s: State, client: nat, vk: nat, pressed: bool, mask: nat): State
  {
    if s.viewOnly || client != s.client then s else
      var mods := Wrapping(vk, mask);
      if pressed then Key(Keys(s, client, mods, true), client, vk, true)
      else Keys(Key(s, client, vk, false), client, mods, false)
  }

  // ----- from the stream's pixels to the monitor's -----

  /** One direction: how many native pixels a stream pixel is, and how many the monitor has. */
  datatype Direction = Direction(scale: real, size: nat)

  type Axis = d: Direction | d.scale >= 0.0 && d.size > 0 witness Direction(1.0, 1)

  /** The scale of a monitor's stream, registered by the worker `owner`. */
  datatype Scale = Scale(x: Axis, y: Axis, owner: nat)

  /** The native pixel, the monitor's last one at most. */
  function Native(v: nat, a: Axis): (p: nat)
    ensures p < a.size && p as real <= v as real * a.scale
    ensures p == a.size - 1 || v as real * a.scale < p as real + 1.0
  {
    var last := (a.size - 1) as real;
    var at := v as real * a.scale;
    AtLeastZero(v as real, a.scale);
    (if at < last then at else last).Floor
  }

  lemma AtLeastZero(x: real, y: real)
    requires x >= 0.0 && y >= 0.0
    ensures x * y >= 0.0
  {
  }

  function Scaled(m: Mouse, scales: map<nat, Scale>): Mouse
  {
    if m.monitor in scales then
      m.(x := Native(m.x, scales[m.monitor].x), y := Native(m.y, scales[m.monitor].y))
    else m
  }

  lemma NativeGrows(v: nat, w: nat, a: Axis)
    requires v <= w
    ensures Native(v, a) <= Native(w, a)
  {
    Larger(v as real, w as real, a.scale);
  }

  lemma Larger(x: real, y: real, s: real)
    requires x <= y && s >= 0.0
    ensures x * s <= y * s
  {
    AtLeastZero(y - x, s);
    assert (y - x) * s == y * s - x * s;
  }

  /** A scaled position lies on its monitor and keeps the order of positions; nothing else of the event changes. */
  lemma ScaledStaysOnMonitor(m: Mouse, n: Mouse, scales: map<nat, Scale>)
    requires m.monitor == n.monitor && m.x <= n.x && m.y <= n.y
    ensures var p, q := Scaled(m, scales), Scaled(n, scales);
      && p.(x := m.x, y := m.y) == m && p.x <= q.x && p.y <= q.y
      && (m.monitor in scales ==> p.x < scales[m.monitor].x.size && p.y < scales[m.monitor].y.size)
      && (m.monitor !in scales ==> p == m)
  {
    if m.monitor in scales {
      NativeGrows(m.x, n.x, scales[m.monitor].x);
      NativeGrows(m.y, n.y, scales[m.monitor].y);
    }
  }

  // ----- which scale is in force -----

  datatype ScaleEvent = Register(monitor: nat, scale: Scale) | Forget(monitor: nat, owner: nat)

  /** A worker registers its monitor's scale, or has ended and takes back an entry of its own. */
  function AfterScale(scales: map<nat, Scale>, e: ScaleEvent): map<nat, Scale>
  {
    match e
    case Register(monitor, scale) => scales[monitor := scale]
    case Forget(monitor, owner) =>
      if monitor in scales && scales[monitor].owner == owner then scales - {monitor} else scales
  }

  function ScalesAfter(es: seq<ScaleEvent>): map<nat, Scale>
  {
    if es == [] then map[] else AfterScale(ScalesAfter(es[..|es| - 1]), es[|es| - 1])
  }

  /** Event `i` registered `s`, no other registration came since, and its worker has not ended. */
  ghost predicate InForce(es: seq<ScaleEvent>, m: nat, s: Scale, i: nat)
  {
    && i < |es| && es[i] == Register(m, s)
    && forall j | i < j < |es| :: (es[j].Register? ==> es[j].monitor != m) && es[j] != Forget(m, s.owner)
  }

  /** An older worker that ends late takes nothing from its replacement. */
  lemma {:induction false} LastRegisteredIsInForce(es: seq<ScaleEvent>, m: nat, s: Scale)
    ensures m in ScalesAfter(es) && ScalesAfter(es)[m] == s <==> exists i: nat :: InForce(es, m, s, i)
  {
    if es != [] {
      var n := |es| - 1;
      var front, e := es[..n], es[n];
      LastRegisteredIsInForce(front, m, s);
      forall i: nat | InForce(es, m, s, i) && i < n ensures InForce(front, m, s, i) {
      }
      if m in ScalesAfter(es) && ScalesAfter(es)[m] == s {
        if e == Register(m, s) {
          assert InForce(es, m, s, n);
        } else {
          var i: nat :| InForce(front, m, s, i);
          assert InForce(es, m, s, i);
        }
      }
      if i: nat :| InForce(es, m, s, i) {
        if i < n { assert InForce(front, m, s, i); }
      }
    }
  }

  function MouseMove(s: State, client: nat, m: Mouse): State
  {
    if s.viewOnly || client != s.client then s else Inject(s, client, MouseEvent(m)).(heldMouse := m)
  }

  /** The least element of a non-empty set. */
  ghost function Least(ks: set<nat>): (m: nat)
    requires ks != {}
    ensures m in ks && forall k | k in ks :: m <= k
  {
    LeastExists(ks);
    var m :| m in ks && forall k | k in ks :: m <= k;
    m
  }

  lemma LeastExists(ks: set<nat>)
    requires ks != {}
    ensures exists m :: m in ks && forall k | k in ks :: m <= k
  {
    var m := LeastOf(ks);
  }

  lemma {:induction false} LeastOf(ks: set<nat>) returns (m: nat)
    requires ks != {}
    ensures m in ks && forall k | k in ks :: m <= k
    decreases |ks|
  {
    m :| m in ks;
    var below := set k | k in ks && k < m;
    if below != {} {
      SmallerSet(below, ks);
      var least := LeastOf(below);
      forall k | k in ks ensures least <= k {
        assert k < m ==> k in below;
      }
      m := least;
    } else {
      forall k | k in ks ensures m <= k {
        assert k < m ==> k in below;
      }
    }
  }

  lemma SmallerSet(a: set<nat>, b: set<nat>)
    requires a < b
    ensures |a| < |b|
  {
    assert b == a + (b - a);
  }

  /** Key-up for every held key, in ascending order. */
  ghost function ReleaseKeys(s: State): State
    decreases |s.heldKeys|
  {
    if s.heldKeys == {} then s else ReleaseKeys(Key(s, 0, Least(s.heldKeys), false))
  }

  function ReleaseButtons(s: State): State
  {
    if s.heldMouse.buttons == 0 then s else
      Inject(s, 0, MouseEvent(s.heldMouse.(buttons := 0, scroll := 0, scrollH := 0)))
        .(heldMouse := s.heldMouse.(buttons := 0))
  }

  ghost function Release(s: State): State
  {
    ReleaseKeys(ReleaseButtons(s))
  }

  /** A selection by another client: it drives from now on, and what the last one held is released. */
  ghost function TakeOver(s: State, client: nat): State
  {
    Release(s.(client := client))
  }

  /** The streaming client is gone. */
  ghost function Leave(s: State): State
  {
    Release(s.(client := 0))
  }

  // ----- what every step keeps -----

  /** The record is exactly what the injected events left pressed, all of it by the current client. */
  ghost predicate Inv(s: State)
  {
    KeysDown(s.log) == s.heldKeys && ButtonsDown(s.log) == s.heldMouse.buttons &&
    (forall vk | vk in s.heldKeys :: Presser(s.log, vk) == s.client) &&
    (s.heldMouse.buttons != 0 ==> Mover(s.log) == s.client)
  }

  ghost predicate NothingPressed(s: State)
  {
    KeysDown(s.log) == {} && ButtonsDown(s.log) == 0
  }

  /** The record matches the log, whoever pressed it. */
  ghost predicate Exact(s: State)
  {
    KeysDown(s.log) == s.heldKeys && ButtonsDown(s.log) == s.heldMouse.buttons
  }

  lemma KeyKeeps(s: State, client: nat, vk: nat, down: bool)
    ensures var t := Key(s, client, vk, down);
      && (Exact(s) ==> Exact(t))
      && (Inv(s) && client == s.client ==> Inv(t))
  {
    var t := Key(s, client, vk, down);
    assert t.log[..|t.log| - 1] == s.log;
  }

  lemma {:induction false} KeysKeep(s: State, client: nat, vks: seq<nat>, down: bool)
    requires Inv(s) && client == s.client
    ensures var t := Keys(s, client, vks, down); Inv(t) && t.client == s.client
    decreases |vks|
  {
    if vks != [] {
      KeyKeeps(s, client, vks[0], down);
      KeysKeep(Key(s, client, vks[0], down), client, vks[1..], down);
    }
  }

  lemma KeyboardKeepsInv(s: State, client: nat, vk: nat, pressed: bool, mask: nat)
    requires Inv(s)
    ensures Inv(Keyboard(s, client, vk, pressed, mask)) && Keyboard(s, client, vk, pressed, mask).client == s.client
  {
    if !(s.viewOnly || client != s.client) {
      var mods := Wrapping(vk, mask);
      if pressed {
        KeysKeep(s, client, mods, true);
        KeyKeeps(Keys(s, client, mods, true), client, vk, true);
      } else {
        KeyKeeps(s, client, vk, false);
        KeysKeep(Key(s, client, vk, false), client, mods, false);
      }
    }
  }

  lemma MouseKeepsInv(s: State, client: nat, m: Mouse)
    requires Inv(s)
    ensures Inv(MouseMove(s, client, m)) && MouseMove(s, client, m).client == s.client
  {
    var t := MouseMove(s, client, m);
    if t != s { LastMouse(s.log, Entry(client, MouseEvent(m))); }
  }

  lemma LastMouse(log: seq<Entry>, e: Entry)
    requires e.e.MouseEvent?
    ensures KeysDown(log + [e]) == KeysDown(log) && ButtonsDown(log + [e]) == e.e.m.buttons &&
        Mover(log + [e]) == e.client
    ensures forall vk :: Presser(log + [e], vk) == Presser(log, vk)
  {
    assert (log + [e])[..|log|] == log;
  }

  lemma {:induction false} ReleaseKeysClears(s: State)
    requires Exact(s)
    ensures var t := ReleaseKeys(s);
      Exact(t) && t.heldKeys == {} && t.heldMouse == s.heldMouse && t.client == s.client && t.viewOnly == s.viewOnly
    decreases |s.heldKeys|
  {
    if s.heldKeys != {} {
      var k := Least(s.heldKeys);
      KeyKeeps(s, 0, k, false);
      ReleaseKeysClears(Key(s, 0, k, false));
    }
  }

  /** Releasing leaves nothing pressed, whoever pressed it. */
  lemma ReleaseClears(s: State)
    requires Exact(s)
    ensures var t := Release(s);
      NothingPressed(t) && Inv(t) && t.client == s.client && t.viewOnly == s.viewOnly && t.heldKeys == {} &&
          t.heldMouse.buttons == 0
  {
    var s1 := ReleaseButtons(s);
    if s.heldMouse.buttons != 0 { LastMouse(s.log, s1.log[|s.log|]); }
    ReleaseKeysClears(s1);
  }

  lemma TakeOverClears(s: State, client: nat)
    requires Inv(s)
    ensures var t := TakeOver(s, client); Inv(t) && NothingPressed(t) && t.client == client
  {
    ReleaseClears(s.(client := client));
  }

  lemma LeaveClears(s: State)
    requires Inv(s)
    ensures var t := Leave(s); Inv(t) && NothingPressed(t) && t.client == 0
  {
    ReleaseClears(s.(client := 0));
  }

  /** A pressed key ends up down with its modifiers down, a released one ends up up with them up. */
  lemma KeyboardPresses(s: State, client: nat, vk: nat, pressed: bool, mask: nat)
    requires Inv(s) && !s.viewOnly && client == s.client
    ensures var t := Keyboard(s, client, vk, pressed, mask); var mods := Wrapping(vk, mask);
      KeysDown(t.log) == if pressed then KeysDown(s.log) + (set m | m in mods) + {vk}
                         else KeysDown(s.log) - (set m | m in mods) - {vk}
  {
    var mods := Wrapping(vk, mask);
    KeyboardKeepsInv(s, client, vk, pressed, mask);
    if pressed { KeysHeld(s, client, mods, true); } else { KeysHeld(Key(s, client, vk, false), client, mods, false); }
  }

  /** The entries of the keys `vks`, one after the other. */
  function KeyEntries(client: nat, vks: seq<nat>, down: bool): (es: seq<Entry>)
    ensures |es| == |vks|
  {
    seq(|vks|, i requires 0 <= i < |vks| => Entry(client, KeyEvent(vks[i], down)))
  }

  /** What the client that drives the PC has injected: modifiers down before the key, or up after it. */
  lemma KeyboardInjects(s: State, client: nat, vk: nat, pressed: bool, mask: nat)
    requires !s.viewOnly && client == s.client
    ensures var mods, key := KeyEntries(client, Wrapping(vk, mask), pressed), [Entry(client, KeyEvent(vk, pressed))];
      Keyboard(s, client, vk, pressed, mask).log == s.log + if pressed then mods + key else key + mods
  {
    var mods := Wrapping(vk, mask);
    if pressed {
      KeysInject(s, client, mods, true);
    } else {
      KeysInject(Key(s, client, vk, false), client, mods, false);
    }
  }

  lemma {:induction false} KeysInject(s: State, client: nat, vks: seq<nat>, down: bool)
    ensures Keys(s, client, vks, down).log == s.log + KeyEntries(client, vks, down)
    decreases |vks|
  {
    if vks != [] {
      KeysInject(Key(s, client, vks[0], down), client, vks[1..], down);
      var first := Entry(client, KeyEvent(vks[0], down));
      assert KeyEntries(client, vks, down) == [first] + KeyEntries(client, vks[1..], down);
    }
  }

  lemma KeysSame(s: State, client: nat, vk: nat, pressed: bool, mask: nat)
    ensures var t := Keyboard(s, client, vk, pressed, mask);
      t.client == s.client && t.heldMouse == s.heldMouse && t.viewOnly == s.viewOnly
  {
    var mods := Wrapping(vk, mask);
    KeysKeepRest(s, client, mods, true);
    KeysKeepRest(Key(s, client, vk, false), client, mods, false);
  }

  lemma {:induction false} KeysKeepRest(s: State, client: nat, vks: seq<nat>, down: bool)
    ensures var t := Keys(s, client, vks, down);
      t.client == s.client && t.heldMouse == s.heldMouse && t.viewOnly == s.viewOnly
    decreases |vks|
  {
    if vks != [] { KeysKeepRest(Key(s, client, vks[0], down), client, vks[1..], down); }
  }

  lemma {:induction false} ReleaseKeepsSetting(s: State)
    ensures Release(s).viewOnly == s.viewOnly
  {
    ReleaseKeysKeepsSetting(ReleaseButtons(s));
  }

  lemma {:induction false} ReleaseKeysKeepsSetting(s: State)
    ensures ReleaseKeys(s).viewOnly == s.viewOnly
    decreases |s.heldKeys|
  {
    if s.heldKeys != {} { ReleaseKeysKeepsSetting(Key(s, 0, Least(s.heldKeys), false)); }
  }

  /** Entries of the host itself, each of which lets go of something. */
  ghost predicate Releases(es: seq<Entry>)
  {
    forall e | e in es ::
      && e.client == 0
      && match e.e
         case KeyEvent(_, pressed) => !pressed
         case MouseEvent(m) => m.buttons == 0 && m.scroll == 0 && m.scrollH == 0
  }

  lemma {:induction false} ReleaseKeysInjects(s: State)
    ensures s.log <= ReleaseKeys(s).log && Releases(ReleaseKeys(s).log[|s.log|..])
    decreases |s.heldKeys|
  {
    if s.heldKeys != {} {
      var t := Key(s, 0, Least(s.heldKeys), false);
      ReleaseKeysInjects(t);
      assert ReleaseKeys(s).log[|s.log|..] == [t.log[|s.log|]] + ReleaseKeys(t).log[|t.log|..];
    }
  }

  lemma ReleaseInjects(s: State)
    ensures s.log <= Release(s).log && Releases(Release(s).log[|s.log|..])
  {
    var t := ReleaseButtons(s);
    ReleaseKeysInjects(t);
    assert Release(s).log[|s.log|..] == t.log[|s.log|..] + Release(s).log[|t.log|..];
  }

  lemma {:induction false} KeysHeld(s: State, client: nat, vks: seq<nat>, down: bool)
    ensures Keys(s, client, vks, down).heldKeys
         == if down then s.heldKeys + (set m | m in vks) else s.heldKeys - (set m | m in vks)
    decreases |vks|
  {
    if vks != [] {
      KeysHeld(Key(s, client, vks[0], down), client, vks[1..], down);
      assert (set m | m in vks) == {vks[0]} + (set m | m in vks[1..]);
    }
  }
}
