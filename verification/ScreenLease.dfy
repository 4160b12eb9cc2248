/** The main screen's off lease: who holds it, until when, and what the clients were told. */
module ScreenLease {

  /** SCREEN_OFF_LEASE_MS of the wire protocol. */
  const LEASE_MS: int := 10000

  /** A SCREEN_OFF message to a client. */
  datatype Notice = Notice(to: nat, off: bool)

  /** The lease owner (0: lit), the lease end, the screen itself, the last renewal, the messages sent. */
  datatype State = State(owner: nat, until: int, dark: bool, renewed: int, sent: seq<Notice>)

  const INITIAL: State := State(0, 0, false, 0, [])

  function Tell(s: State, to: nat, off: bool): State
  {
    s.(sent := s.sent + [Notice(to, off)])
  }

  /** Lights the screen and tells its owner. */
  function Light(s: State): State
  {
    if s.owner == 0 then s else Tell(s.(owner := 0, dark := false), s.owner, false)
  }

  /** A SCREEN_OFF message from a client; `works` is whether the display driver can darken the screen. */
  function ScreenOff(s: State, client: nat, off: bool, inputClient: nat, viewOnly: bool, works: bool, now: int): State
  {
    if client != inputClient then Tell(s, client, false)
    else if !off then
      var t := if s.owner != 0 then Light(s) else s;
      if s.owner != client then Tell(t, client, false) else t
    else if s.owner == 0 && (viewOnly || !works) then Tell(s, client, false)
    else
      var t := s.(dark := true, until := now + LEASE_MS, renewed := now, owner := client);
      if s.owner != client then Tell(t, client, true) else t
  }

  /** The main loop's check, every 100 ms. */
  function Tick(s: State, inputClient: nat, viewOnly: bool, now: int): State
  {
    if s.owner != 0 && (viewOnly || s.owner != inputClient || now > s.until) then Light(s) else s
  }

  function Disconnect(s: State, client: nat): State
  {
    if client == s.owner then Light(s) else s
  }

  /** Dark exactly while someone holds the lease, which ends one lease after its last renewal. */
  ghost predicate Inv(s: State)
  {
    (s.dark <==> s.owner != 0) && (s.owner != 0 ==> s.until == s.renewed + LEASE_MS)
  }

  /** What a client was last told about the screen; false if nothing. */
  function LastTold(sent: seq<Notice>, client: nat): bool
  {
    if sent == [] then false
    else if sent[|sent| - 1].to == client then sent[|sent| - 1].off
    else LastTold(sent[..|sent| - 1], client)
  }

  lemma TellTold(sent: seq<Notice>, to: nat, off: bool)
    ensures LastTold(sent + [Notice(to, off)], to) == off
    ensures forall c | c != to :: LastTold(sent + [Notice(to, off)], c) == LastTold(sent, c)
  {
    assert (sent + [Notice(to, off)])[..|sent|] == sent;
  }

  lemma LightKeepsInv(s: State)
    requires Inv(s)
    ensures Inv(Light(s)) && !Light(s).dark && Light(s).owner == 0
    ensures s.owner != 0 ==> !LastTold(Light(s).sent, s.owner)
  {
    TellTold(s.sent, s.owner, false);
  }

  /**
   * Only the client that drives the PC moves the lease, and only it, outside view-only, darkens the screen;
   * any other client, and one that was refused, has its switch put back.
   */
  lemma ScreenOffKeepsInv(s: State, client: nat, off: bool, inputClient: nat, viewOnly: bool, works: bool, now: int)
    requires Inv(s) && client > 0
    ensures var t := ScreenOff(s, client, off, inputClient, viewOnly, works, now);
      && Inv(t)
      && (client != inputClient ==> t == Tell(s, client, false))
      && (client == inputClient && !off ==> !t.dark)
      && (client == inputClient && off && t.dark ==> t.owner == client && t.renewed == now)
      && (t.dark && !s.dark ==> off && client == inputClient && !viewOnly && works)
      && (t.owner != client || client != inputClient ==> !LastTold(t.sent, client))
      && (t.owner == client != s.owner ==> LastTold(t.sent, client))
      && (client == inputClient && off && s.owner == client ==> t.sent == s.sent)
      && (client == inputClient && !off ==> t == if s.owner == client then Light(s) else Tell(Light(s), client, false))
  {
    TellTold(s.sent, client, false);
    TellTold(s.sent, client, true);
    LightKeepsInv(s);
    TellTold(Light(s).sent, client, false);
  }

  /** After the check a dark screen belongs to the driving client, not view-only, renewed within the lease. */
  lemma TickEnforces(s: State, inputClient: nat, viewOnly: bool, now: int)
    requires Inv(s)
    ensures var t := Tick(s, inputClient, viewOnly, now);
      && Inv(t)
      && (t.dark <==> s.dark && !viewOnly && s.owner == inputClient && now <= s.renewed + 10000)
      && (t.dark ==> t == s)
  {
    LightKeepsInv(s);
  }

  // ----- what the clients believe -----

  /** No client but the owner was last told that the screen is off because of it. */
  ghost predicate NoneMisled(s: State)
  {
    forall c :: LastTold(s.sent, c) ==> c == s.owner != 0
  }

  lemma Misled(s: State, c: nat)
    requires LastTold(s.sent, c) && c != s.owner
    ensures !NoneMisled(s)
  {
  }

  /** The driving client renews a lease that is still another's. */
  predicate TakesLease(s: State, client: nat, off: bool, inputClient: nat)
  {
    client == inputClient && off && s.owner != 0 && s.owner != client
  }

  lemma LightMisleadsNone(s: State)
    requires NoneMisled(s)
    ensures NoneMisled(Light(s))
  {
    TellTold(s.sent, s.owner, false);
  }

  /** A request leaves a client misled exactly when it takes the lease from an owner who believes to have it. */
  lemma MisledIffTaken(s: State, client: nat, off: bool, inputClient: nat, viewOnly: bool, works: bool, now: int)
    requires Inv(s) && NoneMisled(s) && client > 0
    ensures NoneMisled(ScreenOff(s, client, off, inputClient, viewOnly, works, now)) <==>
            !(TakesLease(s, client, off, inputClient) && LastTold(s.sent, s.owner))
  {
    var t := ScreenOff(s, client, off, inputClient, viewOnly, works, now);
    TellTold(s.sent, client, false);
    TellTold(s.sent, client, true);
    LightMisleadsNone(s);
    TellTold(Light(s).sent, client, false);
    if TakesLease(s, client, off, inputClient) {
      assert LastTold(t.sent, s.owner) <==> LastTold(s.sent, s.owner);
    }
  }
}
