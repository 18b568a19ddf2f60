/** `CombatHandler`: the registry of running fights. On every timer tick it
    plays one round of each registered fight and retires the fights that
    are over; a player entering a room alone may set off a fight with the
    room's aggressive npcs; a player may join the fights against a given
    mob. */
module Handler {
  import opened Actors
  import opened Lists
  import opened World
  import opened CombatRounds
  import opened Fights

  /** How one tick of `DoCombat` ends: every fight of the snapshot played its
      round, or the round of the fight at index `at` threw, which leaves
      `DoCombat` at once, before the timer is restarted. */
  datatype Tick = Completed | Halted(at: nat, outcome: RoundOutcome)

  /** The fights of `cs` that are still fighting, in order. */
  function StillFighting(cs: seq<Combat>): seq<Combat>
    reads cs`fighters, cs`mobs
  {
    if cs == [] then []
    else
      var last := cs[|cs| - 1];
      StillFighting(cs[..|cs| - 1]) + (if last.Fighting() then [last] else [])
  }

  /** `StillFighting` keeps exactly the fights that are still fighting. */
  lemma {:induction false} StillFightingMeans(cs: seq<Combat>)
    ensures forall c | c in StillFighting(cs) :: c in cs && c.Fighting()
    ensures forall c | c in cs && c.Fighting() :: c in StillFighting(cs)
  {
    if cs != [] {
      var init := cs[..|cs| - 1];
      StillFightingMeans(init);
      assert cs == init + [cs[|cs| - 1]];
    }
  }

  /** The index of the first aggro npc of `npcs`. */
  function FirstAggro(npcs: seq<NonPlayer>): (r: Option<nat>)
    ensures r.Some? ==> r.value < |npcs| && npcs[r.value].Aggro
    ensures r.Some? ==> forall j | 0 <= j < r.value :: !npcs[j].Aggro
    ensures r.None? ==> forall j | 0 <= j < |npcs| :: !npcs[j].Aggro
  {
    if npcs == [] then None
    else if npcs[0].Aggro then Some(0)
    else
      match FirstAggro(npcs[1..])
      case None => None
      case Some(j) => Some(j + 1)
  }

  /** The npcs of `npcs` whose name differs from `name`, in order: what
      `room.GetNpcs().Where(n => n.Name != npcName)` yields. */
  function OtherNamed(npcs: seq<NonPlayer>, name: string): (r: seq<NonPlayer>)
    ensures forall n | n in r :: n in npcs && n.Name != name
    ensures forall n | n in npcs && n.Name != name :: n in r
  {
    if npcs == [] then []
    else
      var last := npcs[|npcs| - 1];
      OtherNamed(npcs[..|npcs| - 1], name) + (if last.Name != name then [last] else [])
  }

  /** The entries of `cs` whose flag in `keep` is set, in order. */
  function Select<T>(cs: seq<T>, keep: seq<bool>): seq<T>
    requires |keep| == |cs|
  {
    if cs == [] then []
    else Select(cs[..|cs| - 1], keep[..|cs| - 1]) + (if keep[|cs| - 1] then [cs[|cs| - 1]] else [])
  }

  /** The participants and the room of `c`: what its round may change. */
  ghost function FightFrame(c: Combat): set<object?>
    reads c
  {
    (set p | p in c.fighters :: p as object?) + (set m | m in c.mobs :: m as object?) + {c.room}
  }

  /** The participants and rooms of the fights `cs`. */
  ghost function FightsFrame(cs: seq<Combat>): set<object?>
    reads cs
  {
    if cs == [] then {} else FightsFrame(cs[..|cs| - 1]) + FightFrame(cs[|cs| - 1])
  }

  lemma {:induction false} FightsFrameCover(cs: seq<Combat>)
    ensures forall c | c in cs :: FightFrame(c) <= FightsFrame(cs)
  {
    if cs != [] {
      FightsFrameCover(cs[..|cs| - 1]);
      assert cs == cs[..|cs| - 1] + [cs[|cs| - 1]];
    }
  }

  /** Some mob of `mobs` has the key `key`. */
  predicate HasMobKeyed(mobs: seq<NonPlayer>, key: string) {
    exists m | m in mobs :: m.Key == key
  }

  class CombatHandler {
    var Fights: seq<Combat>

    constructor ()
      ensures Fights == []
    {
      Fights := [];
    }

    /** Each fight is registered once. */
    ghost predicate Valid()
      reads this
    {
      Distinct(Fights)
    }

    /** The participants and rooms of the registered fights: what their
        rounds may change. */
    ghost function RegistryFrame(): set<object?>
      reads this, Fights
    {
      FightsFrame(Fights)
    }

    /** `StartFight(combat)`: the fight is registered first and started
      afterwards, so a fight whose `Start` fails stays registered. */
    method StartFight(combat: Combat, rooms: map<string, Room>) returns (started: bool)
      requires Valid() && combat !in Fights
      modifies this, combat, combat.fighters, combat.mobs
      ensures Valid()
      ensures Fights == old(Fights) + [combat]
      ensures started <==> old(combat.Fighting())
      ensures combat.fighters == old(combat.fighters) && combat.mobs == old(combat.mobs)
      ensures combat.fightersToIgnore == old(combat.fightersToIgnore) && combat.combatOrder == old(combat.combatOrder)
      ensures started ==> forall p | p in combat.fighters :: p.Status == GameStatus.Fighting
      ensures started ==> forall m | m in combat.mobs :: m.Status == GameStatus.Fighting
      ensures started ==> combat.isAggro == (old(combat.isAggro) || exists m | m in combat.mobs :: m.Aggro)
      ensures started ==> combat.room == Bind(rooms, old(combat.room), PlayerLocations(combat.fighters) + MobLocations(combat.mobs))
      ensures !started ==> combat.isAggro == old(combat.isAggro) && combat.room == old(combat.room)
      ensures !started ==> forall p | p in combat.fighters :: p.Status == old(p.Status)
      ensures !started ==> forall m | m in combat.mobs :: m.Status == old(m.Status)
      ensures forall p | p in combat.fighters :: p.HitPoints == old(p.HitPoints) && p.RememberedNames == old(p.RememberedNames)
      ensures forall m | m in combat.mobs :: m.HitPoints == old(m.HitPoints)
    {
      DistinctSnoc(Fights, combat);
      Fights := Fights + [combat];
      started := combat.Start(rooms);
    }

    /** `EnterRoom(player, room)`: when `player` is the only player in the
      room and some npc there is aggro, one fight is set off: `player`
      against the first aggro npc, which is then added once more for every
      npc of the room with another name. */
    method EnterRoom(player: Player, room: Room, rooms: map<string, Room>) returns (fight: Combat?)
      requires Valid()
      modifies this, player, room.npcs
      ensures Valid()
      ensures fight == null <==> |room.players| != 1 || FirstAggro(room.npcs).None?
      ensures fight == null ==> Fights == old(Fights)
      ensures fight != null ==> fresh(fight) && Fights == old(Fights) + [fight]
      ensures fight != null ==>
                var npc := room.npcs[FirstAggro(room.npcs).value];
                && fight.fighters == [player] && fight.fightersToIgnore == [player] && fight.combatOrder == [player]
                && fight.mobs == [npc] + Repeat([npc], |OtherNamed(room.npcs, npc.Name)|)
                && fight.isAggro && fight.room == Bind(rooms, null, [player.Location] + MobLocations(fight.mobs))
                && player.Status == GameStatus.Fighting && npc.Status == GameStatus.Fighting
      ensures fight == null ==> player.Status == old(player.Status)
      ensures player.HitPoints == old(player.HitPoints) && player.RememberedNames == old(player.RememberedNames)
      ensures forall m | m in room.npcs :: m.HitPoints == old(m.HitPoints)
      ensures forall m | m in room.npcs && (fight == null || m !in fight.mobs) :: m.Status == old(m.Status)
    {
      fight := null;
      if |room.players| != 1 {
        return;
      }
      var npcs := room.npcs;
      var i := 0;
      while i < |npcs|
        invariant 0 <= i <= |npcs|
        invariant forall j | 0 <= j < i :: !npcs[j].Aggro
        invariant fight == null && Fights == old(Fights)
      {
        var npc := npcs[i];
        if npc.Aggro {
          var combat := Muster(player, npc, npcs);
          assert FirstAggro(npcs) == Some(i) by {
            FirstAggroIs(npcs, i);
          }
          assert npc in room.npcs;
          assert forall k | 0 <= k < |combat.mobs| :: combat.mobs[k] in room.npcs;
          var _ := StartFight(combat, rooms);
          assert PlayerLocations(combat.fighters) == [player.Location];
          fight := combat;
          return;
        }
        i := i + 1;
      }
      FirstAggroNone(npcs);
    }

    /** The fight `EnterRoom` sets up before starting it: `player` against
      `npc`, which joins once more for every npc of `npcs` with another name. */
    static method Muster(player: Player, npc: NonPlayer, npcs: seq<NonPlayer>) returns (combat: Combat)
      ensures fresh(combat)
      ensures combat.fighters == [player] && combat.fightersToIgnore == [player] && combat.combatOrder == [player]
      ensures combat.mobs == [npc] + Repeat([npc], |OtherNamed(npcs, npc.Name)|)
      ensures forall k | 0 <= k < |combat.mobs| :: combat.mobs[k] == npc
      ensures !combat.isAggro && combat.room == null
    {
      combat := new Combat();
      combat.AddFighter(player);
      combat.AddMob(npc);
      // line 438 adds `npc` again, not `otherNpc`
      var others := Copies(combat, npc, npcs);
      RepeatOnly(npc, others);
      assert forall k | 0 <= k < |combat.mobs| :: combat.mobs[k] in combat.mobs;
    }

    /** The inner `foreach` of `EnterRoom`: `npc` joins `combat` once more for
      each npc of `npcs` with another name. */
    static method Copies(combat: Combat, npc: NonPlayer, npcs: seq<NonPlayer>) returns (added: nat)
      modifies combat
      ensures added == |OtherNamed(npcs, npc.Name)|
      ensures combat.mobs == old(combat.mobs) + Repeat([npc], added)
      ensures combat.fighters == old(combat.fighters) && combat.isAggro == old(combat.isAggro)
      ensures combat.room == old(combat.room)
      ensures combat.fightersToIgnore == old(combat.fightersToIgnore)
      ensures combat.combatOrder == old(combat.combatOrder)
    {
      added := 0;
      var k := 0;
      while k < |npcs|
        invariant 0 <= k <= |npcs|
        invariant added == |OtherNamed(npcs[..k], npc.Name)|
        invariant combat.mobs == old(combat.mobs) + Repeat([npc], added)
        invariant combat.fighters == old(combat.fighters) && combat.isAggro == old(combat.isAggro)
        invariant combat.room == old(combat.room)
        invariant combat.fightersToIgnore == old(combat.fightersToIgnore)
        invariant combat.combatOrder == old(combat.combatOrder)
      {
        assert npcs[..k + 1][..k] == npcs[..k];
        if npcs[k].Name != npc.Name {
          combat.AddMob(npc);
          added := added + 1;
        }
        k := k + 1;
      }
      assert npcs[..k] == npcs;
    }

    /** `DoCombat`, over a snapshot of the registry: each fight plays a
      round; a fight no longer fighting afterwards is ended and removed. A
      round that throws stops the tick, leaving that fight and the rest of
      the snapshot registered as they were. */
    method DoCombat() returns (tick: Tick, ghost played: seq<(Phase<Player, NonPlayer>, Phase<NonPlayer, Player>)>)
      requires Valid()
      modifies this, Fights, RegistryFrame()
      ensures Valid()
      ensures tick.Completed? ==> Fights == StillFighting(old(Fights))
      ensures tick.Halted? ==> && tick.at < |old(Fights)| && !tick.outcome.Played?
                               && Fights == StillFighting(old(Fights)[..tick.at]) + old(Fights)[tick.at..]
      ensures forall c | c in old(Fights) && c !in Fights :: c.Ended()
      ensures |played| == if tick.Completed? then |old(Fights)| else tick.at
      ensures forall k | 0 <= k < |played| ::
                RoundPlayed(old(Fights[k]).fighters, old(Fights[k]).mobs, old(Fights[k].fighters), old(Fights[k].mobs),
                            old(Fights[k].isAggro), played[k])
    {
      var kept;
      tick, kept, played := Rounds(Fights, RegistryFrame());
      Fights := kept;
    }

    /** The `foreach` of `DoCombat` on the snapshot `snapshot`: `kept` is what
      the registry becomes. `cast` covers what the rounds may change. */
    static method Rounds(snapshot: seq<Combat>, ghost cast: set<object?>)
      returns (tick: Tick, kept: seq<Combat>, ghost played: seq<(Phase<Player, NonPlayer>, Phase<NonPlayer, Player>)>)
      requires Distinct(snapshot)
      requires cast == FightsFrame(snapshot)
      modifies snapshot, cast
      ensures Distinct(kept)
      ensures tick.Completed? ==> kept == StillFighting(snapshot)
      ensures tick.Halted? ==> && tick.at < |snapshot| && !tick.outcome.Played?
                               && kept == StillFighting(snapshot[..tick.at]) + snapshot[tick.at..]
      ensures forall c | c in snapshot && c !in kept :: c.Ended()
      ensures |played| == if tick.Completed? then |snapshot| else tick.at
      ensures forall k | 0 <= k < |played| ::
                RoundPlayed(snapshot[k].fighters, snapshot[k].mobs, old(snapshot[k].fighters), old(snapshot[k].mobs),
                            old(snapshot[k].isAggro), played[k])
    {
      FightsFrameCover(snapshot);
      var fighting;
      tick, fighting, played := Sweep(snapshot, cast);
      var n := |fighting|;
      kept := Prune(snapshot, fighting);
      KeptDistinct(snapshot, n, fighting);
      SelectFighting(snapshot[..n], fighting);
      Dropped(snapshot, n, fighting);
      forall c | c in snapshot && c !in kept ensures c.Ended() {
        var k :| 0 <= k < |snapshot| && snapshot[k] == c;
      }
      if tick.Completed? {
        assert snapshot[..n] == snapshot;
      }
    }

    /** The rounds of the `foreach` of `DoCombat`, up to the first that
      throws: `fighting[k]` says whether the fight at `k` of the snapshot
      was still fighting after its round `played[k]`. */
    static method Sweep(snapshot: seq<Combat>, ghost cast: set<object?>)
      returns (tick: Tick, fighting: seq<bool>, ghost played: seq<(Phase<Player, NonPlayer>, Phase<NonPlayer, Player>)>)
      requires Distinct(snapshot)
      requires forall c | c in snapshot :: FightFrame(c) <= cast
      modifies snapshot, cast
      ensures tick.Halted? ==> tick.at < |snapshot| && !tick.outcome.Played?
      ensures |fighting| == |played| == if tick.Completed? then |snapshot| else tick.at
      ensures forall k | 0 <= k < |fighting| :: fighting[k] == snapshot[k].Fighting()
      ensures forall k | 0 <= k < |fighting| && !fighting[k] :: snapshot[k].Ended()
      ensures forall k | 0 <= k < |played| ::
                RoundPlayed(snapshot[k].fighters, snapshot[k].mobs, old(snapshot[k].fighters), old(snapshot[k].mobs),
                            old(snapshot[k].isAggro), played[k])
    {
      fighting := [];
      var n := 0;
      tick := Completed;
      played := [];
      while n < |snapshot|
        invariant 0 <= n <= |snapshot| && |fighting| == n && |played| == n
        invariant forall k | 0 <= k < n ::
                    RoundPlayed(snapshot[k].fighters, snapshot[k].mobs, old(snapshot[k].fighters), old(snapshot[k].mobs),
                                old(snapshot[k].isAggro), played[k])
        invariant forall k | 0 <= k < n :: fighting[k] == snapshot[k].Fighting()
        invariant forall k | 0 <= k < n && !snapshot[k].Fighting() :: snapshot[k].Ended()
        invariant forall k | n <= k < |snapshot| ::
                    && snapshot[k].fighters == old(snapshot[k].fighters)
                    && snapshot[k].mobs == old(snapshot[k].mobs)
                    && snapshot[k].room == old(snapshot[k].room)
                    && snapshot[k].isAggro == old(snapshot[k].isAggro)
      {
        var combat := snapshot[n];
        assert FightFrame(combat) == old(FightFrame(snapshot[n]));
        assert forall p | p in combat.fighters :: p in cast;
        assert forall m | m in combat.mobs :: m in cast;
        assert combat.room in cast;
        var outcome, still, mob, strike := Step(combat, snapshot, n);
        if !outcome.Played? {
          tick := Halted(n, outcome);
          return;
        }
        played := played + [(mob, strike)];
        fighting := fighting + [still];
        n := n + 1;
      }
    }

    /** The `Fights.Remove(combat)` calls of one pass of `DoCombat`, in their
        order: `fighting[k]` says whether the fight at `k` of the snapshot was
        still fighting after its round. */
    static method Prune(snapshot: seq<Combat>, fighting: seq<bool>) returns (kept: seq<Combat>)
      requires Distinct(snapshot) && |fighting| <= |snapshot|
      ensures kept == Select(snapshot[..|fighting|], fighting) + snapshot[|fighting|..]
    {
      kept := snapshot;
      var i := 0;
      while i < |fighting|
        invariant 0 <= i <= |fighting|
        invariant kept == Select(snapshot[..i], fighting[..i]) + snapshot[i..]
      {
        PruneStep(snapshot, fighting, i, kept);
        if !fighting[i] {
          kept := RemoveFirst(kept, snapshot[i]);
        }
        i := i + 1;
      }
      assert fighting[..i] == fighting;
    }

    /** One pass of the loop body of `DoCombat` for the fight at `n` of the
        snapshot: its `Bout`. Only that fight and its own participants and
        room change. */
    static method Step(combat: Combat, ghost snapshot: seq<Combat>, ghost n: nat)
      returns (outcome: RoundOutcome, still: bool, ghost mob: Phase<Player, NonPlayer>, ghost strike: Phase<NonPlayer, Player>)
      requires Distinct(snapshot) && n < |snapshot| && snapshot[n] == combat
      modifies combat, combat.fighters, combat.mobs, combat.room
      ensures combat.fighters == RemoveEach(old(combat.fighters), Fallen(mob.kills))
      ensures combat.mobs == RemoveEach(old(combat.mobs), Fallen(strike.kills))
      ensures Exchanged(old(combat.fighters), old(combat.mobs), old(combat.isAggro), mob, strike)
      ensures outcome.Played? ==> combat.combatOrder == Survivors(old(combat.combatOrder))
      ensures outcome.Played? ==> still == combat.Fighting()
      ensures outcome.Played? && !still ==> combat.Ended()
      ensures forall k | 0 <= k < |snapshot| && k != n ::
                && snapshot[k].fighters == old(snapshot[k].fighters)
                && snapshot[k].mobs == old(snapshot[k].mobs)
                && snapshot[k].room == old(snapshot[k].room)
                && snapshot[k].isAggro == old(snapshot[k].isAggro)
                && snapshot[k].Fighting() == old(snapshot[k].Fighting())
      ensures forall k | 0 <= k < |snapshot| && k != n && old(snapshot[k].Ended()) :: snapshot[k].Ended()
    {
      assert forall k | 0 <= k < |snapshot| && k != n :: snapshot[k] != combat;
      outcome, still, mob, strike := Bout(combat);
    }

    /** `combat.Round(...)`, then `combat.End()` when the round was played
        and left the fight no longer fighting. */
    static method Bout(combat: Combat)
      returns (outcome: RoundOutcome, still: bool, ghost mob: Phase<Player, NonPlayer>, ghost strike: Phase<NonPlayer, Player>)
      modifies combat, FightFrame(combat)
      ensures combat.fighters == RemoveEach(old(combat.fighters), Fallen(mob.kills))
      ensures combat.mobs == RemoveEach(old(combat.mobs), Fallen(strike.kills))
      ensures combat.room == old(combat.room) && combat.isAggro == old(combat.isAggro)
      ensures Exchanged(old(combat.fighters), old(combat.mobs), old(combat.isAggro), mob, strike)
      ensures outcome.Played? ==> combat.combatOrder == Survivors(old(combat.combatOrder))
      ensures outcome.Played? ==> still == combat.Fighting()
      ensures outcome.Played? && !still ==> combat.Ended()
      ensures forall p | p in old(combat.fighters) :: p.Status == old(p.Status) || p.Status == Standing
      ensures forall m | m in old(combat.mobs) :: m.Status == old(m.Status) || m.Status == Standing
      ensures forall c: Combat | c != combat && old(allocated(c)) && old(c.Ended()) :: c.Ended()
    {
      ghost var gear := FightFrame(combat);
      assert forall p | p in combat.fighters :: p in gear;
      assert forall m | m in combat.mobs :: m in gear;
      outcome, mob, strike := RosterRound(combat);
      still := combat.Fighting();
      if outcome.Played? && !still {
        assert forall p | p in combat.fighters :: p in gear;
        assert forall m | m in combat.mobs :: m in gear;
        ghost var ended: seq<object> := combat.fighters + combat.mobs;
        assert combat !in ended;
        Retire(combat, old(combat.combatOrder));
      }
    }

    /** `PlayRound`, stated by what it does to the rosters, the statuses
        and the combat order only. */
    static method RosterRound(combat: Combat)
      returns (outcome: RoundOutcome, ghost mob: Phase<Player, NonPlayer>, ghost strike: Phase<NonPlayer, Player>)
      modifies combat, combat.fighters, combat.mobs, combat.room
      ensures combat.fighters == RemoveEach(old(combat.fighters), Fallen(mob.kills))
      ensures combat.mobs == RemoveEach(old(combat.mobs), Fallen(strike.kills))
      ensures forall p | p in combat.fighters :: p in old(combat.fighters)
      ensures forall m | m in combat.mobs :: m in old(combat.mobs)
      ensures combat.room == old(combat.room) && combat.isAggro == old(combat.isAggro)
      ensures Exchanged(old(combat.fighters), old(combat.mobs), old(combat.isAggro), mob, strike)
      ensures forall p | p in old(combat.fighters) :: p.Status == old(p.Status)
      ensures forall m | m in old(combat.mobs) :: m.Status == old(m.Status)
      ensures outcome.Played? ==> combat.combatOrder == Survivors(old(combat.combatOrder))
      ensures forall p: Player | old(allocated(p)) :: p.Status == old(p.Status)
      ensures forall m: NonPlayer | old(allocated(m)) :: m.Status == old(m.Status)
    {
      outcome, mob, strike := PlayRound(combat);
    }

    /** `combat.End()` after a round that left the fight no longer fighting.
        Hit points stay as they are, so which of the players `order` survive
        stays the same. */
    static method Retire(combat: Combat, ghost order: seq<Player>)
      modifies combat.fighters, combat.mobs
      ensures forall p | p in combat.fighters :: p.Status == Standing && p.HitPoints == old(p.HitPoints)
      ensures forall m | m in combat.mobs :: m.Status == Standing && m.HitPoints == old(m.HitPoints)
      ensures combat.Ended()
      ensures Survivors(order) == old(Survivors(order))
      ensures forall c: Combat | old(allocated(c)) && old(c.Ended()) :: c.Ended()
    {
      combat.End();
      assert forall p | p in order :: p.HitPoints == old(p.HitPoints) by {
        forall p | p in order ensures p.HitPoints == old(p.HitPoints) {
          if p in combat.fighters {
          }
        }
      }
      SurvivorsStable(order);
    }

    /** `combat.Round(...)`: the hit phases `mob` and `strike` take their
        victims off the rosters, lower hit points and change no status; the
        round is played (its text printed and sent to the room) exactly when
        `Print` finds every text and the fight has a room, and then the dead
        leave the combat order and `fightersToIgnore`. */
    static method PlayRound(combat: Combat)
      returns (outcome: RoundOutcome, ghost mob: Phase<Player, NonPlayer>, ghost strike: Phase<NonPlayer, Player>)
      modifies combat, combat.fighters, combat.mobs, combat.room
      ensures combat.fighters == RemoveEach(old(combat.fighters), Fallen(mob.kills))
      ensures combat.mobs == RemoveEach(old(combat.mobs), Fallen(strike.kills))
      ensures forall p | p in combat.fighters :: p in old(combat.fighters)
      ensures forall m | m in combat.mobs :: m in old(combat.mobs)
      ensures combat.room == old(combat.room) && combat.isAggro == old(combat.isAggro)
      ensures Landed(old(combat.fighters), old(combat.mobs), old(PlayerVitals(combat.fighters)),
                     old(MobVitals(combat.mobs)), mob, strike)
      ensures Exchanged(old(combat.fighters), old(combat.mobs), old(combat.isAggro), mob, strike)
      ensures forall p | p in old(combat.fighters) :: p.Status == old(p.Status)
      ensures forall m | m in old(combat.mobs) :: m.Status == old(m.Status)
      ensures var printed := Resolve(RoundText(old(combat.isAggro), mob, strike), old(combat.combatOrder));
              outcome.Played? <==> printed.Printed? && combat.room != null
      ensures outcome.Played? ==>
                && Resolve(RoundText(old(combat.isAggro), mob, strike), old(combat.combatOrder)) == Printed(outcome.text)
                && combat.combatOrder == Survivors(old(combat.combatOrder))
                && combat.fightersToIgnore == Survivors(old(combat.fightersToIgnore))
    {
      ghost var fighters, mobs := combat.fighters, combat.mobs;
      ghost var fv, mv := PlayerVitals(fighters), MobVitals(mobs);
      assert forall p | p in fighters :: fv[p].1 == p.Status;
      assert forall m | m in mobs :: mv[m].1 == m.Status;
      ghost var printed;
      outcome, mob, strike, printed := combat.Round();
      assert Landed(fighters, mobs, fv, mv, mob, strike);
      RemoveEachWithin(fighters, Fallen(mob.kills));
      RemoveEachWithin(mobs, Fallen(strike.kills));
    }

    /** `AddToCombat(player, mobKey)`: `player` joins every registered fight
      one of whose mobs has the key `mobKey`. */
    method AddToCombat(player: Player, mobKey: string)
      requires Valid()
      modifies Fights
      ensures forall k | 0 <= k < |Fights| ::
                var joined := if HasMobKeyed(old(Fights[k].mobs), mobKey) then [player] else [];
                && Fights[k].fighters == old(Fights[k].fighters) + joined
                && Fights[k].fightersToIgnore == old(Fights[k].fightersToIgnore) + joined
                && Fights[k].combatOrder == old(Fights[k].combatOrder) + joined
      ensures forall k | 0 <= k < |Fights| ::
                && Fights[k].mobs == old(Fights[k].mobs) && Fights[k].isAggro == old(Fights[k].isAggro)
                && Fights[k].room == old(Fights[k].room)
    {
      var i := 0;
      while i < |Fights|
        invariant 0 <= i <= |Fights|
        invariant forall k | 0 <= k < i ::
                    var joined := if HasMobKeyed(old(Fights[k].mobs), mobKey) then [player] else [];
                    && Fights[k].fighters == old(Fights[k].fighters) + joined
                    && Fights[k].fightersToIgnore == old(Fights[k].fightersToIgnore) + joined
                    && Fights[k].combatOrder == old(Fights[k].combatOrder) + joined
        invariant forall k | i <= k < |Fights| ::
                    && Fights[k].fighters == old(Fights[k].fighters)
                    && Fights[k].fightersToIgnore == old(Fights[k].fightersToIgnore)
                    && Fights[k].combatOrder == old(Fights[k].combatOrder)
        invariant forall k | 0 <= k < |Fights| ::
                    && Fights[k].mobs == old(Fights[k].mobs) && Fights[k].isAggro == old(Fights[k].isAggro)
                    && Fights[k].room == old(Fights[k].room)
      {
        var fight := Fights[i];
        if exists m | m in fight.mobs :: m.Key == mobKey {
          fight.AddFighter(player);
        }
        i := i + 1;
      }
    }
  }

  // ---------------------------------------------------------------------
  // Lemmas.

  /** The round `round` was played on a fight whose rosters were
      `fighters0` and `mobs0` and whose aggro flag was `aggro`, leaving the
      rosters `fighters` and `mobs`: each roster lost exactly the victims of
      the phase that struck at it, and the blows of both phases were struck
      in roster order. */
  ghost predicate RoundPlayed(fighters: seq<Player>, mobs: seq<NonPlayer>, fighters0: seq<Player>, mobs0: seq<NonPlayer>,
                              aggro: bool, round: (Phase<Player, NonPlayer>, Phase<NonPlayer, Player>))
  {
    && fighters == RemoveEach(fighters0, Fallen(round.0.kills))
    && mobs == RemoveEach(mobs0, Fallen(round.1.kills))
    && Exchanged(fighters0, mobs0, aggro, round.0, round.1)
  }

  /** Copies of one npc are that npc only. */
  lemma {:induction false} RepeatOnly(npc: NonPlayer, n: nat)
    ensures forall m | m in [npc] + Repeat([npc], n) :: m == npc
  {
    if n > 0 {
      RepeatOnly(npc, n - 1);
      assert [npc] + Repeat([npc], n) == ([npc] + Repeat([npc], n - 1)) + [npc];
    }
  }

  lemma FirstAggroIs(npcs: seq<NonPlayer>, i: nat)
    requires i < |npcs| && npcs[i].Aggro && forall j | 0 <= j < i :: !npcs[j].Aggro
    ensures FirstAggro(npcs) == Some(i)
  {
  }

  lemma FirstAggroNone(npcs: seq<NonPlayer>)
    requires forall j | 0 <= j < |npcs| :: !npcs[j].Aggro
    ensures FirstAggro(npcs).None?
  {
  }

  /** A registry without duplicates splits into parts that share no fight. */
  lemma DistinctSplit<T>(s: seq<T>, n: nat)
    requires Distinct(s) && n < |s|
    ensures s[n] !in s[..n]
  {
  }

  /** The registry `DoCombat` leaves has no fight twice. */
  lemma KeptDistinct<T>(s: seq<T>, n: nat, keep: seq<bool>)
    requires Distinct(s) && n <= |s| && |keep| == n
    ensures Distinct(Select(s[..n], keep) + s[n..])
  {
    var a, b := Select(s[..n], keep), s[n..];
    SelectDistinct(s[..n], keep);
    SelectWithin(s[..n], keep);
    forall x | x in a ensures x !in b {
      var i :| 0 <= i < n && s[i] == x;
    }
    DistinctConcat(a, b);
  }

  lemma {:induction false} SelectWithin<T>(cs: seq<T>, keep: seq<bool>)
    requires |keep| == |cs|
    ensures forall c | c in Select(cs, keep) :: c in cs
  {
    if cs != [] {
      SelectWithin(cs[..|cs| - 1], keep[..|cs| - 1]);
    }
  }

  lemma {:induction false} SelectDistinct<T>(cs: seq<T>, keep: seq<bool>)
    requires |keep| == |cs| && Distinct(cs)
    ensures Distinct(Select(cs, keep))
  {
    if cs != [] {
      var init := cs[..|cs| - 1];
      DistinctInit(cs);
      SelectDistinct(init, keep[..|cs| - 1]);
      SelectWithin(init, keep[..|cs| - 1]);
      DistinctSnoc(Select(init, keep[..|cs| - 1]), cs[|cs| - 1]);
    }
  }

  /** One pass of the `foreach` of `DoCombat` on the registry: the fight at
      `n` stays when it is still fighting (`fighting`) and is removed
      otherwise. */
  lemma KeptStep<T>(snapshot: seq<T>, n: nat, keep: seq<bool>, kept: seq<T>, fighting: bool)
    requires Distinct(snapshot) && n < |snapshot| && |keep| == n
    requires kept == Select(snapshot[..n], keep) + snapshot[n..]
    ensures (if fighting then kept else RemoveFirst(kept, snapshot[n])) ==
            Select(snapshot[..n + 1], keep + [fighting]) + snapshot[n + 1..]
  {
    var c, rest := snapshot[n], snapshot[n + 1..];
    assert snapshot[..n + 1] == snapshot[..n] + [c];
    assert snapshot[n..] == [c] + rest;
    SelectSnoc(snapshot[..n], keep, c, fighting);
    if !fighting {
      assert c !in Select(snapshot[..n], keep) by {
        SelectWithin(snapshot[..n], keep);
        DistinctSplit(snapshot, n);
      }
      RemoveNext(Select(snapshot[..n], keep), c, rest);
    }
  }

  /** Removing an element that first occurs right after `a` closes the gap. */
  lemma RemoveNext<T>(a: seq<T>, c: T, rest: seq<T>)
    requires c !in a
    ensures RemoveFirst(a + ([c] + rest), c) == a + rest
  {
    RemoveFirstAfter(a, [c] + rest, c);
    assert ([c] + rest)[1..] == rest;
  }

  /** `KeptStep` with the flags read off one sequence `fighting`. */
  lemma PruneStep<T>(snapshot: seq<T>, fighting: seq<bool>, i: nat, kept: seq<T>)
    requires Distinct(snapshot) && i < |fighting| <= |snapshot|
    requires kept == Select(snapshot[..i], fighting[..i]) + snapshot[i..]
    ensures (if fighting[i] then kept else RemoveFirst(kept, snapshot[i])) ==
            Select(snapshot[..i + 1], fighting[..i + 1]) + snapshot[i + 1..]
  {
    assert fighting[..i + 1] == fighting[..i] + [fighting[i]];
    KeptStep(snapshot, i, fighting[..i], kept, fighting[i]);
  }

  /** A fight whose flag is set is kept. */
  lemma {:induction false} SelectKeeps<T>(cs: seq<T>, keep: seq<bool>)
    requires |keep| == |cs|
    ensures forall k | 0 <= k < |cs| && keep[k] :: cs[k] in Select(cs, keep)
  {
    if cs != [] {
      SelectKeeps(cs[..|cs| - 1], keep[..|cs| - 1]);
    }
  }

  /** A fight missing from the registry a pass of `DoCombat` leaves is one
      the pass reached and found no longer fighting. */
  lemma Dropped<T>(snapshot: seq<T>, n: nat, keep: seq<bool>)
    requires n <= |snapshot| && |keep| == n
    ensures forall k | 0 <= k < |snapshot| && snapshot[k] !in Select(snapshot[..n], keep) + snapshot[n..] ::
              k < n && !keep[k]
  {
    SelectKeeps(snapshot[..n], keep);
    forall k | 0 <= k < |snapshot| && (k >= n || keep[k])
      ensures snapshot[k] in Select(snapshot[..n], keep) + snapshot[n..]
    {
      if k >= n {
        assert snapshot[k] == snapshot[n..][k - n];
      } else {
        assert snapshot[k] == snapshot[..n][k];
      }
    }
  }

  lemma SelectSnoc<T>(cs: seq<T>, keep: seq<bool>, c: T, b: bool)
    requires |keep| == |cs|
    ensures Select(cs + [c], keep + [b]) == Select(cs, keep) + (if b then [c] else [])
  {
    assert (cs + [c])[..|cs|] == cs;
    assert (keep + [b])[..|cs|] == keep;
  }

  /** Flags that record which fights are fighting select the fights still
      fighting. */
  lemma {:induction false} SelectFighting(cs: seq<Combat>, keep: seq<bool>)
    requires |keep| == |cs| && forall k | 0 <= k < |cs| :: keep[k] == cs[k].Fighting()
    ensures Select(cs, keep) == StillFighting(cs)
  {
    if cs != [] {
      SelectFighting(cs[..|cs| - 1], keep[..|cs| - 1]);
    }
  }
}
