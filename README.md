# FoxMud combat engine and room bookkeeping, modelled in Dafny

This project models two parts of the FoxMud text game server.

**The combat engine** (`FoxMud/Game/CombatHandler.cs`):

- `CombatRound` is the text ledger of one round. It holds three per-player
  buckets (own text, group text, killing-blow text) and one room text. The
  class `CombatRounds.CombatRound` keeps those four fields and mutates them in
  place, as `AddText` and `operator +` do. Its value is the datatype
  `Ledger`. `Print(combatOrder)` is a loop-by-loop method. It is proved equal
  to the function `Resolve`, and `Resolve` is characterised viewer by viewer
  (`ViewOf`, `Piece`).
- `Combat` is one fight. The class `Fights.Combat` holds the `fighters`,
  `mobs`, `combatOrder` and `fightersToIgnore` lists and the `isAggro` and
  `room` fields. It has `Start`, `AddFighter`, `AddMob`, the two hit phases,
  `Round` (without its pause) and `End`.
- The bookkeeping of each hit phase is stated by the ghost predicate
  `Tally`. The roster is the starting roster less the victims. The victims
  are distinct. Hit points only move for living participants, and only
  down. A participant is a victim exactly when it went from alive to dead
  during the phase.
- Each phase also leaves a ghost trace of its blows (`Blow`: target,
  striker, hit points before and after). `Traced` says the i-th blow was
  struck by the i-th member of the striking side at a living target, and
  that `killedBy` is exactly the fatal blows (`Fatal`), each credited to its
  striker.
- `CombatHandler` is the registry of fights (`Handler.CombatHandler`): the
  per-tick `DoCombat`, `StartFight`, the ambient trigger `EnterRoom` and
  `AddToCombat`.

**Room bookkeeping** (`FoxMud/Game/World/Room.cs`): the class `World.Room`
holds the occupant lists, the item map and the exits. `Exits` is a sequence
of (name, exit) pairs in enumeration order, so that "the first match" is
well defined. `Outbox` records every `Send` the room makes.

Collaborators whose code is not part of this model:

- `Hit` and `Die` are methods with nondeterministic bodies. A hit may lower
  its target's hit points and changes nothing else. Both return a fresh
  ledger of unknown text.
- The Guid shuffle that picks a target is a nondeterministic choice among
  the living members of the roster.
- `RoomHelper.GetPlayerRoom` is a parameter `rooms: map<string, Room>`.
- `StringHelpers.GetKeywords` is a parameter `getKeywords`.
- A C# `null` string for the room text is modelled as `""`, because
  `null + s == s` in C#.

Exceptions thrown by the source are modelled as error outcomes, with one
exception: the `KeyNotFoundException` of `Room.GetExit` for a name that is
not an exit is a precondition of `World.Room.GetExit` (see "Left out").

- `PrintResult.MissingEntry` is the `KeyNotFoundException` that lines 120 and
  129 throw. They read `result[x] +=` when `x` has no entry yet.
- `Start` returns `false` instead of throwing when a roster is empty.
- `RoundOutcome.NoRoom` is the null dereference at line 283.
- `Tick.Halted` is a round that throws and so leaves `DoCombat`.

Behaviours of the code that the model keeps as written:

- After a round, players are pruned from `combatOrder` and
  `fightersToIgnore` when their hit points are `< 0`, not `<= 0`. A player at
  exactly 0 stays (lines 276 and 285).
- `StartFight` registers the fight before `Start` runs. A fight whose `Start`
  fails therefore stays registered (lines 418-419).
- `Print` compares players by `Forename`, not by identity, when it decides
  who receives a player's group text (line 108).
- `EnterRoom` adds the triggering `npc` again for every other npc of the
  room, not `otherNpc` (line 438). The fight's mob roster therefore holds
  copies of one npc (`Handler.CombatHandler.Muster`). Because `Remove` takes
  away one copy, a dead copy stays on the roster (`Fights.CopyOutlivesDeath`).
- Merging ledgers does not distribute over `Print`. `Print` interleaves the
  text by player, so printing a merged ledger is not the concatenation of
  printing each part. What does hold is `MergedInOrder`: every key's text is
  the first ledger's non-blank text followed by the second's.

`killedBy.Add` (lines 323 and 372) would throw on a duplicate key. In this
model, where `Die` leaves hit points alone, that never happens: a victim
leaves the roster at once, and `Tally` proves that the victims of a phase
are distinct.

## Model

| member | source | states |
|---|---|---|
| `CombatRounds.CombatRound.constructor` | FoxMud/Game/CombatHandler.cs:29-34 | A new round holds no text in any bucket and an empty room text. |
| `CombatRounds.CombatRound.AddText` | FoxMud/Game/CombatHandler.cs:56-82 | The new ledger is the old one with `text` appended to the bucket `kind` selects (the room text for Room). |
| `CombatRounds.AppendedTarget` | FoxMud/Game/CombatHandler.cs:56-82 | AddText puts `text` after the old entry, or creates the entry when it was absent. The bucket gains exactly that key, and every other key keeps its text. |
| `CombatRounds.AppendedOnlyAppends` | FoxMud/Game/CombatHandler.cs:56-82 | AddText never removes a key or replaces text, and it leaves every other bucket and the room text unchanged. |
| `CombatRounds.CombatRound.MergeEntries` | FoxMud/Game/CombatHandler.cs:146-155 | One `foreach` of `operator +` appends every non-blank entry of the right map to the left map, creating keys where needed. |
| `CombatRounds.CombatRound.Plus` | FoxMud/Game/CombatHandler.cs:144-183 | `r1 + r2` mutates `r1`, bucket by bucket, into the merge with `r2`. It adds room text only when `r2`'s is not blank, and it returns `r1`. |
| `CombatRounds.MergeTextsAt` | FoxMud/Game/CombatHandler.cs:146-177 | A merged bucket keeps every key of `r1`. A key of `r2` is added only when its text is not blank. Each text is `r1`'s text followed by `r2`'s non-blank text. |
| `CombatRounds.MergedExtends` | FoxMud/Game/CombatHandler.cs:144-183 | A merge loses no key of `r1` and no text of `r1`: it only appends. |
| `CombatRounds.MergeEmptyRight` | FoxMud/Game/CombatHandler.cs:144-183 | Merging a fresh, empty round changes nothing. |
| `CombatRounds.MergedInOrder` | FoxMud/Game/CombatHandler.cs:251-272 | In `new CombatRound() + first + second`, a key exists exactly when either phase has non-blank text for it. The key's text is the first phase's text followed by the second's, and the same holds for the room text. |
| `CombatRounds.CombatRound.Print` | FoxMud/Game/CombatHandler.cs:88-142 | The loop computes exactly `Resolve(ledger, combatOrder)`, including the KeyNotFound failures of lines 120 and 129. |
| `CombatRounds.CombatRound.NotifyOthersOf` | FoxMud/Game/CombatHandler.cs:106-121 | The inner loop gives the player's group text and then its kill text to every entry with another Forename. It fails at the first entry that has no text yet. |
| `CombatRounds.ResolveCharacterized` | FoxMud/Game/CombatHandler.cs:88-134 | When Print succeeds, a viewer has an entry exactly when some visit in the combat order opened one. The viewer's text is the pieces of the visits in combat-order position: own text and kill notice to the player itself, and group plus kill text to every other-named entry, never to a namesake. |
| `CombatRounds.ResolveKeysInOrder` | FoxMud/Game/CombatHandler.cs:88-134 | Every key of Print's output is a player of the combat order. |
| `CombatRounds.ResolveSucceeds` | FoxMud/Game/CombatHandler.cs:118-131 | Print does not throw when every player with kill text also has group text and, if still alive, own text. |
| `CombatRounds.ResolveFailsForUnopenedBystander` | FoxMud/Game/CombatHandler.cs:118-120 | A player with kill text but no group text, followed by a differently named player with no entry yet, makes Print throw at line 120 for that player. |
| `CombatRounds.KillSubjectOfDeadLine` | FoxMud/Game/CombatHandler.cs:123-133 | For a kill line "<name> is DEAD!!!\n", removing "is DEAD!!!" and trimming leaves exactly `name`, so the killer reads "You killed <name>!!!". |
| `Fights.Combat.constructor` | FoxMud/Game/CombatHandler.cs:186-194 | A new fight has empty rosters, combat order and ignore list, no room, and is not aggro. |
| `Fights.Combat.Fighting` | FoxMud/Game/CombatHandler.cs:206-209 | The fight goes on while both the fighter roster and the mob roster are non-empty. |
| `Fights.Combat.AddFighter` | FoxMud/Game/CombatHandler.cs:211-216 | The player is appended to `fighters`, `fightersToIgnore` and `combatOrder`. Nothing else changes. |
| `Fights.Combat.AddMob` | FoxMud/Game/CombatHandler.cs:218-221 | The npc is appended to `mobs` only. |
| `Fights.Combat.Start` | FoxMud/Game/CombatHandler.cs:223-247 | Start fails, changing nothing, exactly when a roster is empty. Otherwise every participant is Fighting, `isAggro` holds when some mob is Aggro (or it already held), and the room is that of the first participant whose location is known. Rosters and hit points are unchanged. |
| `Fights.Combat.RallyFighters` | FoxMud/Game/CombatHandler.cs:228-234 | Every fighter is set Fighting, and the room is bound from the fighters' locations in order. |
| `Fights.Combat.RallyMobs` | FoxMud/Game/CombatHandler.cs:236-246 | Every mob is set Fighting, `isAggro` becomes the old flag or any mob's Aggro, and the room is bound from the mobs' locations. |
| `Fights.AnyAggroMeans` | FoxMud/Game/CombatHandler.cs:241-243 | The flag the mob loop computes holds exactly when some mob is Aggro. |
| `Fights.Narration` | FoxMud/Game/CombatHandler.cs:319 | The rounds `Hit` and `Die` return are fresh objects whose text the model leaves open. |
| `Fights.PlayerDie` | FoxMud/Game/CombatHandler.cs:326 | `playerToHit.Die()` returns a fresh round and changes no hit points or status. |
| `Fights.MobDie` | FoxMud/Game/CombatHandler.cs:375 | `mobToHit.Die()` returns a fresh round and changes no hit points or status. |
| `Fights.MobHit` | FoxMud/Game/CombatHandler.cs:319 | `npc.Hit(player)` may lower the target's hit points, leaves its status and remembered names alone and returns a fresh round. |
| `Fights.PlayerHit` | FoxMud/Game/CombatHandler.cs:367 | `player.Hit(mob)` may lower the target's hit points, leaves its status alone and returns a fresh round. |
| `Fights.Combat.DoMobHits` | FoxMud/Game/CombatHandler.cs:299-347 | The fighter roster afterwards is the old roster less the victims, each removed once. Victims are exactly the fighters that went from above 0 hit points to 0 or below, each recorded once. Hit points never rise, and statuses and the mob roster are unchanged. The blows were struck by the mobs in roster order, each at a living fighter, and each victim is credited to the mob whose blow felled it (`Traced`). The round is the narration followed by one "<forename> is DEAD!!!\n" KillingBlow line per victim, keyed by the victim. |
| `Fights.Combat.MobsStrike` | FoxMud/Game/CombatHandler.cs:309-331 | Over the whole mob loop: the roster afterwards is the old roster less the victims, which are distinct fighters of the old roster. A fighter's hit points never rise, and it is a victim exactly when they went from above 0 to 0 or below. The i-th blow is by the i-th mob at a living fighter, and each victim is credited to the mob whose blow felled it. Statuses are unchanged. |
| `Fights.Combat.MobStrikes` | FoxMud/Game/CombatHandler.cs:311-329 | One pass of the mob loop keeps the phase bookkeeping (`Tally`, `Traced`, `Paced`) for the next mob. When `killed`, exactly one pair is appended to `killedBy`, crediting `npc`, and its victim leaves the roster once. Otherwise `killedBy` and the roster are unchanged. |
| `Fights.Combat.TellMobBlow` | FoxMud/Game/CombatHandler.cs:319-326 | The hit's narration, then the victim's `Die` narration, go into the phase's round. No fighter's hit points or status change. |
| `Fights.Combat.MobBlow` | FoxMud/Game/CombatHandler.cs:312-325 | Nobody is struck (no target, no narration, nothing recorded) exactly when no fighter of the roster has hit points above 0. Otherwise the target is a living roster member, and only its hit points change, never upward. The blow is appended to the trace. A victim exists exactly when the target dropped to 0 or below, and then `killedBy` gains (victim, npc) and the victim leaves the roster once. |
| `Fights.Combat.MobLands` | FoxMud/Game/CombatHandler.cs:319-325 | The blow of `npc` on a living target: the target's status is unchanged, and the blow is appended to the trace with the target's hit points before and after. A victim exists exactly when the target is at 0 or below, and then it is credited to `npc` and leaves the roster. The phase bookkeeping still holds. |
| `Fights.Combat.AnnounceMobKills` | FoxMud/Game/CombatHandler.cs:333-339 | One KillingBlow line per recorded kill, keyed by the victim, in the order the kills were recorded. |
| `Fights.MobPhaseKills` | FoxMud/Game/CombatHandler.cs:333-339 | The mob phase tells each victim once, under its own key, that it is dead. The other buckets hold the narration alone. |
| `Fights.Combat.DoPlayerHits` | FoxMud/Game/CombatHandler.cs:349-396 | The same as DoMobHits with the sides swapped. The mob roster loses exactly the mobs killed, each once, and each is credited to the fighter whose blow felled it, the blows being struck by the fighters in roster order. The kill line "<name> is DEAD!!!\n" is keyed by the killer. |
| `Fights.Combat.PlayersStrike` | FoxMud/Game/CombatHandler.cs:359-380 | Over the whole fighter loop: the mob roster afterwards is the old roster less the victims, which are distinct mobs of the old roster. A mob's hit points never rise, and it is a victim exactly when they went from above 0 to 0 or below. The i-th blow is by the i-th fighter at a living mob, and each victim is credited to the fighter whose blow felled it. Statuses are unchanged. |
| `Fights.Combat.PlayerStrikes` | FoxMud/Game/CombatHandler.cs:361-378 | One pass of the fighter loop keeps the phase bookkeeping for the next fighter. When `killed`, exactly one pair is appended to `killedBy`, crediting `player`, and its victim leaves the mob roster once. Otherwise nothing is recorded. |
| `Fights.Combat.TellPlayerBlow` | FoxMud/Game/CombatHandler.cs:367-375 | The hit's narration, then the mob's `Die` narration, go into the phase's round. No mob's hit points or status change. |
| `Fights.Combat.PlayerBlow` | FoxMud/Game/CombatHandler.cs:361-374 | Nobody is struck exactly when no mob of the roster has hit points above 0. Otherwise the target is a living roster mob, and only its hit points change, never upward. The blow is traced. A victim exists exactly when the mob dropped to 0 or below, and then `killedBy` gains (victim, player) and the mob leaves the roster once. |
| `Fights.Combat.PlayerLands` | FoxMud/Game/CombatHandler.cs:367-374 | The blow of `player` on a living mob: the blow is appended to the trace, and a victim exists exactly when the mob is at 0 or below, and then it is credited to `player` and leaves the roster. The phase bookkeeping still holds. |
| `Fights.Combat.AnnouncePlayerKills` | FoxMud/Game/CombatHandler.cs:382-388 | One KillingBlow line per recorded kill, keyed by the killer, in the order the kills were recorded. |
| `Fights.PlayerPhaseKills` | FoxMud/Game/CombatHandler.cs:382-388 | The player phase gives extra kill text to exactly the players who struck a killing blow. |
| `Fights.Felled` | FoxMud/Game/CombatHandler.cs:321-325 | A fatal blow on a living roster member removes it and records it as a victim, and the phase tally still holds. |
| `Fights.Wounded` | FoxMud/Game/CombatHandler.cs:319-321 | A blow that leaves a living target alive keeps the phase tally. |
| `Fights.TracedStep` | FoxMud/Game/CombatHandler.cs:309-325 | The blow of the next striker in roster order at a living target extends the trace. A blow that leaves the target at 0 or below adds exactly its (victim, striker) pair to the kills. |
| `Fights.Struck` | FoxMud/Game/CombatHandler.cs:319-328 | Before a blow, every earlier striker has struck. After it, the tally, the trace and the pacing hold for the next striker, with the target removed and credited exactly when the blow was fatal. |
| `Fights.RosterEmptied` | FoxMud/Game/CombatHandler.cs:327-328 | A roster is empty after the phase exactly when every member fell, once each. |
| `Fights.CopyOutlivesDeath` | FoxMud/Game/CombatHandler.cs:324 | A participant entered twice in a roster is still on it after it dies, because `Remove` takes away one entry. |
| `Fights.Combat.Exchange` | FoxMud/Game/CombatHandler.cs:251-272 | The merged round text is the mob phase then the player phase when `isAggro` holds, and the reverse otherwise. Each roster loses exactly its victims. Every participant's hit points only fall and its status is unchanged. A participant is a victim exactly when it went from above 0 to 0 or below (`Landed`). The first phase's blows come from its whole side, and the second phase's from the survivors of that side (`Exchanged`). |
| `Fights.Combat.MobsFirst` | FoxMud/Game/CombatHandler.cs:253-262 | The aggro order: the mobs strike the starting fighters, then the surviving fighters strike the starting mobs. The rosters lose exactly their victims, and the victim and hit-point facts hold for every starting participant. |
| `Fights.Combat.FightersFirst` | FoxMud/Game/CombatHandler.cs:263-272 | The other order: the fighters strike the starting mobs, then the surviving mobs strike the starting fighters, with the same facts. |
| `Fights.RoundTextOrder` | FoxMud/Game/CombatHandler.cs:253-272 | For every player and bucket, the merged text is the first phase's non-blank text followed by the second's, and mob text comes first exactly when the fight is aggro. The same holds for the room text. |
| `Fights.Combat.Combine` | FoxMud/Game/CombatHandler.cs:251-272 | `new CombatRound() + first + second` as one ledger. |
| `Fights.Combat.Round` | FoxMud/Game/CombatHandler.cs:249-288 | Round runs the phases in aggro order and prints the merged text for the old combat order. It then drops the players with hit points below 0 from `combatOrder`, sends the room text to the room's players outside the old ignore list, and drops the players below 0 from `fightersToIgnore`. A Print failure or a missing room ends it early, as in the source. The victim, hit-point and status facts of Exchange hold at the end of the round. |
| `Fights.Combat.Deliver` | FoxMud/Game/CombatHandler.cs:274-285 | After the hits: Print, prune `combatOrder`, send the room text past the ignore list, prune `fightersToIgnore`. No participant's hit points or status change. |
| `Fights.Combat.Publish` | FoxMud/Game/CombatHandler.cs:274-276 | Print runs on the combat order. When it succeeds, players at hit points below 0 leave the order, and a player at exactly 0 stays. |
| `Fights.Survivors` | FoxMud/Game/CombatHandler.cs:276 | `RemoveAll(p => p.HitPoints < 0)` keeps exactly the players at 0 or above. |
| `Fights.SurvivorsConcat` | FoxMud/Game/CombatHandler.cs:276 | `RemoveAll` keeps order: pruning a concatenation prunes each part in place. |
| `Fights.SurvivorsCount` | FoxMud/Game/CombatHandler.cs:285 | `RemoveAll` keeps every copy of a player at 0 or above and no copy of any other. |
| `Fights.Combat.End` | FoxMud/Game/CombatHandler.cs:290-297 | Every participant still on a roster is set Standing (`Ended`), and hit points and remembered names are untouched. |
| `Fights.SurvivorsStable` | FoxMud/Game/CombatHandler.cs:276 | Which players `RemoveAll(p => p.HitPoints < 0)` keeps depends only on their hit points: when none changed, the pruned list is the same. |
| `Handler.CombatHandler.constructor` | FoxMud/Game/CombatHandler.cs:408-414 | The registry starts empty. |
| `Handler.CombatHandler.StartFight` | FoxMud/Game/CombatHandler.cs:416-420 | The fight is appended to the registry and then started, with Start's outcome: every participant Fighting, the aggro flag and the room bound, when both rosters are non-empty. It stays registered even when Start fails, and then no status changes. Rosters, combat order, ignore list, hit points and remembered names never change. |
| `Handler.CombatHandler.EnterRoom` | FoxMud/Game/CombatHandler.cs:422-445 | A fight is created, and at most one, exactly when the room holds one player and some npc there is Aggro. The fight is the player against the first Aggro npc, plus one more copy of that npc per npc of the room with another name. It is registered and started. Without a fight the registry and the player's status are unchanged. Nobody's hit points change, nor the player's remembered names, and every npc outside the fight keeps its status. |
| `Handler.CombatHandler.Muster` | FoxMud/Game/CombatHandler.cs:431-438 | The fight as built before it starts: the player against the first Aggro npc and its copies. Every mob of the roster is that npc. |
| `Handler.CombatHandler.Copies` | FoxMud/Game/CombatHandler.cs:436-438 | The inner loop adds `npc` once per npc with another name, as written at line 438. |
| `Handler.FirstAggro` | FoxMud/Game/CombatHandler.cs:427-429 | The index of the first Aggro npc, or none exactly when no npc is Aggro. |
| `Handler.OtherNamed` | FoxMud/Game/CombatHandler.cs:437 | The npcs the `Where(n => n.Name != npcName)` filter keeps: exactly those with another name. |
| `Handler.CombatHandler.DoCombat` | FoxMud/Game/CombatHandler.cs:447-469 | After a full tick, the registry is exactly the old fights still Fighting, in order; the others were removed. A round that throws halts the tick, with the fights before it already pruned and the rest left registered. Every fight removed from the registry was ended: its remaining participants are Standing. Every fight reached played a round (`RoundPlayed`): each roster lost exactly the victims of its hit phase, and the phases were struck in the fight's aggro order (`Exchanged`). |
| `Handler.CombatHandler.Rounds` | FoxMud/Game/CombatHandler.cs:450-467 | The loop over the snapshot, with the same outcome as DoCombat: the registry it leaves, every fight it drops ended, and a round played by every fight it reached. |
| `Handler.CombatHandler.Sweep` | FoxMud/Game/CombatHandler.cs:450-467 | The rounds of the loop, up to the first that throws: every fight reached played a round (`RoundPlayed`), its flag records whether it is still Fighting, and a fight flagged as stopped was ended. |
| `Handler.CombatHandler.Prune` | FoxMud/Game/CombatHandler.cs:461-466 | Removing each stopped fight in snapshot order leaves the fights flagged as still fighting, followed by the unvisited rest. |
| `Handler.CombatHandler.Step` | FoxMud/Game/CombatHandler.cs:452-464 | One pass plays the fight's round: each roster loses exactly the victims of its hit phase, the phases are struck in aggro order, and a played round leaves the combat order to the players at 0 hit points or above. When the round leaves the fight no longer Fighting, the fight is ended. No other fight's rosters, room, flag or Fighting state change, and a fight already ended stays ended. |
| `Handler.CombatHandler.Bout` | FoxMud/Game/CombatHandler.cs:454-465 | `Round`, then `End` when the round was played and the fight stopped: the roster, phase and combat-order facts of the round survive `End`, each participant's status stays as it was or becomes Standing, and every other fight already ended stays ended. |
| `Handler.CombatHandler.RosterRound` | FoxMud/Game/CombatHandler.cs:454 | The round's effect on the rosters and the combat order, and that no status of any player or npc changes. |
| `Handler.CombatHandler.Retire` | FoxMud/Game/CombatHandler.cs:462-465 | `End` leaves the fight ended with hit points unchanged, so the survivors of any player list stay the same, and every fight already ended stays ended. |
| `Handler.CombatHandler.PlayRound` | FoxMud/Game/CombatHandler.cs:454 | Each roster loses exactly the victims of its hit phase, hit points only fall, and a participant is a victim exactly when it went from above 0 to 0 or below (`Landed`). The phases are struck in aggro order (`Exchanged`). No status changes and the room is kept. The round is played exactly when Print succeeds on the phases' text and the fight has a room; then the printed text is that result, and the dead leave the combat order and the ignore list. |
| `Handler.Dropped` | FoxMud/Game/CombatHandler.cs:461-466 | A fight missing from the registry after a pass was reached by the pass and found no longer Fighting. |
| `Handler.SelectKeeps` | FoxMud/Game/CombatHandler.cs:461-466 | A fight still Fighting after its round stays registered. |
| `Handler.StillFightingMeans` | FoxMud/Game/CombatHandler.cs:461-466 | The surviving registry holds exactly the fights that are still Fighting. |
| `Handler.KeptDistinct` | FoxMud/Game/CombatHandler.cs:465 | Pruning never registers a fight twice. |
| `Handler.CombatHandler.AddToCombat` | FoxMud/Game/CombatHandler.cs:476-481 | The player joins as a fighter exactly those registered fights that have a mob with the given key. Nothing else of the fights changes. |
| `World.Room.constructor` | FoxMud/Game/World/Room.cs:30-38 | A new room has no occupants, no items and an empty outbox. |
| `World.Room.AddPlayer` | FoxMud/Game/World/Room.cs:67-71 | The player is appended only when absent. Nothing else changes. |
| `World.Room.RemovePlayer` | FoxMud/Game/World/Room.cs:73-76 | The first occurrence of the player is removed. |
| `World.Room.AddNpc` | FoxMud/Game/World/Room.cs:78-82 | The npc is appended only when absent. |
| `World.Room.RemoveNpc` | FoxMud/Game/World/Room.cs:84-87 | The first occurrence of the npc is removed. |
| `World.AddOccupantIdempotent` | FoxMud/Game/World/Room.cs:67-82 | Adding an occupant twice equals adding it once, and the list stays duplicate-free. |
| `World.RemoveOccupant` | FoxMud/Game/World/Room.cs:73-87 | On a duplicate-free list, removal leaves the occupant absent and the others in their relative order, with no duplicates. |
| `Lists.Admit` | FoxMud/Game/World/Room.cs:69-70 | After the guarded add, the element is present, and nothing else is added or lost. |
| `World.Room.HasExit` | FoxMud/Game/World/Room.cs:89-92 | HasExit holds exactly when some exit has that name. |
| `World.Room.GetExit` | FoxMud/Game/World/Room.cs:94-97 | The name must be an exit, because the indexer throws otherwise. The result is that exit's value, the only one when names are unique. |
| `World.Room.AddItem` | FoxMud/Game/World/Room.cs:99-102 | `Items[item.Key] = item.Name`: the key is set or overwritten, and nothing else changes. |
| `World.Room.RemoveItem` | FoxMud/Game/World/Room.cs:104-107 | Only the item's key is deleted. |
| `World.Room.FindExitByPartialName` | FoxMud/Game/World/Room.cs:109-118 | The result is the first exit whose name starts with the search string, or null exactly when no name does. |
| `World.Room.FindExitByLinkedRoom` | FoxMud/Game/World/Room.cs:120-129 | The result is the first exit leading to the room key, or null exactly when none does. |
| `World.FirstWhere` | FoxMud/Game/World/Room.cs:111-117 | The early-return scan finds the first matching exit, or none exactly when nothing matches. |
| `World.Room.SendPlayers` | FoxMud/Game/World/Room.cs:131-140 | The outbox gains one delivery per room player not in `ignore`, in list order. |
| `World.Room.Sends` | FoxMud/Game/World/Room.cs:133-139 | The loop makes exactly those Send calls. |
| `World.RecipientsFiltered` | FoxMud/Game/World/Room.cs:131-140 | The recipients are exactly the room players not ignored. Everyone receives when `ignore` is null, and nobody receives twice when the room has no duplicates. |
| `World.DeliveriesOneEach` | FoxMud/Game/World/Room.cs:138 | One delivery per recipient, in recipient order. |
| `World.Room.LookUpPlayer` | FoxMud/Game/World/Room.cs:142-180 | The loop computes the lookup function. It returns the player found and updates the caller's remembered names, and changes nothing else. |
| `World.LookupSafe` | FoxMud/Game/World/Room.cs:142-180 | The result is never the caller and is a room player. No remembered name is overwritten, and each added entry is a room player's Forename under its key. |
| `World.LookupRemembers` | FoxMud/Game/World/Room.cs:146-177 | The remembered names afterwards are those learnt from the players examined: the whole room when nothing is found, and the players up to and including the one returned otherwise. |
| `World.RememberKeeps` | FoxMud/Game/World/Room.cs:155-159 | A name already remembered is kept unchanged. |
| `World.RememberCovers` | FoxMud/Game/World/Room.cs:155-163 | Every examined player other than the looker has a remembered name afterwards. |
| `World.RememberLearns` | FoxMud/Game/World/Room.cs:160-163 | A newly remembered key belongs to an examined player other than the looker, and its name is the Forename of the first such player with that key. No other key is added. |
| `World.LookupFindsFirst` | FoxMud/Game/World/Room.cs:146-179 | With distinct keys, the lookup returns the first non-caller player whose keywords contain every lookup keyword, or null exactly when there is none. |
| `World.ContainsAll` | FoxMud/Game/World/Room.cs:165-173 | The keyword loop succeeds exactly when every lookup keyword is among the possible ones. |
| `World.Room.LookUpNpc` | FoxMud/Game/World/Room.cs:182-208 | The result is the first npc whose description and keyword keywords contain every lookup keyword, or null exactly when none does. |
| `World.FirstNpcMatch` | FoxMud/Game/World/Room.cs:186-207 | The index of the first npc matching every keyword, or none exactly when no npc matches. |

## Left out

- The timer start and stop, `CombatHandler.Start` and the `Thread.Sleep` pause in `Round` are not modelled. They are pacing and concurrency plumbing, and each tick is one call of `DoCombat`.
- The `player.Send(textToSend[player])` calls of `Round` (lines 278-279) are not recorded in an outbox. The round's outcome carries the per-player text that would be sent.
- The bodies of `Hit`, `Die` and `Player.Send` are not part of this model. `Hit` may lower hit points, and `Die`'s consequences (corpses, loot) are not captured.
- `RoomHelper.GetPlayerRoom` is a table parameter, and `StringHelpers.GetKeywords` is an uninterpreted function parameter.
- The Guid shuffle is not modelled as a uniform random source. Any living target may be chosen.
- The `catch (Exception ex) { throw ex; }` wrappers are not modelled. They rethrow unchanged, and the model propagates the error outcome.
- `RepopItems` is not modelled. It reads the database, copies templates with AutoMapper and compares against random floating-point numbers.
- The room's `Title`, `Description`, `Area`, `Gold`, `PopItems`, `CorpseQueue`, `CanPracticeHere` and its JSON persistence are not modelled, because no core operation reads them.
- The accessors `PlayerKeys`, `GroupKeys`, `KillingBlowKeys`, `GetRoomText`, `GetFighters`, `GetMobs`, `GetPlayers` and `GetNpcs` are not separate members. They are plain field reads (`View()`, or the fields themselves).
- Dictionary enumeration order is modelled as insertion order: `killedBy` is a sequence of pairs and `Exits` a sequence of (name, exit) pairs.
- `Fights.Combat.DoMobHits`: does not describe the narration text that `Hit` and `Die` return, only that it comes before the kill lines.
- `World.Room.GetExit`: the `KeyNotFoundException` for a name that is not an exit is modelled as the precondition `HasExit(exitName)`, not as an error outcome.
- `Handler.CombatHandler.DoCombat`: per fight reached, it states the roster changes and the strike order of the round (`RoundPlayed`), not the hit points, the printed text or the combat order; those are stated for one round by `Handler.CombatHandler.Step` and `Handler.CombatHandler.PlayRound`.
- `Handler.CombatHandler.Rounds`: the same limit as DoCombat.
- `Handler.CombatHandler.Sweep`: the same limit as DoCombat.
- `Handler.CombatHandler.Step`: states the roster, strike-order and combat-order facts of the round, not the hit points or the printed text, which `Handler.CombatHandler.PlayRound` states.
- `World.Room.FindExitByPartialName`: `StartsWith` is compared character by character (ordinally); .NET's default culture-sensitive comparison is not modelled.
