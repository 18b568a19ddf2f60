/** `Combat`: one fight between a roster of players (`fighters`) and a roster
    of non-player characters (`mobs`), advanced one round at a time. A round
    runs a mob phase and a player phase, in an order fixed by `isAggro`,
    merges their narration into one `CombatRound`, prints it per player and
    sends the room text to the onlookers. */
module Fights {
  import opened Actors
  import opened Lists
  import opened CombatRounds
  import opened World

  // ---------------------------------------------------------------------
  // Collaborators whose bodies are not part of this model.

  /** A round holding narration this model does not look into: what the
      game's `Hit` and `Die` return. */
  method Narration() returns (r: CombatRound)
    ensures fresh(r)
  {
    r := new CombatRound();
    var l: Ledger :| true;
    r.playerText, r.complementGroupText, r.killingBlowText, r.roomText := l.player, l.group, l.killingBlow, l.room;
  }

  /** `npc.Hit(target)`: may lower the target's hit points and nothing else. */
  method MobHit(npc: NonPlayer, target: Player) returns (r: CombatRound)
    modifies target
    ensures fresh(r)
    ensures target.HitPoints <= old(target.HitPoints)
    ensures target.Status == old(target.Status) && target.RememberedNames == old(target.RememberedNames)
  {
    var hitPoints :| hitPoints <= target.HitPoints;
    target.HitPoints := hitPoints;
    r := Narration();
  }

  /** `player.Hit(target)`: may lower the target's hit points and nothing else. */
  method PlayerHit(player: Player, target: NonPlayer) returns (r: CombatRound)
    modifies target
    ensures fresh(r)
    ensures target.HitPoints <= old(target.HitPoints)
    ensures target.Status == old(target.Status)
  {
    var hitPoints :| hitPoints <= target.HitPoints;
    target.HitPoints := hitPoints;
    r := Narration();
  }

  /** `player.Die()`: its consequences (corpse, loot) lie outside the model. */
  method PlayerDie(player: Player) returns (r: CombatRound)
    ensures fresh(r)
  {
    r := Narration();
  }

  /** `npc.Die()`: its consequences (corpse, loot) lie outside the model. */
  method MobDie(npc: NonPlayer) returns (r: CombatRound)
    ensures fresh(r)
  {
    r := Narration();
  }

  /** `RoomHelper.GetPlayerRoom(location)`, given as the table of rooms by
      location; null for a location it does not know. */
  function RoomAt(rooms: map<string, Room>, location: string): Room? {
    if location in rooms then rooms[location] else null
  }

  // ---------------------------------------------------------------------
  // Values the fight is specified with.

  /** The keys of `killedBy`, in the order they were added. */
  function Fallen<K, V>(kills: seq<(K, V)>): seq<K> {
    if kills == [] then [] else Fallen(kills[..|kills| - 1]) + [kills[|kills| - 1].0]
  }

  /** The ledger after `AddText(key, line, KillingBlow)` for every entry of
      `lines`, in order. */
  function KillLines(l: Ledger, lines: seq<(Player, string)>): Ledger {
    if lines == [] then l
    else
      var last := lines[|lines| - 1];
      Appended(KillLines(l, lines[..|lines| - 1]), last.0, last.1, KillingBlow)
  }

  /** The lines of `lines` addressed to `p`, in order. */
  function LinesFor(lines: seq<(Player, string)>, p: Player): string {
    if lines == [] then ""
    else
      var last := lines[|lines| - 1];
      LinesFor(lines[..|lines| - 1], p) + (if last.0 == p then last.1 else "")
  }

  /** The kill lines of the mob phase: each victim is told "<forename> is
      DEAD!!!", keyed by the victim. */
  function MobKillLines(kills: seq<(Player, NonPlayer)>): seq<(Player, string)> {
    if kills == [] then []
    else
      var last := kills[|kills| - 1];
      MobKillLines(kills[..|kills| - 1]) + [(last.0, DeadLine(last.0.Forename))]
  }

  /** The kill lines of the player phase: "<mob name> is DEAD!!!", keyed by
      the player who struck the blow. */
  function PlayerKillLines(kills: seq<(NonPlayer, Player)>): seq<(Player, string)> {
    if kills == [] then []
    else
      var last := kills[|kills| - 1];
      PlayerKillLines(kills[..|kills| - 1]) + [(last.1, DeadLine(last.0.Name))]
  }

  /** What one hit phase leaves in its round: the narration of its hits and
      deaths, then the kill lines for `kills` (victim, killer) in the order
      the victims fell. `blows` records the blows the phase struck. */
  datatype Phase<V, K> = Phase(narration: Ledger, kills: seq<(V, K)>, blows: seq<Blow<V, K>>)

  function MobPhaseText(ph: Phase<Player, NonPlayer>): Ledger {
    KillLines(ph.narration, MobKillLines(ph.kills))
  }

  function PlayerPhaseText(ph: Phase<NonPlayer, Player>): Ledger {
    KillLines(ph.narration, PlayerKillLines(ph.kills))
  }

  /** `Round`'s merged ledger: `new CombatRound() + first + second`, with the
      mob phase first exactly when the fight is aggro. */
  function RoundText(isAggro: bool, mob: Phase<Player, NonPlayer>, strike: Phase<NonPlayer, Player>): Ledger {
    if isAggro then Merged(Merged(Empty, MobPhaseText(mob)), PlayerPhaseText(strike))
    else Merged(Merged(Empty, PlayerPhaseText(strike)), MobPhaseText(mob))
  }

  /** `list.RemoveAll(p => p.HitPoints < 0)`: a player at exactly 0 stays. */
  function Survivors(ps: seq<Player>): (r: seq<Player>)
    reads ps
    ensures forall p | p in r :: p in ps && p.HitPoints >= 0
    ensures forall p | p in ps && p.HitPoints >= 0 :: p in r
  {
    if ps == [] then []
    else
      var last := ps[|ps| - 1];
      Survivors(ps[..|ps| - 1]) + (if last.HitPoints < 0 then [] else [last])
  }

  /** `Survivors` reads hit points only: it gives the same players in a
      state where no player of `ps` has other hit points. */
  twostate lemma {:induction false} SurvivorsStable(ps: seq<Player>)
    requires forall p | p in ps :: p.HitPoints == old(p.HitPoints)
    ensures Survivors(ps) == old(Survivors(ps))
    decreases |ps|
  {
    if ps != [] {
      SurvivorsStable(ps[..|ps| - 1]);
    }
  }

  /** `Survivors` keeps order: filtering a concatenation filters each part. */
  lemma {:induction false} SurvivorsConcat(a: seq<Player>, b: seq<Player>)
    decreases |b|
    ensures Survivors(a + b) == Survivors(a) + Survivors(b)
  {
    if b == [] {
      assert a + b == a;
    } else {
      var init, last := b[..|b| - 1], b[|b| - 1];
      var kept := if last.HitPoints < 0 then [] else [last];
      calc {
        Survivors(a + b);
        { assert (a + b)[..|a + b| - 1] == a + init && (a + b)[|a + b| - 1] == last; }
        Survivors(a + init) + kept;
        { SurvivorsConcat(a, init); }
        (Survivors(a) + Survivors(init)) + kept;
        Survivors(a) + (Survivors(init) + kept);
      }
    }
  }

  /** `Survivors` keeps every copy of a player at 0 hit points or above and
      no copy of any other. */
  lemma {:induction false} SurvivorsCount(ps: seq<Player>)
    ensures forall p | p in multiset(ps) ::
              multiset(Survivors(ps))[p] == if p.HitPoints >= 0 then multiset(ps)[p] else 0
  {
    if ps != [] {
      var init := ps[..|ps| - 1];
      SurvivorsCount(init);
      assert ps == init + [ps[|ps| - 1]];
    }
  }

  function PlayerLocations(ps: seq<Player>): seq<string> {
    if ps == [] then [] else [ps[0].Location] + PlayerLocations(ps[1..])
  }

  function MobLocations(ms: seq<NonPlayer>): seq<string> {
    if ms == [] then [] else [ms[0].Location] + MobLocations(ms[1..])
  }

  /** Some mob of `ms` is aggro. */
  predicate AnyAggro(ms: seq<NonPlayer>) {
    ms != [] && (AnyAggro(ms[..|ms| - 1]) || ms[|ms| - 1].Aggro)
  }

  lemma {:induction false} AnyAggroMeans(ms: seq<NonPlayer>)
    ensures AnyAggro(ms) <==> exists m | m in ms :: m.Aggro
  {
    if ms != [] {
      var init := ms[..|ms| - 1];
      AnyAggroMeans(init);
      assert ms == init + [ms[|ms| - 1]];
    }
  }

  /** `if (room == null) room = RoomHelper.GetPlayerRoom(location);` for each
      location in turn. */
  function Bind(rooms: map<string, Room>, room: Room?, locations: seq<string>): Room?
    decreases |locations|
  {
    if locations == [] then room
    else Bind(rooms, if room == null then RoomAt(rooms, locations[0]) else room, locations[1..])
  }

  lemma {:induction false} BindConcat(rooms: map<string, Room>, room: Room?, a: seq<string>, b: seq<string>)
    ensures Bind(rooms, room, a + b) == Bind(rooms, Bind(rooms, room, a), b)
    decreases |a|
  {
    if a == [] {
      assert a + b == b;
    } else {
      assert (a + b)[0] == a[0] && (a + b)[1..] == a[1..] + b;
      BindConcat(rooms, if room == null then RoomAt(rooms, a[0]) else room, a[1..], b);
    }
  }

  /** The bookkeeping of one hit phase, on values. `before` is the roster the
      phase started with, `hp0` and `hp` the hit points at its start and now,
      `roster` the roster now, `side` the other roster and `kills` the
      (victim, killer) pairs so far: the roster is `before` less the victims,
      the victims are distinct members of `before` struck by members of
      `side`, only living participants' hit points ever move, and only down,
      and a participant is a victim exactly when it went from alive to dead. */
  ghost predicate Tally<V, K>(before: seq<V>, hp0: map<V, int>, hp: map<V, int>,
                                  roster: seq<V>, side: seq<K>, kills: seq<(V, K)>)
  {
    && roster == RemoveEach(before, Fallen(kills))
    && (forall v | v in roster :: v in before)
    && Distinct(Fallen(kills))
    && (forall v | v in Fallen(kills) :: v in before)
    && (forall i | 0 <= i < |kills| :: kills[i].1 in side)
    && (forall v | v in before ::
         && v in hp0 && v in hp && hp[v] <= hp0[v]
         && (hp[v] != hp0[v] ==> hp0[v] > 0)
         && (v in Fallen(kills) <==> hp0[v] > 0 && hp[v] <= 0))
  }

  /** The tally a phase starts from. */
  lemma TallyStarts<V, K>(before: seq<V>, hp0: map<V, int>, side: seq<K>)
    requires forall v | v in before :: v in hp0
    ensures Tally(before, hp0, hp0, before, side, [])
  {
  }

  lemma FallenSnoc<V, K>(kills: seq<(V, K)>, v: V, k: K)
    ensures Fallen(kills + [(v, k)]) == Fallen(kills) + [v]
  {
    assert (kills + [(v, k)])[..|kills|] == kills;
  }

  /** A blow from `striker` that leaves the living `target` alive, at `hit`
      hit points, keeps the tally. */
  lemma Wounded<V, K>(before: seq<V>, hp0: map<V, int>, hp: map<V, int>, roster: seq<V>,
                      side: seq<K>, kills: seq<(V, K)>, target: V, hit: int)
    requires Tally(before, hp0, hp, roster, side, kills)
    requires target in roster && hp[target] > 0 && 0 < hit <= hp[target]
    ensures Tally(before, hp0, hp[target := hit], roster, side, kills)
  {
  }

  /** A fatal blow from `striker` (in `side`) on the living `target` takes
      it off the roster and records it as a victim. */
  lemma Felled<V, K>(before: seq<V>, hp0: map<V, int>, hp: map<V, int>, roster: seq<V>,
                     side: seq<K>, kills: seq<(V, K)>, target: V, hit: int, striker: K)
    requires Tally(before, hp0, hp, roster, side, kills)
    requires target in roster && hp[target] > 0 && hit <= 0 && striker in side
    ensures Tally(before, hp0, hp[target := hit], RemoveFirst(roster, target), side, kills + [(target, striker)])
  {
    var kills' := kills + [(target, striker)];
    FallenSnoc(kills, target, striker);
    assert target !in Fallen(kills);
    DistinctSnoc(Fallen(kills), target);
    assert (Fallen(kills) + [target])[..|Fallen(kills)|] == Fallen(kills);
    RemoveFirstWithin(roster, target);
    forall i | 0 <= i < |kills'| ensures kills'[i].1 in side {
      if i < |kills| { assert kills'[i] == kills[i]; }
    }
  }

  /** What a tally says about the roster alone. */
  lemma TallyRoster<V, K>(before: seq<V>, hp0: map<V, int>, hp: map<V, int>, roster: seq<V>,
                          side: seq<K>, kills: seq<(V, K)>)
    requires Tally(before, hp0, hp, roster, side, kills)
    ensures roster == RemoveEach(before, Fallen(kills)) && Distinct(Fallen(kills))
    ensures forall v | v in Fallen(kills) :: v in before
  {
  }

  /** `hp` holds the current hit points of the players `ps`. */
  ghost predicate PlayersAt(ps: seq<Player>, hp: map<Player, int>)
    reads ps
  {
    forall p | p in ps :: p in hp && p.HitPoints == hp[p]
  }

  /** `hp` holds the current hit points of the mobs `ms`. */
  ghost predicate MobsAt(ms: seq<NonPlayer>, hp: map<NonPlayer, int>)
    reads ms
  {
    forall m | m in ms :: m in hp && m.HitPoints == hp[m]
  }

  /** One blow of a hit phase: its target, its striker, and the target's hit
      points just before and just after it. */
  datatype Blow<V, K> = Blow(target: V, striker: K, before: int, after: int)

  /** The (victim, striker) pairs of the fatal blows of `blows`, in order. */
  function Fatal<V, K>(blows: seq<Blow<V, K>>): seq<(V, K)> {
    if blows == [] then []
    else
      var last := blows[|blows| - 1];
      Fatal(blows[..|blows| - 1]) + (if last.after <= 0 then [(last.target, last.striker)] else [])
  }

  /** The blows of a phase on the roster `before`, struck by the roster
      `side`: the i-th blow is struck by the i-th member of `side`, at a
      target of `before` that was alive, and never raises hit points; the
      (victim, killer) pairs `kills` are exactly the blows that left their
      target at 0 or below, credited to the member who struck them. */
  ghost predicate Traced<V, K>(before: seq<V>, side: seq<K>, blows: seq<Blow<V, K>>, kills: seq<(V, K)>) {
    && |blows| <= |side|
    && (forall i {:trigger blows[i]} | 0 <= i < |blows| ::
          && blows[i].striker == side[i] && blows[i].target in before
          && 0 < blows[i].before && blows[i].after <= blows[i].before)
    && kills == Fatal(blows)
  }

  /** A phase about to let its `n`-th striker act, after `struck` blows:
      every earlier striker struck, unless at some point no living target
      was left in `roster` (and then none is left now). */
  ghost predicate Paced<V>(roster: seq<V>, hp: map<V, int>, struck: nat, n: nat) {
    struck <= n && (struck < n ==> forall v | v in roster :: v in hp && hp[v] <= 0)
  }

  /** The next member of `side` strikes a living target of `before`. */
  lemma TracedStep<V, K>(before: seq<V>, side: seq<K>, blows: seq<Blow<V, K>>, kills: seq<(V, K)>, b: Blow<V, K>)
    requires Traced(before, side, blows, kills) && |blows| < |side| && b.striker == side[|blows|]
    requires b.target in before && 0 < b.before && b.after <= b.before
    ensures Traced(before, side, blows + [b], kills + (if b.after <= 0 then [(b.target, b.striker)] else []))
  {
    assert (blows + [b])[..|blows|] == blows;
  }

  /** The bookkeeping of one blow `b` struck by the `n`-th member of `side`
      at the living roster member `b.target`: a fatal blow takes the target
      off the roster and credits it to the striker, any blow is traced, and
      the striker was next in line. */
  lemma Struck<V, K>(before: seq<V>, hp0: map<V, int>, hp: map<V, int>, roster: seq<V>, side: seq<K>,
                     kills: seq<(V, K)>, blows: seq<Blow<V, K>>, n: nat, b: Blow<V, K>)
    requires Tally(before, hp0, hp, roster, side, kills)
    requires Traced(before, side, blows, kills) && Paced(roster, hp, |blows|, n)
    requires n < |side| && b.striker == side[n]
    requires b.target in roster && hp[b.target] == b.before > 0 && b.after <= b.before
    ensures |blows| == n
    ensures var fatal := if b.after <= 0 then [(b.target, b.striker)] else [];
            var roster' := if b.after <= 0 then RemoveFirst(roster, b.target) else roster;
            && Tally(before, hp0, hp[b.target := b.after], roster', side, kills + fatal)
            && Traced(before, side, blows + [b], kills + fatal)
            && Paced(roster', hp[b.target := b.after], |blows| + 1, n + 1)
  {
    TracedStep(before, side, blows, kills, b);
    if b.after <= 0 {
      Felled(before, hp0, hp, roster, side, kills, b.target, b.after, b.striker);
    } else {
      Wounded(before, hp0, hp, roster, side, kills, b.target, b.after);
      assert kills + [] == kills;
    }
  }

  /** The hit points and status of each of the players `ps`. */
  ghost function PlayerVitals(ps: seq<Player>): map<Player, (int, GameStatus)>
    reads ps
  {
    map p | p in ps :: (p.HitPoints, p.Status)
  }

  /** The hit points and status of each of the mobs `ms`. */
  ghost function MobVitals(ms: seq<NonPlayer>): map<NonPlayer, (int, GameStatus)>
    reads ms
  {
    map m | m in ms :: (m.HitPoints, m.Status)
  }

  /** What the hit phases of a round did to the participants of the rosters
      `fighters0` and `mobs0` it started with, whose hit points and status
      were then `fv0` and `mv0`: hit points only fell, no status changed,
      and a participant fell exactly when its hit points went from above 0
      to 0 or below. */
  ghost predicate Landed(fighters0: seq<Player>, mobs0: seq<NonPlayer>,
                         fv0: map<Player, (int, GameStatus)>, mv0: map<NonPlayer, (int, GameStatus)>,
                         mob: Phase<Player, NonPlayer>, strike: Phase<NonPlayer, Player>)
    reads fighters0, mobs0
  {
    && (forall p | p in fighters0 ::
          && p in fv0 && p.HitPoints <= fv0[p].0 && p.Status == fv0[p].1
          && (p in Fallen(mob.kills) <==> fv0[p].0 > 0 && p.HitPoints <= 0))
    && (forall m | m in mobs0 ::
          && m in mv0 && m.HitPoints <= mv0[m].0 && m.Status == mv0[m].1
          && (m in Fallen(strike.kills) <==> mv0[m].0 > 0 && m.HitPoints <= 0))
  }

  /** The blows of both phases of a round on the rosters `fighters0` and
      `mobs0` it started with were struck in roster order by the side that
      was standing when the phase began: the whole roster for the first
      phase (the mobs' exactly when the fight is `aggro`), its survivors for
      the second. */
  ghost predicate Exchanged(fighters0: seq<Player>, mobs0: seq<NonPlayer>, aggro: bool,
                            mob: Phase<Player, NonPlayer>, strike: Phase<NonPlayer, Player>)
  {
    && Traced(fighters0, if aggro then mobs0 else RemoveEach(mobs0, Fallen(strike.kills)), mob.blows, mob.kills)
    && Traced(mobs0, if aggro then RemoveEach(fighters0, Fallen(mob.kills)) else fighters0, strike.blows, strike.kills)
  }

  // ---------------------------------------------------------------------
  // What a round's bookkeeping implies.

  /** The second components of `kills`, in order: who struck each blow. */
  function Killers<V, K>(kills: seq<(V, K)>): seq<K> {
    if kills == [] then [] else Killers(kills[..|kills| - 1]) + [kills[|kills| - 1].1]
  }

  /** The merged ledger of a round holds, for every player and bucket, the
      first phase's non-blank text followed by the second phase's, and the
      same for the room text: the mob phase comes first exactly when the
      fight is aggro. */
  lemma RoundTextOrder(isAggro: bool, mob: Phase<Player, NonPlayer>, strike: Phase<NonPlayer, Player>,
                       kind: CombatTextType, p: Player)
    requires kind != ToRoom
    ensures var first := if isAggro then MobPhaseText(mob) else PlayerPhaseText(strike);
            var second := if isAggro then PlayerPhaseText(strike) else MobPhaseText(mob);
            var r := RoundText(isAggro, mob, strike);
            && TextAt(r, kind, p) == Kept(Bucket(first, kind), p) + Kept(Bucket(second, kind), p)
            && r.room == KeptRoom(first) + KeptRoom(second)
  {
    if isAggro {
      MergedInOrder(MobPhaseText(mob), PlayerPhaseText(strike), kind, p);
    } else {
      MergedInOrder(PlayerPhaseText(strike), MobPhaseText(mob), kind, p);
    }
  }

  /** Adding the kill lines touches only the killing-blow bucket: each
      addressee's text gains its lines, in order, and a key appears exactly
      for the addressees. */
  lemma KillLinesEffect(l: Ledger, lines: seq<(Player, string)>, p: Player)
    ensures var r := KillLines(l, lines);
            && r.player == l.player && r.group == l.group && r.room == l.room
            && TextOf(r.killingBlow, p) == TextOf(l.killingBlow, p) + LinesFor(lines, p)
            && (p in r.killingBlow <==> p in l.killingBlow || p in Fallen(lines))
  {
    KillLinesBuckets(l, lines);
    KillLinesText(l, lines, p);
    KillLinesKeys(l, lines, p);
  }

  lemma {:induction false} KillLinesBuckets(l: Ledger, lines: seq<(Player, string)>)
    ensures var r := KillLines(l, lines);
            r.player == l.player && r.group == l.group && r.room == l.room
  {
    if lines != [] {
      var init, last := lines[..|lines| - 1], lines[|lines| - 1];
      KillLinesBuckets(l, init);
      KillLineEffect(KillLines(l, init), last.0, last.1, last.0);
    }
  }

  lemma {:induction false} KillLinesText(l: Ledger, lines: seq<(Player, string)>, p: Player)
    ensures TextOf(KillLines(l, lines).killingBlow, p) == TextOf(l.killingBlow, p) + LinesFor(lines, p)
  {
    if lines != [] {
      var init, last := lines[..|lines| - 1], lines[|lines| - 1];
      var e := if last.0 == p then last.1 else "";
      var a, b := TextOf(l.killingBlow, p), LinesFor(init, p);
      assert TextOf(KillLines(l, lines).killingBlow, p) == (a + b) + e by {
        KillLinesText(l, init, p);
        KillLineEffect(KillLines(l, init), last.0, last.1, p);
      }
      assert LinesFor(lines, p) == b + e;
      assert (a + b) + e == a + (b + e);
    }
  }

  lemma {:induction false} KillLinesKeys(l: Ledger, lines: seq<(Player, string)>, p: Player)
    ensures p in KillLines(l, lines).killingBlow <==> p in l.killingBlow || p in Fallen(lines)
  {
    if lines != [] {
      var init, last := lines[..|lines| - 1], lines[|lines| - 1];
      KillLinesKeys(l, init, p);
      KillLineEffect(KillLines(l, init), last.0, last.1, p);
      assert lines == init + [last];
      FallenSnoc(init, last.0, last.1);
    }
  }

  /** One kill line: `AddText(q, t, KillingBlow)`. */
  lemma KillLineEffect(l: Ledger, q: Player, t: string, p: Player)
    ensures var r := Appended(l, q, t, KillingBlow);
            && r.player == l.player && r.group == l.group && r.room == l.room
            && TextOf(r.killingBlow, p) == TextOf(l.killingBlow, p) + (if q == p then t else "")
            && (p in r.killingBlow <==> p in l.killingBlow || p == q)
  {
    if q != p {
      assert TextOf(l.killingBlow, p) + "" == TextOf(l.killingBlow, p);
    }
  }

  /** The mob phase's kill lines go to its victims, in the order they fell. */
  lemma {:induction false} MobKillLinesFor(kills: seq<(Player, NonPlayer)>, p: Player)
    requires Distinct(Fallen(kills))
    ensures Fallen(MobKillLines(kills)) == Fallen(kills)
    ensures LinesFor(MobKillLines(kills), p) == if p in Fallen(kills) then DeadLine(p.Forename) else ""
  {
    if kills != [] {
      var init, last := kills[..|kills| - 1], kills[|kills| - 1];
      DistinctInit(Fallen(kills));
      assert Fallen(kills)[..|Fallen(kills)| - 1] == Fallen(init);
      MobKillLinesFor(init, p);
      var lines := MobKillLines(kills);
      assert lines[..|lines| - 1] == MobKillLines(init);
    }
  }

  /** The player phase's kill lines go to the players who struck the killing
      blows, one line per kill. */
  lemma {:induction false} PlayerKillLinesFor(kills: seq<(NonPlayer, Player)>, p: Player)
    ensures Fallen(PlayerKillLines(kills)) == Killers(kills)
    ensures LinesFor(PlayerKillLines(kills), p) != "" <==> p in Killers(kills)
  {
    if kills != [] {
      var init := kills[..|kills| - 1];
      PlayerKillLinesFor(init, p);
      var lines := PlayerKillLines(kills);
      assert lines[..|lines| - 1] == PlayerKillLines(init);
    }
  }

  /** The mob phase tells each of its victims, once, that it is dead, under
      its own key; the other buckets are the narration's. */
  lemma MobPhaseKills(ph: Phase<Player, NonPlayer>, p: Player)
    requires Distinct(Fallen(ph.kills))
    ensures var r := MobPhaseText(ph);
            && r.player == ph.narration.player && r.group == ph.narration.group
            && r.room == ph.narration.room
            && TextOf(r.killingBlow, p) == TextOf(ph.narration.killingBlow, p) +
                                           (if p in Fallen(ph.kills) then DeadLine(p.Forename) else "")
            && (p in r.killingBlow <==> p in ph.narration.killingBlow || p in Fallen(ph.kills))
  {
    KillLinesEffect(ph.narration, MobKillLines(ph.kills), p);
    MobKillLinesFor(ph.kills, p);
  }

  /** The player phase gives kill text to exactly the players who struck a
      killing blow (beyond what the narration holds); the other buckets are
      the narration's. */
  lemma PlayerPhaseKills(ph: Phase<NonPlayer, Player>, p: Player)
    ensures var r := PlayerPhaseText(ph);
            && r.player == ph.narration.player && r.group == ph.narration.group
            && r.room == ph.narration.room
            && (TextOf(r.killingBlow, p) == TextOf(ph.narration.killingBlow, p) <==> p !in Killers(ph.kills))
            && (p in r.killingBlow <==> p in ph.narration.killingBlow || p in Killers(ph.kills))
  {
    KillLinesEffect(ph.narration, PlayerKillLines(ph.kills), p);
    PlayerKillLinesFor(ph.kills, p);
    var t := TextOf(ph.narration.killingBlow, p);
    var lines := LinesFor(PlayerKillLines(ph.kills), p);
    assert |t + lines| == |t| + |lines|;
  }

  /** A roster that lost the distinct victims `fallen` is empty exactly when
      they were all of it: every member fell, and fell once. */
  lemma RosterEmptied<V>(before: seq<V>, fallen: seq<V>)
    requires Distinct(fallen) && forall v | v in fallen :: v in before
    ensures RemoveEach(before, fallen) == [] <==> multiset(before) == multiset(fallen)
  {
    RemoveEachCounts(before, fallen);
    forall v ensures multiset(fallen)[v] <= multiset(before)[v] {
      DistinctOnce(fallen, v);
    }
    if multiset(RemoveEach(before, fallen)) == multiset{} {
      forall v ensures multiset(before)[v] == multiset(fallen)[v] {
        assert multiset(RemoveEach(before, fallen))[v] == 0;
      }
      assert multiset(before) == multiset(fallen);
    }
  }

  /** A participant entered twice in a roster outlives a death: `Remove`
      takes one copy away, and a victim falls once per phase. */
  lemma CopyOutlivesDeath<V>(before: seq<V>, fallen: seq<V>, v: V)
    requires Distinct(fallen) && multiset(before)[v] >= 2
    ensures v in RemoveEach(before, fallen)
  {
    RemoveEachCounts(before, fallen);
    DistinctOnce(fallen, v);
    assert multiset(RemoveEach(before, fallen))[v] > 0;
  }

  /** What `Round` does after the hits. Printing throws when a text is missing
      (`MissingEntry`), and sending to the room throws when the fight never
      found its room; either failure leaves `DoCombat`. */
  datatype RoundOutcome =
    | Played(text: Texts)
    | TextMissingFor(key: Player)
    | NoRoom(text: Texts)

  // ---------------------------------------------------------------------
  // The fight.

  class Combat {
    var fighters: seq<Player>
    var mobs: seq<NonPlayer>
    var isAggro: bool
    var room: Room?
    var fightersToIgnore: seq<Player>
    var combatOrder: seq<Player>

    constructor ()
      ensures fighters == [] && mobs == [] && !isAggro && room == null
      ensures fightersToIgnore == [] && combatOrder == []
    {
      fighters, mobs, isAggro, room := [], [], false, null;
      fightersToIgnore, combatOrder := [], [];
    }

    /** Both sides still have someone in their roster. */
    predicate Fighting()
      reads `fighters, `mobs
    {
      |fighters| > 0 && |mobs| > 0
    }

    /** Every participant still in a roster stands: the state `End` leaves. */
    ghost predicate Ended()
      reads `fighters, `mobs, fighters`Status, mobs`Status
    {
      && (forall p | p in fighters :: p.Status == Standing)
      && (forall m | m in mobs :: m.Status == Standing)
    }

    method AddFighter(player: Player)
      modifies this
      ensures fighters == old(fighters) + [player]
      ensures fightersToIgnore == old(fightersToIgnore) + [player]
      ensures combatOrder == old(combatOrder) + [player]
      ensures mobs == old(mobs) && isAggro == old(isAggro) && room == old(room)
    {
      fighters := fighters + [player];
      fightersToIgnore := fightersToIgnore + [player];
      combatOrder := combatOrder + [player];
    }

    method AddMob(npc: NonPlayer)
      modifies this
      ensures mobs == old(mobs) + [npc]
      ensures fighters == old(fighters) && isAggro == old(isAggro) && room == old(room)
      ensures fightersToIgnore == old(fightersToIgnore) && combatOrder == old(combatOrder)
    {
      mobs := mobs + [npc];
    }

    /** `Start()`. An empty roster makes it throw, modelled as `false` with
      nothing changed. Otherwise every participant is set Fighting and any
      aggro mob makes the fight aggro; the room is taken from the first
      participant whose location the room table knows. */
    method Start(rooms: map<string, Room>) returns (started: bool)
      modifies this, fighters, mobs
      ensures started <==> old(Fighting())
      ensures fighters == old(fighters) && mobs == old(mobs)
      ensures fightersToIgnore == old(fightersToIgnore) && combatOrder == old(combatOrder)
      ensures forall p | p in fighters :: p.HitPoints == old(p.HitPoints) && p.RememberedNames == old(p.RememberedNames)
      ensures forall m | m in mobs :: m.HitPoints == old(m.HitPoints)
      ensures !started ==> isAggro == old(isAggro) && room == old(room)
      ensures !started ==> forall p | p in fighters :: p.Status == old(p.Status)
      ensures !started ==> forall m | m in mobs :: m.Status == old(m.Status)
      ensures started ==> forall p | p in fighters :: p.Status == GameStatus.Fighting
      ensures started ==> forall m | m in mobs :: m.Status == GameStatus.Fighting
      ensures started ==> isAggro == (old(isAggro) || exists m | m in mobs :: m.Aggro)
      ensures started ==> room == Bind(rooms, old(room), PlayerLocations(fighters) + MobLocations(mobs))
    {
      if |fighters| < 1 || |mobs| < 1 {
        return false;
      }
      RallyFighters(rooms);
      RallyMobs(rooms);
      AnyAggroMeans(mobs);
      BindConcat(rooms, old(room), PlayerLocations(fighters), MobLocations(mobs));
      started := true;
    }

    /** The first `foreach` of `Start`: over the fighters. */
    method RallyFighters(rooms: map<string, Room>)
      modifies this, fighters
      ensures fighters == old(fighters) && mobs == old(mobs) && isAggro == old(isAggro)
      ensures fightersToIgnore == old(fightersToIgnore) && combatOrder == old(combatOrder)
      ensures forall p | p in fighters :: p.HitPoints == old(p.HitPoints) && p.Status == GameStatus.Fighting
      ensures forall p | p in fighters :: p.RememberedNames == old(p.RememberedNames)
      ensures room == Bind(rooms, old(room), PlayerLocations(fighters))
    {
      ghost var goal := Bind(rooms, room, PlayerLocations(fighters));
      var i := 0;
      while i < |fighters|
        invariant 0 <= i <= |fighters|
        invariant fighters == old(fighters) && mobs == old(mobs) && isAggro == old(isAggro)
        invariant fightersToIgnore == old(fightersToIgnore) && combatOrder == old(combatOrder)
        invariant forall p | p in fighters :: p.HitPoints == old(p.HitPoints) && p.RememberedNames == old(p.RememberedNames)
        invariant forall j | 0 <= j < i :: fighters[j].Status == GameStatus.Fighting
        invariant Bind(rooms, room, PlayerLocations(fighters[i..])) == goal
      {
        var fighter := fighters[i];
        assert PlayerLocations(fighters[i..]) == [fighter.Location] + PlayerLocations(fighters[i + 1..]);
        if room == null {
          room := RoomAt(rooms, fighter.Location);
        }
        fighter.Status := GameStatus.Fighting;
        i := i + 1;
      }
      forall p | p in fighters ensures p.Status == GameStatus.Fighting {
        var j :| 0 <= j < |fighters| && fighters[j] == p;
      }
    }

    /** The second `foreach` of `Start`: over the mobs. */
    method RallyMobs(rooms: map<string, Room>)
      modifies this, mobs
      ensures fighters == old(fighters) && mobs == old(mobs)
      ensures fightersToIgnore == old(fightersToIgnore) && combatOrder == old(combatOrder)
      ensures forall m | m in mobs :: m.HitPoints == old(m.HitPoints) && m.Status == GameStatus.Fighting
      ensures isAggro == (old(isAggro) || AnyAggro(mobs))
      ensures room == Bind(rooms, old(room), MobLocations(mobs))
    {
      ghost var goal := Bind(rooms, room, MobLocations(mobs));
      var roster, aggro, found := mobs, isAggro, room;
      var k := 0;
      while k < |roster|
        invariant 0 <= k <= |roster|
        invariant fighters == old(fighters) && mobs == roster && isAggro == old(isAggro) && room == old(room)
        invariant fightersToIgnore == old(fightersToIgnore) && combatOrder == old(combatOrder)
        invariant forall m | m in roster :: m.HitPoints == old(m.HitPoints)
        invariant forall j | 0 <= j < k :: roster[j].Status == GameStatus.Fighting
        invariant aggro == (old(isAggro) || AnyAggro(roster[..k]))
        invariant Bind(rooms, found, MobLocations(roster[k..])) == goal
      {
        var mob := roster[k];
        assert roster[..k + 1][..k] == roster[..k];
        assert MobLocations(roster[k..]) == [mob.Location] + MobLocations(roster[k + 1..]);
        if found == null {
          found := RoomAt(rooms, mob.Location);
        }
        // one aggro mob makes the whole fight aggro: the mobs strike first each round
        aggro := aggro || mob.Aggro;
        mob.Status := GameStatus.Fighting;
        k := k + 1;
      }
      forall m | m in roster ensures m.Status == GameStatus.Fighting {
        var j :| 0 <= j < |roster| && roster[j] == m;
      }
      assert roster[..k] == roster;
      isAggro, room := aggro, found;
    }

    /** `DoMobHits()`: every mob on the roster strikes one living fighter
      chosen at random. A fighter brought to 0 hit points or below leaves the
      fighter roster at once, dies, and is announced to itself with a
      KillingBlow line once the phase is over. */
    method DoMobHits(ghost bystanders: seq<NonPlayer>)
      returns (round: CombatRound, ghost phase: Phase<Player, NonPlayer>,
               ghost hp0: map<Player, int>, ghost hp: map<Player, int>)
      modifies this, fighters
      ensures forall m | m in bystanders :: m.HitPoints == old(m.HitPoints) && m.Status == old(m.Status)
      ensures fresh(round)
      ensures round.View() == MobPhaseText(phase)
      ensures Tally(old(fighters), hp0, hp, fighters, mobs, phase.kills)
      ensures forall p | p in old(fighters) :: hp0[p] == old(p.HitPoints) && p.Status == old(p.Status)
      ensures PlayersAt(old(fighters), hp)
      ensures Traced(old(fighters), mobs, phase.blows, phase.kills)
      ensures fighters == RemoveEach(old(fighters), Fallen(phase.kills)) && Distinct(Fallen(phase.kills))
      ensures forall p | p in Fallen(phase.kills) :: p in old(fighters)
      ensures forall p | p in old(fighters) ::
                && p.HitPoints <= old(p.HitPoints)
                && (p in Fallen(phase.kills) <==> old(p.HitPoints) > 0 && p.HitPoints <= 0)
      ensures mobs == old(mobs) && isAggro == old(isAggro) && room == old(room)
      ensures fightersToIgnore == old(fightersToIgnore) && combatOrder == old(combatOrder)
    {
      round := new CombatRound();
      var roster, killedBy;
      ghost var blows;
      ghost var struck: seq<object> := fighters;
      assert forall m | m in bystanders :: m !in struck;
      roster, killedBy, hp0, hp, blows := MobsStrike(mobs, fighters, round);
      label Struck:
      fighters := roster;
      phase := Phase(round.View(), killedBy, blows);
      AnnounceMobKills(round, killedBy);
      forall p | p in old(fighters) ensures p.HitPoints == old@Struck(p.HitPoints) && p.Status == old@Struck(p.Status) { }
    }

    /** The `foreach` over the mobs in `DoMobHits`, on the two rosters. The
      loop leaves once a kill has emptied the fighter roster; the mobs it
      skips would have found no one to hit. */
    static method MobsStrike(mobs: seq<NonPlayer>, fighters: seq<Player>, round: CombatRound)
      returns (fighters': seq<Player>, killedBy: seq<(Player, NonPlayer)>,
               ghost hp0: map<Player, int>, ghost hp: map<Player, int>, ghost blows: seq<Blow<Player, NonPlayer>>)
      modifies fighters, round
      ensures Tally(fighters, hp0, hp, fighters', mobs, killedBy) && PlayersAt(fighters, hp)
      ensures Traced(fighters, mobs, blows, killedBy)
      ensures forall p | p in fighters :: hp0[p] == old(p.HitPoints) && p.Status == old(p.Status)
      ensures fighters' == RemoveEach(fighters, Fallen(killedBy)) && Distinct(Fallen(killedBy))
      ensures forall p | p in Fallen(killedBy) :: p in fighters
      ensures forall p | p in fighters ::
                && p.HitPoints <= old(p.HitPoints)
                && (p in Fallen(killedBy) <==> old(p.HitPoints) > 0 && p.HitPoints <= 0)
    {
      fighters', killedBy, blows := fighters, [], [];
      hp0 := map p | p in fighters :: p.HitPoints;
      hp := hp0;
      TallyStarts(fighters, hp0, mobs);
      var n := 0;
      while n < |mobs|
        invariant 0 <= n <= |mobs|
        invariant Tally(fighters, hp0, hp, fighters', mobs, killedBy) && PlayersAt(fighters, hp)
        invariant Traced(fighters, mobs, blows, killedBy) && Paced(fighters', hp, |blows|, n)
        invariant forall p | p in fighters :: hp0[p] == old(p.HitPoints) && p.Status == old(p.Status)
      {
        var killed;
        fighters', killedBy, killed, hp, blows := MobStrikes(mobs[n], fighters', round, killedBy, mobs, n, fighters, hp0, hp, blows);
        if killed && |fighters'| == 0 {
          break;
        }
        n := n + 1;
      }
    }

    /** One pass of the `foreach` in `DoMobHits`: `npc`, the `n`-th of
      `mobs`, strikes a living member of the fighter roster `roster`, if any
      is left, and `roster'` is the roster afterwards; `killed` tells whether
      the blow was fatal, and then the victim is credited to `npc` and leaves
      the roster. */
    static method MobStrikes(npc: NonPlayer, roster: seq<Player>, round: CombatRound,
                             killedBy: seq<(Player, NonPlayer)>, ghost mobs: seq<NonPlayer>, ghost n: nat,
                             ghost before: seq<Player>, ghost hp0: map<Player, int>, ghost hp: map<Player, int>,
                             ghost blows: seq<Blow<Player, NonPlayer>>)
      returns (roster': seq<Player>, killedBy': seq<(Player, NonPlayer)>, killed: bool,
               ghost hp': map<Player, int>, ghost blows': seq<Blow<Player, NonPlayer>>)
      requires n < |mobs| && npc == mobs[n]
      requires Tally(before, hp0, hp, roster, mobs, killedBy) && PlayersAt(before, hp)
      requires Traced(before, mobs, blows, killedBy) && Paced(roster, hp, |blows|, n)
      modifies before, round
      ensures Tally(before, hp0, hp', roster', mobs, killedBy') && PlayersAt(before, hp')
      ensures Traced(before, mobs, blows', killedBy') && Paced(roster', hp', |blows'|, n + 1)
      ensures forall p | p in before :: p.Status == old(p.Status)
      ensures killed ==> && |killedBy'| == |killedBy| + 1 && killedBy'[..|killedBy|] == killedBy
                         && killedBy'[|killedBy|].1 == npc && roster' == RemoveFirst(roster, killedBy'[|killedBy|].0)
      ensures !killed ==> killedBy' == killedBy && roster' == roster
    {
      var hit, victim;
      ghost var target;
      roster', killedBy', killed, hp', blows', hit, victim, target :=
        MobBlow(npc, roster, killedBy, mobs, n, before, hp0, hp, blows);
      if killed {
        assert killedBy'[..|killedBy|] == killedBy;
      }
      TellMobBlow(round, hit, victim, before);
    }

    /** The narration of a mob's blow: the hit, then the victim's death,
      added to the phase's round; the fighters `before` are left alone. */
    static method TellMobBlow(round: CombatRound, hit: CombatRound?, victim: Player?, ghost before: seq<Player>)
      modifies round
      ensures forall p | p in before :: p.HitPoints == old(p.HitPoints) && p.Status == old(p.Status)
    {
      if hit != null {
        var _ := CombatRound.Plus(round, hit);
      }
      if victim != null {
        var death := PlayerDie(victim);
        var _ := CombatRound.Plus(round, death);
      }
    }

    /** The blow of `MobStrikes` apart from its narration. `target` is the
      living fighter struck, null when none was left alive; `hit` is what the
      blow narrates, null exactly when nobody was struck; `victim` is the
      target when the blow was fatal, and is then credited to `npc` and taken
      off the roster. */
    static method MobBlow(npc: NonPlayer, roster: seq<Player>, killedBy: seq<(Player, NonPlayer)>,
                          ghost mobs: seq<NonPlayer>, ghost n: nat, ghost before: seq<Player>,
                          ghost hp0: map<Player, int>, ghost hp: map<Player, int>,
                          ghost blows: seq<Blow<Player, NonPlayer>>)
      returns (roster': seq<Player>, killedBy': seq<(Player, NonPlayer)>, killed: bool,
               ghost hp': map<Player, int>, ghost blows': seq<Blow<Player, NonPlayer>>,
               hit: CombatRound?, victim: Player?, ghost target: Player?)
      requires n < |mobs| && npc == mobs[n]
      requires Tally(before, hp0, hp, roster, mobs, killedBy) && PlayersAt(before, hp)
      requires Traced(before, mobs, blows, killedBy) && Paced(roster, hp, |blows|, n)
      modifies before
      ensures Tally(before, hp0, hp', roster', mobs, killedBy') && PlayersAt(before, hp')
      ensures Traced(before, mobs, blows', killedBy') && Paced(roster', hp', |blows'|, n + 1)
      ensures forall p | p in before :: p.Status == old(p.Status)
      ensures forall p | p in before && p != target :: p.HitPoints == old(p.HitPoints)
      ensures target == null <==> forall p | p in roster :: old(p.HitPoints) <= 0
      ensures hit == null <==> target == null
      ensures target == null ==> blows' == blows
      ensures target != null ==> && target in roster && old(target.HitPoints) > 0 && fresh(hit)
                                 && blows' == blows + [Blow(target, npc, old(target.HitPoints), target.HitPoints)]
      ensures victim != null <==> target != null && target.HitPoints <= 0
      ensures victim != null ==> && victim == target && killedBy' == killedBy + [(victim, npc)]
                                 && roster' == RemoveFirst<Player>(roster, victim)
      ensures victim == null ==> killedBy' == killedBy && roster' == roster
      ensures killed <==> victim != null
    {
      roster', killedBy', killed, hp', blows', hit, victim, target := roster, killedBy, false, hp, blows, null, null, null;
      // only attempt to hit while some fighter is alive
      if exists p | p in roster :: p.HitPoints > 0 {
        // the Guid shuffle: any living fighter may be chosen
        var playerToHit :| playerToHit in roster && playerToHit.HitPoints > 0;
        target := playerToHit;
        roster', killedBy', hp', blows', hit, victim := MobLands(npc, playerToHit, roster, killedBy, mobs, n, before, hp0, hp, blows);
        killed := victim != null;
      }
    }

    /** The mob `npc`, the `n`-th of `mobs`, hits the living fighter
      `target`; a killing blow takes the target off the roster and is
      credited to `npc`. */
    static method MobLands(npc: NonPlayer, target: Player, roster: seq<Player>, killedBy: seq<(Player, NonPlayer)>,
                           ghost mobs: seq<NonPlayer>, ghost n: nat, ghost before: seq<Player>,
                           ghost hp0: map<Player, int>, ghost hp: map<Player, int>,
                           ghost blows: seq<Blow<Player, NonPlayer>>)
      returns (roster': seq<Player>, killedBy': seq<(Player, NonPlayer)>,
               ghost hp': map<Player, int>, ghost blows': seq<Blow<Player, NonPlayer>>,
               hit: CombatRound, victim: Player?)
      requires n < |mobs| && npc == mobs[n] && target in roster && target.HitPoints > 0
      requires Tally(before, hp0, hp, roster, mobs, killedBy) && PlayersAt(before, hp)
      requires Traced(before, mobs, blows, killedBy) && Paced(roster, hp, |blows|, n)
      modifies target
      ensures Tally(before, hp0, hp', roster', mobs, killedBy') && PlayersAt(before, hp')
      ensures Traced(before, mobs, blows', killedBy') && Paced(roster', hp', |blows'|, n + 1)
      ensures target.Status == old(target.Status) && fresh(hit)
      ensures blows' == blows + [Blow(target, npc, old(target.HitPoints), target.HitPoints)]
      ensures victim != null <==> target.HitPoints <= 0
      ensures victim != null ==> && victim == target && killedBy' == killedBy + [(victim, npc)]
                                 && roster' == RemoveFirst<Player>(roster, victim)
      ensures victim == null ==> killedBy' == killedBy && roster' == roster
    {
      roster', killedBy', victim := roster, killedBy, null;
      ghost var was := target.HitPoints;
      hit := MobHit(npc, target);
      ghost var b := Blow(target, npc, was, target.HitPoints);
      hp', blows' := hp[target := target.HitPoints], blows + [b];
      forall p | p in before ensures p in hp' && p.HitPoints == hp'[p] {
        if p != target { assert p.HitPoints == old(p.HitPoints); }
      }
      Struck(before, hp0, hp, roster, mobs, killedBy, blows, n, b);
      if target.HitPoints <= 0 {
        killedBy' := killedBy + [(target, npc)];
        roster' := RemoveFirst(roster, target);
        victim := target;
      }
    }

    /** The `foreach` over `killedBy` at the end of `DoMobHits`. */
    static method AnnounceMobKills(round: CombatRound, killedBy: seq<(Player, NonPlayer)>)
      modifies round
      ensures round.View() == KillLines(old(round.View()), MobKillLines(killedBy))
    {
      ghost var base := round.View();
      var k := 0;
      while k < |killedBy|
        invariant 0 <= k <= |killedBy|
        invariant round.View() == KillLines(base, MobKillLines(killedBy[..k]))
      {
        var kb := killedBy[k];
        assert killedBy[..k + 1][..k] == killedBy[..k];
        round.AddText(kb.0, DeadLine(kb.0.Forename), KillingBlow);
        k := k + 1;
      }
      assert killedBy[..k] == killedBy;
    }

    /** `DoPlayerHits()`: every fighter strikes one living mob chosen at
      random. A mob brought to 0 hit points or below leaves the mob roster at
      once, dies, and is announced to its killer with a KillingBlow line once
      the phase is over. */
    method DoPlayerHits(ghost bystanders: seq<Player>)
      returns (round: CombatRound, ghost phase: Phase<NonPlayer, Player>,
               ghost hp0: map<NonPlayer, int>, ghost hp: map<NonPlayer, int>)
      modifies this, mobs
      ensures forall p | p in bystanders :: p.HitPoints == old(p.HitPoints) && p.Status == old(p.Status)
      ensures fresh(round)
      ensures round.View() == PlayerPhaseText(phase)
      ensures Tally(old(mobs), hp0, hp, mobs, fighters, phase.kills)
      ensures forall m | m in old(mobs) :: hp0[m] == old(m.HitPoints) && m.Status == old(m.Status)
      ensures MobsAt(old(mobs), hp)
      ensures Traced(old(mobs), fighters, phase.blows, phase.kills)
      ensures mobs == RemoveEach(old(mobs), Fallen(phase.kills)) && Distinct(Fallen(phase.kills))
      ensures forall m | m in Fallen(phase.kills) :: m in old(mobs)
      ensures forall m | m in old(mobs) ::
                && m.HitPoints <= old(m.HitPoints)
                && (m in Fallen(phase.kills) <==> old(m.HitPoints) > 0 && m.HitPoints <= 0)
      ensures fighters == old(fighters) && isAggro == old(isAggro) && room == old(room)
      ensures fightersToIgnore == old(fightersToIgnore) && combatOrder == old(combatOrder)
    {
      round := new CombatRound();
      var roster, killedBy;
      ghost var blows;
      ghost var struck: seq<object> := mobs;
      assert forall p | p in bystanders :: p !in struck;
      roster, killedBy, hp0, hp, blows := PlayersStrike(fighters, mobs, round);
      label Struck:
      mobs := roster;
      phase := Phase(round.View(), killedBy, blows);
      AnnouncePlayerKills(round, killedBy);
      forall m | m in old(mobs) ensures m.HitPoints == old@Struck(m.HitPoints) && m.Status == old@Struck(m.Status) { }
    }

    /** The `foreach` over the fighters in `DoPlayerHits`, on the two
      rosters. The loop leaves once a kill has emptied the mob roster; the
      fighters it skips would have found no one to hit. */
    static method PlayersStrike(fighters: seq<Player>, mobs: seq<NonPlayer>, round: CombatRound)
      returns (mobs': seq<NonPlayer>, killedBy: seq<(NonPlayer, Player)>,
               ghost hp0: map<NonPlayer, int>, ghost hp: map<NonPlayer, int>, ghost blows: seq<Blow<NonPlayer, Player>>)
      modifies mobs, round
      ensures Tally(mobs, hp0, hp, mobs', fighters, killedBy) && MobsAt(mobs, hp)
      ensures Traced(mobs, fighters, blows, killedBy)
      ensures forall m | m in mobs :: hp0[m] == old(m.HitPoints) && m.Status == old(m.Status)
      ensures mobs' == RemoveEach(mobs, Fallen(killedBy)) && Distinct(Fallen(killedBy))
      ensures forall m | m in Fallen(killedBy) :: m in mobs
      ensures forall m | m in mobs ::
                && m.HitPoints <= old(m.HitPoints)
                && (m in Fallen(killedBy) <==> old(m.HitPoints) > 0 && m.HitPoints <= 0)
    {
      mobs', killedBy, blows := mobs, [], [];
      hp0 := map m | m in mobs :: m.HitPoints;
      hp := hp0;
      TallyStarts(mobs, hp0, fighters);
      var n := 0;
      while n < |fighters|
        invariant 0 <= n <= |fighters|
        invariant Tally(mobs, hp0, hp, mobs', fighters, killedBy) && MobsAt(mobs, hp)
        invariant Traced(mobs, fighters, blows, killedBy) && Paced(mobs', hp, |blows|, n)
        invariant forall m | m in mobs :: hp0[m] == old(m.HitPoints) && m.Status == old(m.Status)
      {
        var killed;
        mobs', killedBy, killed, hp, blows := PlayerStrikes(fighters[n], mobs', round, killedBy, fighters, n, mobs, hp0, hp, blows);
        // every mob is dead: stop fighting
        if killed && |mobs'| == 0 {
          break;
        }
        n := n + 1;
      }
    }

    /** One pass of the `foreach` in `DoPlayerHits`: `player`, the `n`-th of
      `fighters`, strikes a living member of the mob roster `roster`, if any
      is left, and `roster'` is the roster afterwards; `killed` tells whether
      the blow was fatal, and then the victim is credited to `player` and
      leaves the roster. */
    static method PlayerStrikes(player: Player, roster: seq<NonPlayer>, round: CombatRound,
                                killedBy: seq<(NonPlayer, Player)>, ghost fighters: seq<Player>, ghost n: nat,
                                ghost before: seq<NonPlayer>, ghost hp0: map<NonPlayer, int>, ghost hp: map<NonPlayer, int>,
                                ghost blows: seq<Blow<NonPlayer, Player>>)
      returns (roster': seq<NonPlayer>, killedBy': seq<(NonPlayer, Player)>, killed: bool,
               ghost hp': map<NonPlayer, int>, ghost blows': seq<Blow<NonPlayer, Player>>)
      requires n < |fighters| && player == fighters[n]
      requires Tally(before, hp0, hp, roster, fighters, killedBy) && MobsAt(before, hp)
      requires Traced(before, fighters, blows, killedBy) && Paced(roster, hp, |blows|, n)
      modifies before, round
      ensures Tally(before, hp0, hp', roster', fighters, killedBy') && MobsAt(before, hp')
      ensures Traced(before, fighters, blows', killedBy') && Paced(roster', hp', |blows'|, n + 1)
      ensures forall m | m in before :: m.Status == old(m.Status)
      ensures killed ==> && |killedBy'| == |killedBy| + 1 && killedBy'[..|killedBy|] == killedBy
                         && killedBy'[|killedBy|].1 == player && roster' == RemoveFirst(roster, killedBy'[|killedBy|].0)
      ensures !killed ==> killedBy' == killedBy && roster' == roster
    {
      var hit, victim;
      ghost var target;
      roster', killedBy', killed, hp', blows', hit, victim, target :=
        PlayerBlow(player, roster, killedBy, fighters, n, before, hp0, hp, blows);
      if killed {
        assert killedBy'[..|killedBy|] == killedBy;
      }
      TellPlayerBlow(round, hit, victim, before);
    }

    /** The narration of a fighter's blow: the hit, then the mob's death,
      added to the phase's round; the mobs `before` are left alone. */
    static method TellPlayerBlow(round: CombatRound, hit: CombatRound?, victim: NonPlayer?, ghost before: seq<NonPlayer>)
      modifies round
      ensures forall m | m in before :: m.HitPoints == old(m.HitPoints) && m.Status == old(m.Status)
    {
      if hit != null {
        var _ := CombatRound.Plus(round, hit);
      }
      if victim != null {
        var death := MobDie(victim);
        var _ := CombatRound.Plus(round, death);
      }
    }

    /** The blow of `PlayerStrikes` apart from its narration. `target` is
      the living mob struck, null when none was left alive; `hit` is what the
      blow narrates, null exactly when nothing was struck; `victim` is the
      target when the blow was fatal, and is then credited to `player` and
      taken off the roster. */
    static method PlayerBlow(player: Player, roster: seq<NonPlayer>, killedBy: seq<(NonPlayer, Player)>,
                             ghost fighters: seq<Player>, ghost n: nat, ghost before: seq<NonPlayer>,
                             ghost hp0: map<NonPlayer, int>, ghost hp: map<NonPlayer, int>,
                             ghost blows: seq<Blow<NonPlayer, Player>>)
      returns (roster': seq<NonPlayer>, killedBy': seq<(NonPlayer, Player)>, killed: bool,
               ghost hp': map<NonPlayer, int>, ghost blows': seq<Blow<NonPlayer, Player>>,
               hit: CombatRound?, victim: NonPlayer?, ghost target: NonPlayer?)
      requires n < |fighters| && player == fighters[n]
      requires Tally(before, hp0, hp, roster, fighters, killedBy) && MobsAt(before, hp)
      requires Traced(before, fighters, blows, killedBy) && Paced(roster, hp, |blows|, n)
      modifies before
      ensures Tally(before, hp0, hp', roster', fighters, killedBy') && MobsAt(before, hp')
      ensures Traced(before, fighters, blows', killedBy') && Paced(roster', hp', |blows'|, n + 1)
      ensures forall m | m in before :: m.Status == old(m.Status)
      ensures forall m | m in before && m != target :: m.HitPoints == old(m.HitPoints)
      ensures target == null <==> forall m | m in roster :: old(m.HitPoints) <= 0
      ensures hit == null <==> target == null
      ensures target == null ==> blows' == blows
      ensures target != null ==> && target in roster && old(target.HitPoints) > 0 && fresh(hit)
                                 && blows' == blows + [Blow(target, player, old(target.HitPoints), target.HitPoints)]
      ensures victim != null <==> target != null && target.HitPoints <= 0
      ensures victim != null ==> && victim == target && killedBy' == killedBy + [(victim, player)]
                                 && roster' == RemoveFirst<NonPlayer>(roster, victim)
      ensures victim == null ==> killedBy' == killedBy && roster' == roster
      ensures killed <==> victim != null
    {
      roster', killedBy', killed, hp', blows', hit, victim, target := roster, killedBy, false, hp, blows, null, null, null;
      if exists m | m in roster :: m.HitPoints > 0 {
        var mobToHit :| mobToHit in roster && mobToHit.HitPoints > 0;
        target := mobToHit;
        roster', killedBy', hp', blows', hit, victim := PlayerLands(player, mobToHit, roster, killedBy, fighters, n, before, hp0, hp, blows);
        killed := victim != null;
      }
    }

    /** The fighter `player`, the `n`-th of `fighters`, hits the living mob
      `target`; a killing blow takes the mob off the roster, so it cannot be
      hit again, and is credited to `player`. */
    static method PlayerLands(player: Player, target: NonPlayer, roster: seq<NonPlayer>, killedBy: seq<(NonPlayer, Player)>,
                              ghost fighters: seq<Player>, ghost n: nat, ghost before: seq<NonPlayer>,
                              ghost hp0: map<NonPlayer, int>, ghost hp: map<NonPlayer, int>,
                              ghost blows: seq<Blow<NonPlayer, Player>>)
      returns (roster': seq<NonPlayer>, killedBy': seq<(NonPlayer, Player)>,
               ghost hp': map<NonPlayer, int>, ghost blows': seq<Blow<NonPlayer, Player>>,
               hit: CombatRound, victim: NonPlayer?)
      requires n < |fighters| && player == fighters[n] && target in roster && target.HitPoints > 0
      requires Tally(before, hp0, hp, roster, fighters, killedBy) && MobsAt(before, hp)
      requires Traced(before, fighters, blows, killedBy) && Paced(roster, hp, |blows|, n)
      modifies target
      ensures Tally(before, hp0, hp', roster', fighters, killedBy') && MobsAt(before, hp')
      ensures Traced(before, fighters, blows', killedBy') && Paced(roster', hp', |blows'|, n + 1)
      ensures target.Status == old(target.Status) && fresh(hit)
      ensures blows' == blows + [Blow(target, player, old(target.HitPoints), target.HitPoints)]
      ensures victim != null <==> target.HitPoints <= 0
      ensures victim != null ==> && victim == target && killedBy' == killedBy + [(victim, player)]
                                 && roster' == RemoveFirst<NonPlayer>(roster, victim)
      ensures victim == null ==> killedBy' == killedBy && roster' == roster
    {
      roster', killedBy', victim := roster, killedBy, null;
      ghost var was := target.HitPoints;
      hit := PlayerHit(player, target);
      ghost var b := Blow(target, player, was, target.HitPoints);
      hp', blows' := hp[target := target.HitPoints], blows + [b];
      forall m | m in before ensures m in hp' && m.HitPoints == hp'[m] {
        if m != target { assert m.HitPoints == old(m.HitPoints); }
      }
      Struck(before, hp0, hp, roster, fighters, killedBy, blows, n, b);
      if target.HitPoints <= 0 {
        killedBy' := killedBy + [(target, player)];
        roster' := RemoveFirst(roster, target);
        victim := target;
      }
    }

    /** The `foreach` over `killedBy` at the end of `DoPlayerHits`. */
    static method AnnouncePlayerKills(round: CombatRound, killedBy: seq<(NonPlayer, Player)>)
      modifies round
      ensures round.View() == KillLines(old(round.View()), PlayerKillLines(killedBy))
    {
      ghost var base := round.View();
      var k := 0;
      while k < |killedBy|
        invariant 0 <= k <= |killedBy|
        invariant round.View() == KillLines(base, PlayerKillLines(killedBy[..k]))
      {
        var kb := killedBy[k];
        assert killedBy[..k + 1][..k] == killedBy[..k];
        round.AddText(kb.1, DeadLine(kb.0.Name), KillingBlow);
        k := k + 1;
      }
      assert killedBy[..k] == killedBy;
    }

    /** The hit phases of `Round`, in the order `isAggro` fixes, merged into
      one fresh ledger: `new CombatRound() + first + second`. */
    method Exchange() returns (roundText: CombatRound, ghost mob: Phase<Player, NonPlayer>,
                               ghost strike: Phase<NonPlayer, Player>)
      modifies this, fighters, mobs
      ensures fresh(roundText)
      ensures roundText.View() == RoundText(old(isAggro), mob, strike)
      ensures fighters == RemoveEach(old(fighters), Fallen(mob.kills)) && Distinct(Fallen(mob.kills))
      ensures mobs == RemoveEach(old(mobs), Fallen(strike.kills)) && Distinct(Fallen(strike.kills))
      ensures forall p | p in Fallen(mob.kills) :: p in old(fighters)
      ensures forall m | m in Fallen(strike.kills) :: m in old(mobs)
      ensures Landed(old(fighters), old(mobs), old(PlayerVitals(fighters)), old(MobVitals(mobs)), mob, strike)
      ensures Exchanged(old(fighters), old(mobs), old(isAggro), mob, strike)
      ensures isAggro == old(isAggro) && room == old(room)
      ensures fightersToIgnore == old(fightersToIgnore) && combatOrder == old(combatOrder)
    {
      var first, second;
      if isAggro {
        first, second, mob, strike := MobsFirst();
      } else {
        first, second, mob, strike := FightersFirst();
      }
      roundText := Combine(first, second);
    }

    /** The hit phases of an aggro fight: the mobs strike at the fighters
      they started with, then the surviving fighters strike. */
    method MobsFirst() returns (first: CombatRound, second: CombatRound, ghost mob: Phase<Player, NonPlayer>,
                                ghost strike: Phase<NonPlayer, Player>)
      modifies this, fighters, mobs
      ensures fresh(first) && fresh(second)
      ensures first.View() == MobPhaseText(mob) && second.View() == PlayerPhaseText(strike)
      ensures fighters == RemoveEach(old(fighters), Fallen(mob.kills)) && Distinct(Fallen(mob.kills))
      ensures mobs == RemoveEach(old(mobs), Fallen(strike.kills)) && Distinct(Fallen(strike.kills))
      ensures forall p | p in Fallen(mob.kills) :: p in old(fighters)
      ensures forall m | m in Fallen(strike.kills) :: m in old(mobs)
      ensures forall p | p in old(fighters) ::
                && p.HitPoints <= old(p.HitPoints) && p.Status == old(p.Status)
                && (p in Fallen(mob.kills) <==> old(p.HitPoints) > 0 && p.HitPoints <= 0)
      ensures forall m | m in old(mobs) ::
                && m.HitPoints <= old(m.HitPoints) && m.Status == old(m.Status)
                && (m in Fallen(strike.kills) <==> old(m.HitPoints) > 0 && m.HitPoints <= 0)
      ensures Traced(old(fighters), old(mobs), mob.blows, mob.kills)
      ensures Traced(old(mobs), fighters, strike.blows, strike.kills)
      ensures isAggro == old(isAggro) && room == old(room)
      ensures fightersToIgnore == old(fightersToIgnore) && combatOrder == old(combatOrder)
    {
      ghost var hp0, hp;
      first, mob, hp0, hp := DoMobHits(mobs);
      second, strike, hp0, hp := DoPlayerHits(old(fighters));
    }

    /** The hit phases of a fight that is not aggro: the fighters strike at
      the mobs they started with, then the surviving mobs strike. */
    method FightersFirst() returns (first: CombatRound, second: CombatRound, ghost mob: Phase<Player, NonPlayer>,
                                    ghost strike: Phase<NonPlayer, Player>)
      modifies this, fighters, mobs
      ensures fresh(first) && fresh(second)
      ensures first.View() == PlayerPhaseText(strike) && second.View() == MobPhaseText(mob)
      ensures fighters == RemoveEach(old(fighters), Fallen(mob.kills)) && Distinct(Fallen(mob.kills))
      ensures mobs == RemoveEach(old(mobs), Fallen(strike.kills)) && Distinct(Fallen(strike.kills))
      ensures forall p | p in Fallen(mob.kills) :: p in old(fighters)
      ensures forall m | m in Fallen(strike.kills) :: m in old(mobs)
      ensures forall p | p in old(fighters) ::
                && p.HitPoints <= old(p.HitPoints) && p.Status == old(p.Status)
                && (p in Fallen(mob.kills) <==> old(p.HitPoints) > 0 && p.HitPoints <= 0)
      ensures forall m | m in old(mobs) ::
                && m.HitPoints <= old(m.HitPoints) && m.Status == old(m.Status)
                && (m in Fallen(strike.kills) <==> old(m.HitPoints) > 0 && m.HitPoints <= 0)
      ensures Traced(old(fighters), mobs, mob.blows, mob.kills)
      ensures Traced(old(mobs), old(fighters), strike.blows, strike.kills)
      ensures isAggro == old(isAggro) && room == old(room)
      ensures fightersToIgnore == old(fightersToIgnore) && combatOrder == old(combatOrder)
    {
      ghost var hp0, hp;
      first, strike, hp0, hp := DoPlayerHits(fighters);
      second, mob, hp0, hp := DoMobHits(old(mobs));
    }

    /** `new CombatRound() + first + second`. Neither phase reads the round
      text, so merging after both phases gives the ledger the source builds
      by merging after each. */
    static method Combine(first: CombatRound, second: CombatRound) returns (r: CombatRound)
      ensures fresh(r)
      ensures r.View() == Merged(Merged(Empty, first.View()), second.View())
    {
      r := new CombatRound();
      var _ := CombatRound.Plus(r, first);
      var _ := CombatRound.Plus(r, second);
    }

    /** `Round()`, less the pause between rounds: the hit phases, then the
      delivery of their merged text. `printed` is what `Print` made of the
      merged ledger for the combat order the round started with. */
    method Round() returns (outcome: RoundOutcome, ghost mob: Phase<Player, NonPlayer>,
                            ghost strike: Phase<NonPlayer, Player>, ghost printed: PrintResult)
      modifies this, fighters, mobs, room
      ensures fighters == RemoveEach(old(fighters), Fallen(mob.kills)) && Distinct(Fallen(mob.kills))
      ensures mobs == RemoveEach(old(mobs), Fallen(strike.kills)) && Distinct(Fallen(strike.kills))
      ensures forall p | p in Fallen(mob.kills) :: p in old(fighters)
      ensures forall m | m in Fallen(strike.kills) :: m in old(mobs)
      ensures Landed(old(fighters), old(mobs), old(PlayerVitals(fighters)), old(MobVitals(mobs)), mob, strike)
      ensures Exchanged(old(fighters), old(mobs), old(isAggro), mob, strike)
      ensures isAggro == old(isAggro) && room == old(room)
      ensures printed == Resolve(RoundText(old(isAggro), mob, strike), old(combatOrder))
      ensures printed.MissingEntry? ==> && outcome == TextMissingFor(printed.key)
                                        && combatOrder == old(combatOrder)
                                        && fightersToIgnore == old(fightersToIgnore)
      ensures printed.Printed? ==> combatOrder == Survivors(old(combatOrder))
      ensures printed.Printed? && room == null ==> && outcome == NoRoom(printed.text)
                                                   && fightersToIgnore == old(fightersToIgnore)
      ensures printed.Printed? && room != null ==> && outcome == Played(printed.text)
                                                   && fightersToIgnore == Survivors(old(fightersToIgnore))
      ensures room != null ==> && room.players == old(room.players) && room.npcs == old(room.npcs)
                               && room.Exits == old(room.Exits) && room.Items == old(room.Items)
      ensures room != null && printed.MissingEntry? ==> room.Outbox == old(room.Outbox)
      ensures room != null && printed.Printed? ==>
                room.Outbox == old(room.Outbox) + Deliveries(Recipients(old(room.players), Some(old(fightersToIgnore))),
                                                             RoundText(old(isAggro), mob, strike).room, null, null)
    {
      var roundText;
      ghost var hit: seq<object> := fighters + mobs;
      assert room == null || room !in hit;
      roundText, mob, strike := Exchange();
      outcome, printed := Deliver(roundText, old(fighters), old(mobs));
    }

    /** The part of `Round` after the hits. `Print` runs on the combat order;
      a missing text makes it throw before anything else happens. Otherwise
      the dead leave the combat order, the printed text goes to its players
      (the outcome carries it), the room text goes to the room's players
      outside `fightersToIgnore`, and the dead leave `fightersToIgnore`. A
      fight that never found its room throws at the send, after the combat
      order was pruned. */
    method Deliver(roundText: CombatRound, ghost fighters0: seq<Player>, ghost mobs0: seq<NonPlayer>)
      returns (outcome: RoundOutcome, ghost printed: PrintResult)
      modifies this, room
      ensures forall p | p in fighters0 :: p.HitPoints == old(p.HitPoints) && p.Status == old(p.Status)
      ensures forall m | m in mobs0 :: m.HitPoints == old(m.HitPoints) && m.Status == old(m.Status)
      ensures printed == Resolve(roundText.View(), old(combatOrder))
      ensures printed.MissingEntry? ==> && outcome == TextMissingFor(printed.key)
                                        && combatOrder == old(combatOrder)
                                        && fightersToIgnore == old(fightersToIgnore)
      ensures printed.Printed? ==> combatOrder == Survivors(old(combatOrder))
      ensures printed.Printed? && room == null ==> && outcome == NoRoom(printed.text)
                                                   && fightersToIgnore == old(fightersToIgnore)
      ensures printed.Printed? && room != null ==> && outcome == Played(printed.text)
                                                   && fightersToIgnore == Survivors(old(fightersToIgnore))
      ensures fighters == old(fighters) && mobs == old(mobs) && isAggro == old(isAggro) && room == old(room)
      ensures room != null ==> && room.players == old(room.players) && room.npcs == old(room.npcs)
                               && room.Exits == old(room.Exits) && room.Items == old(room.Items)
      ensures room != null && printed.MissingEntry? ==> room.Outbox == old(room.Outbox)
      ensures room != null && printed.Printed? ==>
                room.Outbox == old(room.Outbox) + Deliveries(Recipients(old(room.players), Some(old(fightersToIgnore))),
                                                             roundText.roomText, null, null)
    {
      var textToSend := Publish(roundText);
      printed := textToSend;
      if textToSend.MissingEntry? {
        return TextMissingFor(textToSend.key), printed;
      }
      if room == null {
        return NoRoom(textToSend.text), printed;
      }
      room.SendPlayers(roundText.roomText, null, null, Some(fightersToIgnore));
      fightersToIgnore := Survivors(fightersToIgnore);
      outcome := Played(textToSend.text);
    }

    /** `Print(combatOrder)`, then, when it did not throw, the dead leave the
      combat order. */
    method Publish(roundText: CombatRound) returns (printed: PrintResult)
      modifies this
      ensures printed == Resolve(roundText.View(), old(combatOrder))
      ensures printed.MissingEntry? ==> combatOrder == old(combatOrder)
      ensures printed.Printed? ==> combatOrder == Survivors(old(combatOrder))
      ensures fighters == old(fighters) && mobs == old(mobs) && isAggro == old(isAggro) && room == old(room)
      ensures fightersToIgnore == old(fightersToIgnore)
    {
      printed := roundText.Print(combatOrder);
      if printed.Printed? {
        combatOrder := Survivors(combatOrder);
      }
    }

    /** `End()`: every participant still in a roster stands down. */
    method End()
      modifies fighters, mobs
      ensures forall p | p in fighters :: p.Status == Standing && p.HitPoints == old(p.HitPoints)
      ensures forall p | p in fighters :: p.RememberedNames == old(p.RememberedNames)
      ensures forall m | m in mobs :: m.Status == Standing && m.HitPoints == old(m.HitPoints)
      ensures Ended()
    {
      var i := 0;
      while i < |fighters|
        invariant 0 <= i <= |fighters|
        invariant forall p | p in fighters :: p.HitPoints == old(p.HitPoints) && p.RememberedNames == old(p.RememberedNames)
        invariant forall m | m in mobs :: m.HitPoints == old(m.HitPoints) && m.Status == old(m.Status)
        invariant forall j | 0 <= j < i :: fighters[j].Status == Standing
      {
        fighters[i].Status := Standing;
        i := i + 1;
      }
      var k := 0;
      while k < |mobs|
        invariant 0 <= k <= |mobs|
        invariant forall p | p in fighters :: p.HitPoints == old(p.HitPoints) && p.Status == Standing
        invariant forall p | p in fighters :: p.RememberedNames == old(p.RememberedNames)
        invariant forall m | m in mobs :: m.HitPoints == old(m.HitPoints)
        invariant forall j | 0 <= j < k :: mobs[j].Status == Standing
      {
        mobs[k].Status := Standing;
        k := k + 1;
      }
      forall p | p in fighters ensures p.Status == Standing {
        var j :| 0 <= j < |fighters| && fighters[j] == p;
      }
      forall m | m in mobs ensures m.Status == Standing {
        var j :| 0 <= j < |mobs| && mobs[j] == m;
      }
    }
  }
}
