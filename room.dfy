/** `Room`: the occupant lists, item map and exits of one room of the world,
    and the queries the game runs against them. */
module World {
  import opened Actors
  import opened Lists
  import opened Strings

  datatype RoomExit = RoomExit(LeadsTo: string, IsDoor: bool, IsOpen: bool, IsLocked: bool, KeyItemKey: string)

  /** The two members of an item the room's item map stores. */
  datatype PlayerItem = PlayerItem(Key: string, Name: string)

  /** One `player.Send(format, subject, target)` call. */
  datatype Delivery = Delivery(recipient: Player, format: string, subject: Player?, target: Player?)

  /** The exit dictionary, in its enumeration order. */
  type Exits = seq<(string, RoomExit)>

  /** Dictionary keys are unique. */
  ghost predicate NamesUnique(exits: Exits) {
    forall i, j | 0 <= i < j < |exits| :: exits[i].0 != exits[j].0
  }

  /** The position of the first exit that `matches`, if any. */
  function FirstWhere(exits: Exits, matches: ((string, RoomExit)) -> bool): (r: Option<nat>)
    ensures r.Some? ==> r.value < |exits| && matches(exits[r.value])
    ensures r.Some? ==> forall j | 0 <= j < r.value :: !matches(exits[j])
    ensures r.None? <==> forall j | 0 <= j < |exits| :: !matches(exits[j])
  {
    if exits == [] then None
    else if matches(exits[0]) then Some(0)
    else match FirstWhere(exits[1..], matches)
      case None => None
      case Some(k) => Some(k + 1)
  }

  /** The npcs' keywords: `GetKeywords(Description)` followed by `Keywords`. */
  function NpcKeywords(getKeywords: string -> seq<string>, npc: NonPlayer): seq<string> {
    getKeywords(npc.Description) + npc.Keywords
  }

  /** The position of the first npc whose keywords contain every wanted one. */
  function FirstNpcMatch(npcs: seq<NonPlayer>, wanted: seq<string>, getKeywords: string -> seq<string>): (r: Option<nat>)
    ensures r.Some? ==> r.value < |npcs| && AllIn(wanted, NpcKeywords(getKeywords, npcs[r.value]))
    ensures r.Some? ==> forall j | 0 <= j < r.value :: !AllIn(wanted, NpcKeywords(getKeywords, npcs[j]))
    ensures r.None? <==> forall j | 0 <= j < |npcs| :: !AllIn(wanted, NpcKeywords(getKeywords, npcs[j]))
  {
    if npcs == [] then None
    else if AllIn(wanted, NpcKeywords(getKeywords, npcs[0])) then Some(0)
    else match FirstNpcMatch(npcs[1..], wanted, getKeywords)
      case None => None
      case Some(k) => Some(k + 1)
  }

  /** The keywords a player answers to for the looker, as lines 151-159 build
      them: the short description's, then those of the name the looker
      remembers for that player, if any. */
  function PlayerKeywords(getKeywords: string -> seq<string>, p: Player, names: map<string, string>): seq<string> {
    getKeywords(p.ShortDescription) + (if p.Key in names then getKeywords(names[p.Key]) else [])
  }

  /** The loop of LookUpPlayer over `ps`, from remembered names `names`: the
      player found, if any, and the looker's remembered names afterwards. */
  function LookupFrom(ps: seq<Player>, self: Player, wanted: seq<string>, names: map<string, string>,
                      getKeywords: string -> seq<string>): (Option<Player>, map<string, string>)
  {
    if ps == [] then (None, names)
    else if ps[0] == self then LookupFrom(ps[1..], self, wanted, names, getKeywords)
    else
      var p := ps[0];
      var names' := if p.Key in names then names else names[p.Key := p.Forename];
      if AllIn(wanted, PlayerKeywords(getKeywords, p, names)) then (Some(p), names')
      else LookupFrom(ps[1..], self, wanted, names', getKeywords)
  }

  /** No two players share a key (keys are database identities). */
  ghost predicate KeysDistinct(ps: seq<Player>) {
    forall i, j | 0 <= i < j < |ps| :: ps[i].Key != ps[j].Key
  }

  /** The player is a candidate: not the looker, and answers every keyword. */
  predicate Answers(getKeywords: string -> seq<string>, self: Player, wanted: seq<string>,
                    names: map<string, string>, p: Player) {
    p != self && AllIn(wanted, PlayerKeywords(getKeywords, p, names))
  }

  /** LookUpPlayer never returns the looker, returns some room player, and
      never overwrites a name the looker already remembered, adding only the
      Forename of players it examined. */
  lemma {:induction false} LookupSafe(ps: seq<Player>, self: Player, wanted: seq<string>,
                                      names: map<string, string>, getKeywords: string -> seq<string>)
    ensures var (r, names') := LookupFrom(ps, self, wanted, names, getKeywords);
      && (r.Some? ==> r.value in ps && r.value != self)
      && (forall k | k in names :: k in names' && names'[k] == names[k])
      && (forall k | k in names' && k !in names :: exists p | p in ps :: p.Key == k && names'[k] == p.Forename)
  {
    if ps != [] {
      var p := ps[0];
      var names' := if p.Key in names then names else names[p.Key := p.Forename];
      if p == self {
        LookupSafe(ps[1..], self, wanted, names, getKeywords);
      } else if !AllIn(wanted, PlayerKeywords(getKeywords, p, names)) {
        LookupSafe(ps[1..], self, wanted, names', getKeywords);
      }
    }
  }

  /** The names a looker remembers after examining the players `qs` in
      order, starting from `names`: each player other than the looker whose
      key is not yet known is remembered by its Forename. */
  function Remember(names: map<string, string>, qs: seq<Player>, self: Player): map<string, string>
    decreases qs
  {
    if qs == [] then names
    else
      var q := qs[0];
      Remember(if q == self || q.Key in names then names else names[q.Key := q.Forename], qs[1..], self)
  }

  /** LookUpPlayer's remembered names are those of the players it examined:
      the whole room when nothing is found, and up to the player it returns
      otherwise. */
  lemma {:induction false} LookupRemembers(ps: seq<Player>, self: Player, wanted: seq<string>,
                                           names: map<string, string>, getKeywords: string -> seq<string>)
    decreases ps
    ensures var (r, names') := LookupFrom(ps, self, wanted, names, getKeywords);
      exists m | 0 <= m <= |ps| ::
        && names' == Remember(names, ps[..m], self)
        && (r.None? ==> m == |ps|)
        && (r.Some? ==> 0 < m && ps[m - 1] == r.value)
  {
    var (r, names') := LookupFrom(ps, self, wanted, names, getKeywords);
    if ps == [] {
      assert names' == Remember(names, ps[..0], self);
    } else {
      var p := ps[0];
      var next := if p == self || p.Key in names then names else names[p.Key := p.Forename];
      if p != self && AllIn(wanted, PlayerKeywords(getKeywords, p, names)) {
        assert ps[..1][1..] == [];
        assert names' == Remember(names, ps[..1], self);
      } else {
        LookupRemembers(ps[1..], self, wanted, next, getKeywords);
        var m :| && 0 <= m <= |ps[1..]|
                 && names' == Remember(next, ps[1..][..m], self)
                 && (r.None? ==> m == |ps[1..]|)
                 && (r.Some? ==> 0 < m && ps[1..][m - 1] == r.value);
        assert ps[..m + 1][1..] == ps[1..][..m];
        assert names' == Remember(names, ps[..m + 1], self);
      }
    }
  }

  /** `qs[i]` is the first player of `qs` other than the looker with key `k`. */
  predicate FirstKeyed(qs: seq<Player>, self: Player, k: string, i: nat) {
    && i < |qs| && qs[i] != self && qs[i].Key == k
    && forall j | 0 <= j < i :: qs[j] == self || qs[j].Key != k
  }

  /** Examining players never changes a name the looker already knew. */
  lemma {:induction false} RememberKeeps(names: map<string, string>, qs: seq<Player>, self: Player)
    decreases qs
    ensures forall k | k in names :: k in Remember(names, qs, self) && Remember(names, qs, self)[k] == names[k]
  {
    if qs != [] {
      var q := qs[0];
      RememberKeeps(if q == self || q.Key in names then names else names[q.Key := q.Forename], qs[1..], self);
    }
  }

  /** After examining `qs`, the looker knows a name for every player of `qs`
      other than itself. */
  lemma {:induction false} RememberCovers(names: map<string, string>, qs: seq<Player>, self: Player)
    decreases qs
    ensures forall i | 0 <= i < |qs| && qs[i] != self :: qs[i].Key in Remember(names, qs, self)
  {
    if qs != [] {
      var q := qs[0];
      var next := if q == self || q.Key in names then names else names[q.Key := q.Forename];
      RememberCovers(next, qs[1..], self);
      RememberKeeps(next, qs[1..], self);
      forall i | 0 <= i < |qs| && qs[i] != self ensures qs[i].Key in Remember(names, qs, self) {
        if i > 0 {
          assert qs[i] == qs[1..][i - 1];
        }
      }
    }
  }

  /** A name the looker learns from examining `qs` is the Forename of the
      first player other than itself examined with that key, and it learns
      names of examined players only. */
  lemma {:induction false} RememberLearns(names: map<string, string>, qs: seq<Player>, self: Player)
    decreases qs
    ensures var out := Remember(names, qs, self);
      forall k | k in out && k !in names :: exists i: nat :: FirstKeyed(qs, self, k, i) && out[k] == qs[i].Forename
  {
    if qs != [] {
      var q := qs[0];
      var next := if q == self || q.Key in names then names else names[q.Key := q.Forename];
      var out := Remember(names, qs, self);
      assert out == Remember(next, qs[1..], self);
      RememberLearns(next, qs[1..], self);
      RememberKeeps(next, qs[1..], self);
      forall k | k in out && k !in names ensures exists i: nat :: FirstKeyed(qs, self, k, i) && out[k] == qs[i].Forename {
        if k in next {
          assert FirstKeyed(qs, self, k, 0);
        } else {
          var i: nat :| FirstKeyed(qs[1..], self, k, i) && out[k] == qs[1..][i].Forename;
          FirstKeyedShift(qs, self, k, i);
        }
      }
    }
  }

  lemma FirstKeyedShift(qs: seq<Player>, self: Player, k: string, i: nat)
    requires |qs| > 0 && (qs[0] == self || qs[0].Key != k) && FirstKeyed(qs[1..], self, k, i)
    ensures FirstKeyed(qs, self, k, i + 1) && qs[i + 1] == qs[1..][i]
  {
    forall j | 0 <= j < i + 1 ensures qs[j] == self || qs[j].Key != k {
      if j > 0 {
        assert qs[j] == qs[1..][j - 1];
      }
    }
  }

  /** With distinct keys, LookUpPlayer finds exactly the first player other
      than the looker whose keywords (under the names remembered when the
      lookup starts) contain every lookup keyword, and finds nothing exactly
      when there is no such player. */
  lemma {:induction false} LookupFindsFirst(ps: seq<Player>, self: Player, wanted: seq<string>,
                                            names: map<string, string>, getKeywords: string -> seq<string>)
    requires KeysDistinct(ps)
    ensures var r := LookupFrom(ps, self, wanted, names, getKeywords).0;
      && (r.None? <==> forall q | q in ps :: !Answers(getKeywords, self, wanted, names, q))
      && (r.Some? ==> exists i | 0 <= i < |ps| ::
            && ps[i] == r.value
            && Answers(getKeywords, self, wanted, names, ps[i])
            && forall j | 0 <= j < i :: !Answers(getKeywords, self, wanted, names, ps[j]))
  {
    if ps != [] {
      var p := ps[0];
      var names' := if p.Key in names then names else names[p.Key := p.Forename];
      assert KeysDistinct(ps[1..]) by {
        forall i, j | 0 <= i < j < |ps[1..]| ensures ps[1..][i].Key != ps[1..][j].Key {
          assert ps[i + 1].Key != ps[j + 1].Key;
        }
      }
      forall q | q in ps[1..]
        ensures Answers(getKeywords, self, wanted, names', q) == Answers(getKeywords, self, wanted, names, q)
      {
        var k :| 0 <= k < |ps[1..]| && ps[1..][k] == q;
        assert ps[0].Key != ps[k + 1].Key;
      }
      var rest := if p == self then names else names';
      LookupFindsFirst(ps[1..], self, wanted, rest, getKeywords);
      var r := LookupFrom(ps, self, wanted, names, getKeywords).0;
      if !Answers(getKeywords, self, wanted, names, p) {
        assert r == LookupFrom(ps[1..], self, wanted, rest, getKeywords).0;
        if r.Some? {
          var i :| 0 <= i < |ps[1..]| && ps[1..][i] == r.value
                   && Answers(getKeywords, self, wanted, rest, ps[1..][i])
                   && forall j | 0 <= j < i :: !Answers(getKeywords, self, wanted, rest, ps[1..][j]);
          forall j | 0 <= j < i + 1 ensures !Answers(getKeywords, self, wanted, names, ps[j]) {
            if j > 0 {
              assert ps[j] == ps[1..][j - 1];
            }
          }
          assert ps[i + 1] == r.value && Answers(getKeywords, self, wanted, names, ps[i + 1]);
        } else {
          forall q | q in ps ensures !Answers(getKeywords, self, wanted, names, q) {
            if q != p {
              assert q in ps[1..];
            }
          }
        }
      } else {
        assert ps[0] == r.value;
      }
    }
  }

  /** `ignore != null && ignore.Contains(player)`. */
  predicate Ignored(ignore: Option<seq<Player>>, p: Player) {
    ignore.Some? && p in ignore.value
  }

  /** The players SendPlayers delivers to, in list order. */
  function Recipients(players: seq<Player>, ignore: Option<seq<Player>>): seq<Player> {
    if players == [] then []
    else
      var last := players[|players| - 1];
      Recipients(players[..|players| - 1], ignore) + (if Ignored(ignore, last) then [] else [last])
  }

  /** The Send calls made for `recipients`, in order. */
  function Deliveries(recipients: seq<Player>, format: string, subject: Player?, target: Player?): seq<Delivery> {
    if recipients == [] then []
    else Deliveries(recipients[..|recipients| - 1], format, subject, target)
         + [Delivery(recipients[|recipients| - 1], format, subject, target)]
  }

  /** Every player of `ps[..k + 1]` past the first `k` adds at most one Send. */
  lemma SentOneMore(ps: seq<Player>, k: nat, ignore: Option<seq<Player>>, format: string, subject: Player?, target: Player?)
    requires k < |ps|
    ensures Deliveries(Recipients(ps[..k + 1], ignore), format, subject, target) ==
      Deliveries(Recipients(ps[..k], ignore), format, subject, target) +
      (if Ignored(ignore, ps[k]) then [] else [Delivery(ps[k], format, subject, target)])
  {
    assert ps[..k + 1][..k] == ps[..k];
    var sent := Recipients(ps[..k], ignore);
    if Ignored(ignore, ps[k]) {
      assert sent + [] == sent;
    } else {
      assert (sent + [ps[k]])[..|sent|] == sent;
    }
  }

  /** The deliveries name the recipients one by one. */
  lemma {:induction false} DeliveriesOneEach(rs: seq<Player>, format: string, subject: Player?, target: Player?)
    ensures |Deliveries(rs, format, subject, target)| == |rs|
    ensures forall i | 0 <= i < |rs| :: Deliveries(rs, format, subject, target)[i] == Delivery(rs[i], format, subject, target)
  {
    if rs != [] {
      DeliveriesOneEach(rs[..|rs| - 1], format, subject, target);
    }
  }

  /** SendPlayers reaches exactly the room players not in `ignore`, every
      player when `ignore` is null, and nobody twice when the room holds no
      duplicates. */
  lemma {:induction false} RecipientsFiltered(players: seq<Player>, ignore: Option<seq<Player>>)
    ensures forall q | q in Recipients(players, ignore) :: q in players && !Ignored(ignore, q)
    ensures forall q | q in players && !Ignored(ignore, q) :: q in Recipients(players, ignore)
    ensures ignore.None? ==> Recipients(players, ignore) == players
    ensures Distinct(players) ==> Distinct(Recipients(players, ignore))
  {
    if players != [] {
      var n := |players| - 1;
      var init := players[..n];
      var last := players[n];
      RecipientsFiltered(init, ignore);
      assert players == init + [last];
      if Distinct(players) {
        DistinctInit(players);
        if !Ignored(ignore, last) {
          DistinctSnoc(Recipients(init, ignore), last);
        }
      }
    }
  }

  class Room {
    const Key: string
    var players: seq<Player>
    var npcs: seq<NonPlayer>
    var Exits: Exits
    var Items: map<string, string>
    /** Every `Send` made on behalf of this room, oldest first. */
    var Outbox: seq<Delivery>

    constructor (key: string, exits: Exits)
      ensures Key == key && Exits == exits
      ensures players == [] && npcs == [] && Items == map[] && Outbox == []
    {
      Key, Exits := key, exits;
      players, npcs, Items, Outbox := [], [], map[], [];
    }

    method AddPlayer(player: Player)
      modifies this
      ensures players == Admit(old(players), player)
      ensures npcs == old(npcs) && Exits == old(Exits) && Items == old(Items) && Outbox == old(Outbox)
    {
      if player !in players {
        players := players + [player];
      }
    }

    method RemovePlayer(player: Player)
      modifies this
      ensures players == RemoveFirst(old(players), player)
      ensures npcs == old(npcs) && Exits == old(Exits) && Items == old(Items) && Outbox == old(Outbox)
    {
      players := RemoveFirst(players, player);
    }

    method AddNpc(npc: NonPlayer)
      modifies this
      ensures npcs == Admit(old(npcs), npc)
      ensures players == old(players) && Exits == old(Exits) && Items == old(Items) && Outbox == old(Outbox)
    {
      if npc !in npcs {
        npcs := npcs + [npc];
      }
    }

    method RemoveNpc(npc: NonPlayer)
      modifies this
      ensures npcs == RemoveFirst(old(npcs), npc)
      ensures players == old(players) && Exits == old(Exits) && Items == old(Items) && Outbox == old(Outbox)
    {
      npcs := RemoveFirst(npcs, npc);
    }

    /** `Items[item.Key] = item.Name`: adds or overwrites that one key. */
    method AddItem(item: PlayerItem)
      modifies this
      ensures Items == old(Items)[item.Key := item.Name]
      ensures players == old(players) && npcs == old(npcs) && Exits == old(Exits) && Outbox == old(Outbox)
    {
      Items := Items[item.Key := item.Name];
    }

    /** `Items.Remove(item.Key)`: deletes that one key, if present. */
    method RemoveItem(item: PlayerItem)
      modifies this
      ensures Items == old(Items) - {item.Key}
      ensures players == old(players) && npcs == old(npcs) && Exits == old(Exits) && Outbox == old(Outbox)
    {
      Items := Items - {item.Key};
    }

    /** `Exits.ContainsKey(exitName)`. */
    predicate HasExit(exitName: string)
      reads this
      ensures HasExit(exitName) <==> exists i | 0 <= i < |Exits| :: Exits[i].0 == exitName
    {
      FirstWhere(Exits, (e: (string, RoomExit)) => e.0 == exitName).Some?
    }

    /** `Exits[exitName]`: the indexer throws on a missing key, so the name
        must be one of the exits. */
    function GetExit(exitName: string): (r: RoomExit)
      requires HasExit(exitName)
      reads this
      ensures exists i | 0 <= i < |Exits| :: Exits[i] == (exitName, r)
      ensures NamesUnique(Exits) ==> forall i | 0 <= i < |Exits| && Exits[i].0 == exitName :: Exits[i].1 == r
    {
      Exits[FirstWhere(Exits, (e: (string, RoomExit)) => e.0 == exitName).value].1
    }

    /** The first exit, in enumeration order, whose name starts with
        `exitSearch`; None (the source's null) when no name does. */
    function FindExitByPartialName(exitSearch: string): (r: Option<RoomExit>)
      reads this
      ensures r.None? <==> forall i | 0 <= i < |Exits| :: !StartsWith(Exits[i].0, exitSearch)
      ensures r.Some? ==> exists i | 0 <= i < |Exits| ::
        && Exits[i].1 == r.value
        && StartsWith(Exits[i].0, exitSearch)
        && forall j | 0 <= j < i :: !StartsWith(Exits[j].0, exitSearch)
    {
      match FirstWhere(Exits, (e: (string, RoomExit)) => StartsWith(e.0, exitSearch))
      case None => None
      case Some(i) => Some(Exits[i].1)
    }

    /** The first exit, in enumeration order, leading to `roomKey`; None
        when no exit does. */
    function FindExitByLinkedRoom(roomKey: string): (r: Option<RoomExit>)
      reads this
      ensures r.None? <==> forall i | 0 <= i < |Exits| :: Exits[i].1.LeadsTo != roomKey
      ensures r.Some? ==> r.value.LeadsTo == roomKey && r.value in (set i | 0 <= i < |Exits| :: Exits[i].1)
      ensures r.Some? ==> exists i | 0 <= i < |Exits| ::
        && Exits[i].1 == r.value
        && forall j | 0 <= j < i :: Exits[j].1.LeadsTo != roomKey
    {
      match FirstWhere(Exits, (e: (string, RoomExit)) => e.1.LeadsTo == roomKey)
      case None => None
      case Some(i) => Some(Exits[i].1)
    }

    /** One delivery per room player not in `ignore`, in list order; a null
        `ignore` (None) delivers to every player. */
    method SendPlayers(format: string, subject: Player?, target: Player?, ignore: Option<seq<Player>>)
      modifies this
      ensures Outbox == old(Outbox) + Deliveries(Recipients(old(players), ignore), format, subject, target)
      ensures players == old(players) && npcs == old(npcs) && Exits == old(Exits) && Items == old(Items)
    {
      var sent := Sends(players, ignore, format, subject, target);
      Outbox := Outbox + sent;
    }

    /** The `foreach` of `SendPlayers`: the Send calls for `ps`, in order. */
    static method Sends(ps: seq<Player>, ignore: Option<seq<Player>>, format: string, subject: Player?, target: Player?)
      returns (sent: seq<Delivery>)
      ensures sent == Deliveries(Recipients(ps, ignore), format, subject, target)
    {
      sent := [];
      var k := 0;
      while k < |ps|
        invariant 0 <= k <= |ps|
        invariant sent == Deliveries(Recipients(ps[..k], ignore), format, subject, target)
      {
        var player := ps[k];
        SentOneMore(ps, k, ignore, format, subject, target);
        if !Ignored(ignore, player) {
          sent := sent + [Delivery(player, format, subject, target)];
        }
        k := k + 1;
      }
      assert ps[..k] == ps;
    }

    /** `LookUpPlayer(doLookupFor, keywords)`: scans the room's players,
        teaching the looker the Forename of every player it examines that it
        has no name for. */
    method LookUpPlayer(doLookupFor: Player, keywords: string, getKeywords: string -> seq<string>) returns (r: Option<Player>)
      modifies doLookupFor
      ensures (r, doLookupFor.RememberedNames) ==
              LookupFrom(players, doLookupFor, getKeywords(keywords), old(doLookupFor.RememberedNames), getKeywords)
      ensures doLookupFor.HitPoints == old(doLookupFor.HitPoints) && doLookupFor.Status == old(doLookupFor.Status)
    {
      var lookUpKeywords := getKeywords(keywords);
      ghost var goal := LookupFrom(players, doLookupFor, lookUpKeywords, doLookupFor.RememberedNames, getKeywords);
      var k := 0;
      while k < |players|
        invariant 0 <= k <= |players|
        invariant LookupFrom(players[k..], doLookupFor, lookUpKeywords, doLookupFor.RememberedNames, getKeywords) == goal
        invariant doLookupFor.HitPoints == old(doLookupFor.HitPoints) && doLookupFor.Status == old(doLookupFor.Status)
      {
        var player := players[k];
        assert players[k..][0] == player && players[k..][1..] == players[k + 1..];
        if player != doLookupFor {
          var possiblePlayerKeywords := getKeywords(player.ShortDescription);
          if player.Key in doLookupFor.RememberedNames {
            var rememberedName := doLookupFor.RememberedNames[player.Key];
            possiblePlayerKeywords := possiblePlayerKeywords + getKeywords(rememberedName);
          } else {
            doLookupFor.RememberedNames := doLookupFor.RememberedNames[player.Key := player.Forename];
          }
          var successful := ContainsAll(lookUpKeywords, possiblePlayerKeywords);
          if successful {
            return Some(player);
          }
        }
        k := k + 1;
      }
      r := None;
    }

    /** `LookUpNpc(keywords)`: the first npc whose keywords contain every
        lookup keyword; None when no npc matches. */
    function LookUpNpc(keywords: string, getKeywords: string -> seq<string>): (r: Option<NonPlayer>)
      reads this
      ensures var wanted := getKeywords(keywords);
        && (r.None? <==> forall n | n in npcs :: !AllIn(wanted, NpcKeywords(getKeywords, n)))
        && (r.Some? ==> exists i | 0 <= i < |npcs| ::
              && npcs[i] == r.value
              && AllIn(wanted, NpcKeywords(getKeywords, npcs[i]))
              && forall j | 0 <= j < i :: !AllIn(wanted, NpcKeywords(getKeywords, npcs[j])))
    {
      match FirstNpcMatch(npcs, getKeywords(keywords), getKeywords)
      case None => None
      case Some(i) => Some(npcs[i])
    }
  }

  /** The inner `foreach` of the lookups: every wanted keyword is among the
      possible ones; stops at the first one missing. */
  method ContainsAll(wanted: seq<string>, possible: seq<string>) returns (successful: bool)
    ensures successful <==> AllIn(wanted, possible)
  {
    successful := true;
    var k := 0;
    while k < |wanted|
      invariant 0 <= k <= |wanted|
      invariant forall j | 0 <= j < k :: wanted[j] in possible
    {
      if wanted[k] !in possible {
        successful := false;
        return;
      }
      k := k + 1;
    }
  }

  /** Adding an occupant twice is adding once, and never creates a duplicate. */
  lemma AddOccupantIdempotent<T>(s: seq<T>, x: T)
    requires Distinct(s)
    ensures Admit(Admit(s, x), x) == Admit(s, x)
    ensures Distinct(Admit(s, x))
  {
    AdmitIdempotent(s, x);
    AdmitKeepsDistinct(s, x);
  }

  /** On a duplicate-free list, removing an occupant leaves it absent, keeps
      the others in their relative order, and keeps the list duplicate-free. */
  lemma RemoveOccupant<T>(s: seq<T>, x: T)
    requires Distinct(s)
    ensures x !in RemoveFirst(s, x)
    ensures RemoveFirst(s, x) == Without(s, x)
    ensures Distinct(RemoveFirst(s, x))
  {
    RemoveFirstOfDistinct(s, x);
    RemoveFirstKeepsDistinct(s, x);
  }
}
