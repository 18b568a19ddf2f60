/** `CombatRound`: the text ledger of one combat round. Three per-player
    buckets (the player's own text, the text the player's group sees, the
    killing-blow text) and one room text. `Ledger` is its value; the class
    holds the four fields the source mutates in place. */
module CombatRounds {
  import opened Actors
  import opened Strings
  import opened Lists

  /** `CombatTextType`: Player, Group, KillingBlow, Room. */
  datatype CombatTextType = ToPlayer | ToGroup | KillingBlow | ToRoom

  type Texts = map<Player, string>

  datatype Ledger = Ledger(player: Texts, group: Texts, killingBlow: Texts, room: string)

  /** A fresh `CombatRound`; its C# null room text is modelled as "". */
  const Empty := Ledger(map[], map[], map[], "")

  /** The text of `p` in `m`, "" when `p` has none. */
  function TextOf(m: Texts, p: Player): string {
    if p in m then m[p] else ""
  }

  /** `if (m.ContainsKey(p)) m[p] += t; else m[p] = t;` */
  function Append(m: Texts, p: Player, t: string): Texts {
    m[p := TextOf(m, p) + t]
  }

  /** The per-player bucket a text type selects (not meaningful for ToRoom). */
  function Bucket(l: Ledger, kind: CombatTextType): Texts {
    match kind
    case ToPlayer => l.player
    case ToGroup => l.group
    case KillingBlow => l.killingBlow
    case ToRoom => map[]
  }

  /** The text stored for `p` under `kind`; the room text ignores `p`. */
  function TextAt(l: Ledger, kind: CombatTextType, p: Player): string {
    if kind == ToRoom then l.room else TextOf(Bucket(l, kind), p)
  }

  /** Text is only ever appended: no key disappears and no text is replaced. */
  ghost predicate Extends(l: Ledger, l': Ledger) {
    && (forall p | p in l.player :: p in l'.player && l.player[p] <= l'.player[p])
    && (forall p | p in l.group :: p in l'.group && l.group[p] <= l'.group[p])
    && (forall p | p in l.killingBlow :: p in l'.killingBlow && l.killingBlow[p] <= l'.killingBlow[p])
    && l.room <= l'.room
  }

  /** The ledger after `AddText(p, t, kind)`. */
  function Appended(l: Ledger, p: Player, t: string, kind: CombatTextType): Ledger {
    match kind
    case ToPlayer => l.(player := Append(l.player, p, t))
    case ToGroup => l.(group := Append(l.group, p, t))
    case KillingBlow => l.(killingBlow := Append(l.killingBlow, p, t))
    case ToRoom => l.(room := l.room + t)
  }

  /** AddText only appends, and only to the bucket `kind` names. */
  lemma AppendedOnlyAppends(l: Ledger, p: Player, t: string, kind: CombatTextType)
    ensures var r := Appended(l, p, t, kind);
      && Extends(l, r)
      && (kind != ToPlayer ==> r.player == l.player)
      && (kind != ToGroup ==> r.group == l.group)
      && (kind != KillingBlow ==> r.killingBlow == l.killingBlow)
      && (kind != ToRoom ==> r.room == l.room)
  {
    match kind
    case ToPlayer => AppendKeeps(l.player, p, t);
    case ToGroup => AppendKeeps(l.group, p, t);
    case KillingBlow => AppendKeeps(l.killingBlow, p, t);
    case ToRoom =>
  }

  /** AddText puts `t` at the end of `p`'s text in the bucket `kind` names,
      creating the entry when absent; no other player's entry changes. */
  lemma AppendedTarget(l: Ledger, p: Player, t: string, kind: CombatTextType)
    ensures var r := Appended(l, p, t, kind);
      && TextAt(r, kind, p) == TextAt(l, kind, p) + t
      && (kind != ToRoom ==> Bucket(r, kind).Keys == Bucket(l, kind).Keys + {p})
      && (kind != ToRoom ==> forall q | q in Bucket(l, kind) && q != p :: Bucket(r, kind)[q] == Bucket(l, kind)[q])
  {
  }

  lemma AppendKeeps(m: Texts, p: Player, t: string)
    ensures forall q | q in m :: q in Append(m, p, t) && m[q] <= Append(m, p, t)[q]
  {
    if p in m {
      assert m[p] <= m[p] + t;
    }
  }

  /** What `m` adds for `p` in a merge: blank values add nothing. */
  function Kept(m: Texts, p: Player): string {
    if p in m && !IsBlank(m[p]) then m[p] else ""
  }

  /** One bucket of `r1 + r2`. */
  function MergeTexts(m1: Texts, m2: Texts): (r: Texts)
  {
    map p | p in m1.Keys + m2.Keys && (p in m1 || !IsBlank(m2[p])) :: TextOf(m1, p) + Kept(m2, p)
  }

  /** `r1 + r2`: bucket by bucket, each non-blank text of `r2` is appended to
      `r1`'s text for the same key; blank texts are skipped. */
  function Merged(a: Ledger, b: Ledger): Ledger {
    Ledger(MergeTexts(a.player, b.player), MergeTexts(a.group, b.group),
           MergeTexts(a.killingBlow, b.killingBlow),
           if IsBlank(b.room) then a.room else a.room + b.room)
  }

  /** `r1 + r2` only appends to `r1`: no key of `r1` is lost and no text of
      `r1` is replaced. */
  lemma MergedExtends(a: Ledger, b: Ledger)
    ensures Extends(a, Merged(a, b))
  {
  }

  /** Merging an empty ledger changes nothing. */
  lemma MergeEmptyRight(l: Ledger)
    ensures Merged(l, Empty) == l
  {
    MergeTextsEmpty(l.player);
    MergeTextsEmpty(l.group);
    MergeTextsEmpty(l.killingBlow);
  }

  /** `Round` builds `new CombatRound() + first + second`: every key's text is
      the non-blank text of `first` followed by the non-blank text of
      `second`, so `first`'s narration always comes first. */
  lemma {:induction false} MergedInOrder(first: Ledger, second: Ledger, kind: CombatTextType, p: Player)
    requires kind != ToRoom
    ensures var r := Merged(Merged(Empty, first), second);
            && (p in Bucket(r, kind) <==> Kept(Bucket(first, kind), p) != "" || Kept(Bucket(second, kind), p) != "")
            && TextAt(r, kind, p) == Kept(Bucket(first, kind), p) + Kept(Bucket(second, kind), p)
            && r.room == KeptRoom(first) + KeptRoom(second)
  {
    MergedBucket(first, second, kind);
    MergeTextsTwice(Bucket(first, kind), Bucket(second, kind), p);
    MergedRoom(first, second);
  }

  lemma MergedBucket(first: Ledger, second: Ledger, kind: CombatTextType)
    requires kind != ToRoom
    ensures Bucket(Merged(Merged(Empty, first), second), kind) ==
            MergeTexts(MergeTexts(map[], Bucket(first, kind)), Bucket(second, kind))
  {
  }

  lemma MergedRoom(first: Ledger, second: Ledger)
    ensures Merged(Merged(Empty, first), second).room == KeptRoom(first) + KeptRoom(second)
  {
    assert "" + first.room == first.room;
  }

  lemma MergeTextsTwice(a: Texts, b: Texts, p: Player)
    ensures var r := MergeTexts(MergeTexts(map[], a), b);
            && (p in r <==> Kept(a, p) != "" || Kept(b, p) != "")
            && TextOf(r, p) == Kept(a, p) + Kept(b, p)
  {
    var m := MergeTexts(map[], a);
    BlankIsNotEmpty(a, p);
    BlankIsNotEmpty(b, p);
    assert TextOf(m, p) == Kept(a, p) by {
      if p in m { assert m[p] == "" + Kept(a, p); }
    }
  }

  lemma MergeTextsEmpty(m1: Texts)
    ensures MergeTexts(m1, map[]) == m1
  {
    var r := MergeTexts(m1, map[]);
    forall p | p in m1 ensures r[p] == m1[p] {
      assert r[p] == m1[p] + "";
    }
    assert r.Keys == m1.Keys;
  }

  /** Merging one more entry of `m2` appends it, unless it is blank. */
  lemma MergeTextsStep(m1: Texts, d: Texts, p: Player, v: string)
    requires p !in d
    ensures MergeTexts(m1, d[p := v]) ==
      if IsBlank(v) then MergeTexts(m1, d) else Append(MergeTexts(m1, d), p, v)
  {
    var a := MergeTexts(m1, d[p := v]);
    var c := if IsBlank(v) then MergeTexts(m1, d) else Append(MergeTexts(m1, d), p, v);
    forall q ensures (q in a <==> q in c) && (q in a ==> a[q] == c[q]) {
      MergeTextsStepAt(m1, d, p, v, q);
    }
    assert a.Keys == c.Keys;
  }

  lemma MergeTextsStepAt(m1: Texts, d: Texts, p: Player, v: string, q: Player)
    requires p !in d
    ensures var a := MergeTexts(m1, d[p := v]);
            var c := if IsBlank(v) then MergeTexts(m1, d) else Append(MergeTexts(m1, d), p, v);
            (q in a <==> q in c) && (q in a ==> a[q] == c[q])
  {
    MergeTextsAt(m1, d[p := v], q);
    MergeTextsAt(m1, d, q);
    if q == p {
      assert Kept(d, p) == "";
      assert Kept(d[p := v], p) == if IsBlank(v) then "" else v;
    } else {
      assert Kept(d[p := v], q) == Kept(d, q);
    }
  }

  /** One key of a merged bucket. */
  lemma MergeTextsAt(m1: Texts, m2: Texts, q: Player)
    ensures q in MergeTexts(m1, m2) <==> q in m1 || Kept(m2, q) != ""
    ensures q in MergeTexts(m1, m2) ==> MergeTexts(m1, m2)[q] == TextOf(m1, q) + Kept(m2, q)
  {
  }

  /** The room text one ledger adds to a merge. */
  function KeptRoom(l: Ledger): string {
    if IsBlank(l.room) then "" else l.room
  }

  lemma BlankIsNotEmpty(m: Texts, p: Player)
    ensures Kept(m, p) == "" <==> p !in m || IsBlank(m[p])
  {
  }

  // ---------------------------------------------------------------------
  // Print(combatOrder): the per-player output of a ledger.

  /** The outcome of `Print`: the per-player text, or the player whose entry
      was read by `result[x] += ...` before it existed (a
      KeyNotFoundException in the source). */
  datatype PrintResult = Printed(text: Texts) | MissingEntry(key: Player)

  const DeadMark := "is DEAD!!!"

  /** The killing-blow line the hit phases emit for a victim named `name`. */
  function DeadLine(name: string): string {
    name + " is DEAD!!!\n"
  }

  /** The subject of the "You killed" line: the kill text with every
      "is DEAD!!!" removed, trimmed. */
  function KillSubject(kill: string): string {
    Trim(DeleteAll(kill, DeadMark))
  }

  function KillLine(kill: string): string {
    "You killed " + KillSubject(kill) + "!!!"
  }

  /** `result[q] += t`: fails when `q` has no entry yet. */
  function Extend(m: Texts, q: Player, t: string): PrintResult {
    if q in m then Printed(m[q := m[q] + t]) else MissingEntry(q)
  }

  /** Lines 110-120 for one other player `q`: `p`'s group text, then `p`'s
      killing-blow text. */
  function NotifyOther(l: Ledger, p: Player, q: Player, m: Texts): PrintResult {
    var m1 := if p in l.group then Append(m, q, l.group[p]) else m;
    if p in l.killingBlow then Extend(m1, q, l.killingBlow[p]) else Printed(m1)
  }

  /** Lines 107-121 over `order[..j]`: every entry whose Forename differs
      from `p`'s is notified. */
  function NotifyOthers(l: Ledger, p: Player, order: seq<Player>, j: nat, m: Texts): PrintResult
    requires j <= |order|
  {
    if j == 0 then Printed(m)
    else match NotifyOthers(l, p, order, j - 1, m)
      case MissingEntry(q) => MissingEntry(q)
      case Printed(m1) =>
        if order[j - 1].Forename != p.Forename then NotifyOther(l, p, order[j - 1], m1) else Printed(m1)
  }

  /** Lines 97-133: the work of the outer loop for player `p`. */
  function Visit(l: Ledger, order: seq<Player>, p: Player, m: Texts): PrintResult
    reads p
  {
    VisitWith(l, order, p, m, p.HitPoints > 0, KillLine(TextOf(l.killingBlow, p)))
  }

  /** Lines 99-104: `p`'s own text goes to `p`. */
  function OwnText(l: Ledger, p: Player, m: Texts): Texts {
    if p in l.player then Append(m, p, l.player[p]) else m
  }

  /** One more visit of the outer loop, when the earlier ones succeeded. */
  lemma ResolveStep(l: Ledger, order: seq<Player>, i: nat, prior: Texts)
    requires i < |order| && ResolveUpTo(l, order, i) == Printed(prior)
    ensures ResolveUpTo(l, order, i + 1) ==
      VisitWith(l, order, order[i], prior, order[i].HitPoints > 0, KillLine(TextOf(l.killingBlow, order[i])))
  {
  }

  /** Visit, given whether `p` is still alive and the kill line it would get. */
  function VisitWith(l: Ledger, order: seq<Player>, p: Player, m: Texts, alive: bool, notice: string): PrintResult {
    match NotifyOthers(l, p, order, |order|, OwnText(l, p, m))
    case MissingEntry(q) => MissingEntry(q)
    case Printed(m2) =>
      if p in l.killingBlow && alive then Extend(m2, p, notice) else Printed(m2)
  }

  /** `Print` after its outer loop has visited `order[..i]`. */
  function ResolveUpTo(l: Ledger, order: seq<Player>, i: nat): PrintResult
    requires i <= |order|
    reads order
  {
    if i == 0 then Printed(map[])
    else match ResolveUpTo(l, order, i - 1)
      case MissingEntry(q) => MissingEntry(q)
      case Printed(m) => Visit(l, order, order[i - 1], m)
  }

  /** The result of `Print(order)` on ledger `l`. */
  function Resolve(l: Ledger, order: seq<Player>): PrintResult
    reads order
  {
    ResolveUpTo(l, order, |order|)
  }

  // A reference description of Print's output, viewer by viewer.

  /** The "You killed" line `p` gets: only with kill text and while alive. */
  function KillNotice(l: Ledger, p: Player): string
    reads p
  {
    if p in l.killingBlow && p.HitPoints > 0 then KillLine(TextOf(l.killingBlow, p)) else ""
  }

  /** `p`'s group text followed by its killing-blow text: what every
      differently-named player sees of `p`'s visit, once per entry. */
  function Shared(l: Ledger, p: Player): string {
    TextOf(l.group, p) + TextOf(l.killingBlow, p)
  }

  /** What the visit of `p` adds to viewer `q`'s output: `p`'s own text and
      kill notice to `p` itself; `p`'s shared text once per entry of `q` in
      the order when `q`'s Forename differs; nothing to a namesake. */
  function Piece(l: Ledger, order: seq<Player>, p: Player, q: Player): string
    reads p
  {
    if q == p then TextOf(l.player, p) + KillNotice(l, p)
    else if q.Forename != p.Forename then Repeat(Shared(l, p), Count(order, q))
    else ""
  }

  /** Viewer `q`'s output after the visits of `order[..i]`. */
  function ViewOf(l: Ledger, order: seq<Player>, q: Player, i: nat): string
    requires i <= |order|
    reads order
  {
    if i == 0 then "" else ViewOf(l, order, q, i - 1) + Piece(l, order, order[i - 1], q)
  }

  /** The visit of `p` creates an entry for `q`. */
  predicate Opens(l: Ledger, order: seq<Player>, p: Player, q: Player) {
    || (q == p && p in l.player)
    || (q.Forename != p.Forename && q in order && p in l.group)
  }

  /** One notification step, for viewer `q`. */
  lemma NotifyOtherEffect(l: Ledger, p: Player, o: Player, m: Texts, q: Player)
    requires NotifyOther(l, p, o, m).Printed?
    ensures var m' := NotifyOther(l, p, o, m).text;
      && (q in m' <==> q in m || (q == o && p in l.group))
      && TextOf(m', q) == TextOf(m, q) + (if q == o then Shared(l, p) else "")
  {
    var m2 := if p in l.group then Append(m, o, l.group[p]) else m;
    assert TextOf(m2, q) == TextOf(m, q) + (if q == o then TextOf(l.group, p) else "");
  }

  lemma RepeatOnceMore(t: string, n: nat)
    ensures Repeat(t, n + 1) == Repeat(t, n) + t
  {
  }

  lemma {:induction false} NotifyOthersEffect(l: Ledger, p: Player, order: seq<Player>, j: nat, m: Texts, q: Player)
    requires j <= |order|
    requires NotifyOthers(l, p, order, j, m).Printed?
    ensures var m' := NotifyOthers(l, p, order, j, m).text;
      && (q in m' <==> q in m || (q.Forename != p.Forename && CountIn(order, j, q) > 0 && p in l.group))
      && TextOf(m', q) == TextOf(m, q) +
           (if q.Forename != p.Forename then Repeat(Shared(l, p), CountIn(order, j, q)) else "")
  {
    if j == 0 {
      assert TextOf(m, q) + "" == TextOf(m, q);
    } else {
      var prev := NotifyOthers(l, p, order, j - 1, m);
      assert prev.Printed?;
      NotifyOthersEffect(l, p, order, j - 1, m, q);
      var m1 := prev.text;
      var o := order[j - 1];
      var n := CountIn(order, j - 1, q);
      var rest := if q.Forename != p.Forename then Repeat(Shared(l, p), n) else "";
      assert TextOf(m1, q) == TextOf(m, q) + rest;
      assert CountIn(order, j, q) == n + (if o == q then 1 else 0);
      assert NotifyOthers(l, p, order, j, m) ==
        if o.Forename != p.Forename then NotifyOther(l, p, o, m1) else Printed(m1);
      if o.Forename != p.Forename {
        NotifyOtherEffect(l, p, o, m1, q);
        if q == o {
          RepeatOnceMore(Shared(l, p), n);
          assert TextOf(m, q) + rest + Shared(l, p) == TextOf(m, q) + (rest + Shared(l, p));
        } else {
          assert TextOf(m1, q) + "" == TextOf(m1, q);
        }
      }
    }
  }

  /** The player's own text, added before the inner loop. */
  lemma OwnTextEffect(l: Ledger, p: Player, m: Texts, q: Player)
    ensures var m1 := OwnText(l, p, m);
      && (q in m1 <==> q in m || (q == p && p in l.player))
      && TextOf(m1, q) == TextOf(m, q) + (if q == p then TextOf(l.player, p) else "")
  {
    assert TextOf(m, q) + "" == TextOf(m, q);
  }

  lemma VisitWithEffect(l: Ledger, order: seq<Player>, p: Player, m: Texts, alive: bool, notice: string, q: Player)
    requires VisitWith(l, order, p, m, alive, notice).Printed?
    ensures var m' := VisitWith(l, order, p, m, alive, notice).text;
      && (q in m' <==> q in m || Opens(l, order, p, q))
      && TextOf(m', q) == TextOf(m, q) +
           (if q == p then TextOf(l.player, p) + (if p in l.killingBlow && alive then notice else "")
            else if q.Forename != p.Forename then Repeat(Shared(l, p), Count(order, q))
            else "")
  {
    var m2 := NotifyOthers(l, p, order, |order|, OwnText(l, p, m)).text;
    var t, own := TextOf(m, q), if q == p then TextOf(l.player, p) else "";
    var shared := if q.Forename != p.Forename then Repeat(Shared(l, p), Count(order, q)) else "";
    VisitWithInner(l, order, p, m, q);
    if q == p {
      var tail := if p in l.killingBlow && alive then notice else "";
      assert TextOf(VisitWith(l, order, p, m, alive, notice).text, q) == ((t + own) + shared) + tail;
      assert shared == "";
      Concat3(t, own, tail);
      Concat3(t + own, "", "");
    } else {
      assert own == "";
      Concat3(t, "", "");
      Concat3(t, shared, "");
    }
  }

  /** `VisitWith` before its killing-blow notice: the own text, then the
      notifications. */
  lemma VisitWithInner(l: Ledger, order: seq<Player>, p: Player, m: Texts, q: Player)
    requires NotifyOthers(l, p, order, |order|, OwnText(l, p, m)).Printed?
    ensures var m2 := NotifyOthers(l, p, order, |order|, OwnText(l, p, m)).text;
      && (q in m2 <==> q in m || Opens(l, order, p, q))
      && TextOf(m2, q) == (TextOf(m, q) + (if q == p then TextOf(l.player, p) else "")) +
           (if q.Forename != p.Forename then Repeat(Shared(l, p), Count(order, q)) else "")
  {
    var m1 := OwnText(l, p, m);
    OwnTextEffect(l, p, m, q);
    NotifyOthersEffect(l, p, order, |order|, m1, q);
    CountInPositive(order, |order|, q);
    assert order[..|order|] == order;
  }

  lemma VisitEffect(l: Ledger, order: seq<Player>, p: Player, m: Texts, q: Player)
    requires Visit(l, order, p, m).Printed?
    ensures var m' := Visit(l, order, p, m).text;
      && (q in m' <==> q in m || Opens(l, order, p, q))
      && TextOf(m', q) == TextOf(m, q) + Piece(l, order, p, q)
  {
    VisitWithEffect(l, order, p, m, p.HitPoints > 0, KillLine(TextOf(l.killingBlow, p)), q);
  }

  lemma {:induction false} ResolveUpToEffect(l: Ledger, order: seq<Player>, i: nat, q: Player)
    requires i <= |order|
    requires ResolveUpTo(l, order, i).Printed?
    ensures var m := ResolveUpTo(l, order, i).text;
      && (q in m <==> exists k | 0 <= k < i :: Opens(l, order, order[k], q))
      && TextOf(m, q) == ViewOf(l, order, q, i)
  {
    if i > 0 {
      assert ResolveUpTo(l, order, i - 1).Printed?;
      ResolveUpToEffect(l, order, i - 1, q);
      var m := ResolveUpTo(l, order, i - 1).text;
      VisitEffect(l, order, order[i - 1], m, q);
      if Opens(l, order, order[i - 1], q) {
        assert exists k | 0 <= k < i :: Opens(l, order, order[k], q);
      }
    }
  }

  /** Print's output, viewer by viewer: a viewer has an entry exactly when
      some visit opened one, and its text is the concatenation, in
      combat-order position, of what each visit adds for it (see Piece). */
  lemma ResolveCharacterized(l: Ledger, order: seq<Player>, q: Player)
    requires Resolve(l, order).Printed?
    ensures q in Resolve(l, order).text <==> exists k | 0 <= k < |order| :: Opens(l, order, order[k], q)
    ensures TextOf(Resolve(l, order).text, q) == ViewOf(l, order, q, |order|)
  {
    ResolveUpToEffect(l, order, |order|, q);
  }

  /** Print only produces entries for players of the combat order. */
  lemma ResolveKeysInOrder(l: Ledger, order: seq<Player>)
    requires Resolve(l, order).Printed?
    ensures forall q | q in Resolve(l, order).text :: q in order
  {
    forall q | q in Resolve(l, order).text ensures q in order {
      ResolveCharacterized(l, order, q);
    }
  }

  /** Print cannot fail when every player with kill text also has group text
      and, if still alive, own text: then every `+=` finds its entry. */
  lemma {:induction false} ResolveSucceeds(l: Ledger, order: seq<Player>, i: nat)
    requires i <= |order|
    requires forall p | p in order :: p in l.killingBlow ==> p in l.group
    requires forall p | p in order :: p in l.killingBlow && p.HitPoints > 0 ==> p in l.player
    ensures ResolveUpTo(l, order, i).Printed?
  {
    if i > 0 {
      ResolveSucceeds(l, order, i - 1);
      var p := order[i - 1];
      var m := ResolveUpTo(l, order, i - 1).text;
      var m1 := OwnText(l, p, m);
      NotifyOthersSucceed(l, p, order, |order|, m1);
      NotifyOthersEffect(l, p, order, |order|, m1, p);
    }
  }

  lemma {:induction false} NotifyOthersSucceed(l: Ledger, p: Player, order: seq<Player>, j: nat, m: Texts)
    requires j <= |order|
    requires p in l.killingBlow ==> p in l.group
    ensures NotifyOthers(l, p, order, j, m).Printed?
  {
    if j > 0 {
      NotifyOthersSucceed(l, p, order, j - 1, m);
    }
  }

  /** Line 120 throws when a player with kill text but no group text is
      followed, under a different Forename, by a player with no entry yet. */
  lemma ResolveFailsForUnopenedBystander(l: Ledger, p: Player, q: Player)
    requires p.Forename != q.Forename
    requires p in l.killingBlow && p !in l.group
    ensures Resolve(l, [p, q]) == MissingEntry(q)
  {
    var order := [p, q];
    var m1 := OwnText(l, p, map[]);
    assert NotifyOthers(l, p, order, 1, m1) == Printed(m1);
    assert NotifyOthers(l, p, order, 2, m1) == MissingEntry(q);
    assert ResolveUpTo(l, order, 1) == MissingEntry(q);
  }

  /** No "is DEAD!!!" starts at position `i` of a killing-blow line, for `i`
      inside the name. */
  lemma NoDeadMarkAt(name: string, i: nat)
    requires !Contains(name, DeadMark) && i < |name|
    ensures !OccursAt(DeadLine(name), DeadMark, i)
  {
    var s := DeadLine(name);
    if i + |DeadMark| <= |name| {
      assert s[i..i + |DeadMark|] == name[i..i + |DeadMark|];
      assert !OccursAt(name, DeadMark, i);
    } else if i + |DeadMark| <= |s| {
      var k := |name| - i;
      assert s[|name|] == ' ' && s[|name| + 1] == 'i';
      if k == 2 {
        assert s[i..i + |DeadMark|][3] == 'i' != DeadMark[3];
      } else {
        assert s[i..i + |DeadMark|][k] == ' ' != DeadMark[k];
      }
    }
  }

  lemma RemoveDeadMarkFromTail()
    ensures DeleteAll(" is DEAD!!!\n", DeadMark) == " \n"
  {
    var tail := " is DEAD!!!\n";
    assert tail[..|DeadMark|][0] != DeadMark[0];
    assert tail[1..][..|DeadMark|] == DeadMark;
    assert tail[1..][|DeadMark|..] == "\n";
    assert DeleteAll("\n", DeadMark) == "\n";
  }

  lemma TrimNewlineOnly()
    ensures Trim(" \n") == ""
  {
    assert " \n"[1..] == "\n";
    assert "\n"[1..] == "";
    assert TrimStart("\n") == "";
    assert TrimStart(" \n") == "";
  }

  lemma TrimNameAndNewline(name: string)
    requires name != [] && !IsWhiteSpace(name[0]) && !IsWhiteSpace(name[|name| - 1])
    ensures Trim(name + " \n") == name
  {
    var s := name + " \n";
    assert s[0] == name[0];
    assert TrimStart(s) == s;
    TrimEndDropsBlankSuffix(name, " \n");
  }

  /** For a single killing-blow line of a well-formed name, the "You killed"
      subject is exactly that name. */
  lemma KillSubjectOfDeadLine(name: string)
    requires !Contains(name, DeadMark)
    requires name == [] || (!IsWhiteSpace(name[0]) && !IsWhiteSpace(name[|name| - 1]))
    ensures KillSubject(DeadLine(name)) == name
    ensures KillLine(DeadLine(name)) == "You killed " + name + "!!!"
  {
    var s := DeadLine(name);
    forall i: nat | i < |name| ensures !OccursAt(s, DeadMark, i) {
      NoDeadMarkAt(name, i);
    }
    DeleteAllKeepsPrefix(s, |name|, DeadMark);
    assert s[..|name|] == name && s[|name|..] == " is DEAD!!!\n";
    RemoveDeadMarkFromTail();
    if name == [] {
      TrimNewlineOnly();
    } else {
      TrimNameAndNewline(name);
    }
  }

  /** The ledger object. Its dictionaries are updated in place by AddText and
      by `+`, which mutates and returns its left operand. */
  class CombatRound {
    var playerText: Texts
    var complementGroupText: Texts
    var killingBlowText: Texts
    var roomText: string

    function View(): Ledger
      reads this
    {
      Ledger(playerText, complementGroupText, killingBlowText, roomText)
    }

    constructor ()
      ensures View() == Empty
    {
      playerText, complementGroupText, killingBlowText, roomText := map[], map[], map[], "";
    }

    method AddText(player: Player, text: string, kind: CombatTextType)
      modifies this
      ensures View() == Appended(old(View()), player, text, kind)
    {
      assert "" + text == text;
      match kind
      case ToPlayer =>
        if player in playerText {
          playerText := playerText[player := playerText[player] + text];
        } else {
          playerText := playerText[player := text];
        }
      case ToGroup =>
        if player in complementGroupText {
          complementGroupText := complementGroupText[player := complementGroupText[player] + text];
        } else {
          complementGroupText := complementGroupText[player := text];
        }
      case KillingBlow =>
        if player in killingBlowText {
          killingBlowText := killingBlowText[player := killingBlowText[player] + text];
        } else {
          killingBlowText := killingBlowText[player := text];
        }
      case ToRoom =>
        roomText := roomText + text;
    }

    /** One `foreach` of `operator +`: the non-blank entries of `m2` are
        appended, entry by entry, to `m1`. */
    static method MergeEntries(m1: Texts, m2: Texts) returns (r: Texts)
      ensures r == MergeTexts(m1, m2)
    {
      r := m1;
      var pending := m2.Keys;
      assert m2 - pending == map[];
      MergeTextsEmpty(m1);
      while pending != {}
        invariant pending <= m2.Keys
        invariant r == MergeTexts(m1, m2 - pending)
        decreases pending
      {
        var p :| p in pending;
        ghost var done := m2 - pending;
        MergeTextsStep(m1, done, p, m2[p]);
        assert "" + m2[p] == m2[p];
        if !IsBlank(m2[p]) {
          if p in r {
            r := r[p := r[p] + m2[p]];
          } else {
            r := r[p := m2[p]];
          }
        }
        pending := pending - {p};
        assert m2 - pending == done[p := m2[p]];
      }
      assert m2 - {} == m2;
    }

    /** `operator +`: mutates `r1` into `Merged(r1, r2)`, stated bucket by
        bucket, and returns it. */
    static method Plus(r1: CombatRound, r2: CombatRound) returns (r: CombatRound)
      modifies r1
      ensures r == r1
      ensures r1.playerText == MergeTexts(old(r1.playerText), old(r2.playerText))
      ensures r1.complementGroupText == MergeTexts(old(r1.complementGroupText), old(r2.complementGroupText))
      ensures r1.killingBlowText == MergeTexts(old(r1.killingBlowText), old(r2.killingBlowText))
      ensures r1.roomText == if IsBlank(old(r2.roomText)) then old(r1.roomText) else old(r1.roomText) + old(r2.roomText)
    {
      var other := r2.View();
      var pt := MergeEntries(r1.playerText, other.player);
      var gt := MergeEntries(r1.complementGroupText, other.group);
      var kt := MergeEntries(r1.killingBlowText, other.killingBlow);
      r1.playerText, r1.complementGroupText, r1.killingBlowText := pt, gt, kt;
      if !IsBlank(other.room) {
        r1.roomText := r1.roomText + other.room;
      }
      r := r1;
    }

    /** `Print(combatOrder)`: handles the ordering of combat text for the
        fighters in `combatOrder`. */
    method Print(combatOrder: seq<Player>) returns (r: PrintResult)
      ensures r == Resolve(View(), combatOrder)
    {
      ghost var l := View();
      var result: Texts := map[];
      var i := 0;
      while i < |combatOrder|
        invariant 0 <= i <= |combatOrder|
        invariant ResolveUpTo(l, combatOrder, i) == Printed(result)
      {
        var player := combatOrder[i];
        ResolveStep(l, combatOrder, i, result);
        if player in playerText {
          if player in result {
            result := result[player := result[player] + playerText[player]];
          } else {
            assert "" + playerText[player] == playerText[player];
            result := result[player := playerText[player]];
          }
        }
        var notified := NotifyOthersOf(player, combatOrder, result);
        if notified.MissingEntry? {
          r := notified;
          ResolveStaysFailed(l, combatOrder, i + 1, |combatOrder|);
          return;
        }
        result := notified.text;
        if player in killingBlowText && player.HitPoints > 0 {
          if player !in result {
            r := MissingEntry(player);
            ResolveStaysFailed(l, combatOrder, i + 1, |combatOrder|);
            return;
          }
          result := result[player := result[player] +
                                     ("You killed " + Trim(DeleteAll(killingBlowText[player], DeadMark)) + "!!!")];
        }
        i := i + 1;
      }
      r := Printed(result);
    }

    /** The inner `foreach` of Print (lines 107-121): `player`'s group and
        killing-blow text go to every entry of the order with another
        Forename. */
    method NotifyOthersOf(player: Player, combatOrder: seq<Player>, start: Texts) returns (r: PrintResult)
      ensures r == NotifyOthers(View(), player, combatOrder, |combatOrder|, start)
    {
      var result := start;
      var playerName := player.Forename;
      var j := 0;
      while j < |combatOrder|
        invariant 0 <= j <= |combatOrder|
        invariant NotifyOthers(View(), player, combatOrder, j, start) == Printed(result)
      {
        var otherPlayer := combatOrder[j];
        if otherPlayer.Forename != playerName {
          if player in complementGroupText {
            if otherPlayer in result {
              result := result[otherPlayer := result[otherPlayer] + complementGroupText[player]];
            } else {
              assert "" + complementGroupText[player] == complementGroupText[player];
              result := result[otherPlayer := complementGroupText[player]];
            }
          }
          if player in killingBlowText {
            if otherPlayer !in result {
              r := MissingEntry(otherPlayer);
              NotifyOthersStaysFailed(View(), player, combatOrder, j + 1, |combatOrder|, start);
              return;
            }
            result := result[otherPlayer := result[otherPlayer] + killingBlowText[player]];
          }
        }
        j := j + 1;
      }
      r := Printed(result);
    }
  }

  /** Once the inner loop has failed, it stays failed. */
  lemma {:induction false} NotifyOthersStaysFailed(l: Ledger, p: Player, order: seq<Player>, j: nat, n: nat, m: Texts)
    requires j <= n <= |order|
    requires NotifyOthers(l, p, order, j, m).MissingEntry?
    ensures NotifyOthers(l, p, order, n, m) == NotifyOthers(l, p, order, j, m)
    decreases n - j
  {
    if j < n {
      NotifyOthersStaysFailed(l, p, order, j + 1, n, m);
    }
  }

  /** Once the outer loop has failed, it stays failed. */
  lemma {:induction false} ResolveStaysFailed(l: Ledger, order: seq<Player>, i: nat, n: nat)
    requires i <= n <= |order|
    requires ResolveUpTo(l, order, i).MissingEntry?
    ensures ResolveUpTo(l, order, n) == ResolveUpTo(l, order, i)
    decreases n - i
  {
    if i < n {
      ResolveStaysFailed(l, order, i + 1, n);
    }
  }
}
