/** The expiration decision of `src/scripts/expiration.ts`: which active
    effects have expired, which effects the end of a combat sweeps away,
    and what the configured policy does with them.

    Host lookups are abstracted to plain values: an effect records the id of
    the actor carrying it and what its origin resolves to, and a combat
    records its current and previous combatant ids together with the
    combatant of each participating actor (`getCombatantByActor`). */
module Expiration {
  import opened Optional
  import opened Records
  import opened Filtering

  type ActorId = string
  type CombatantId = string

  /** The four special-duration names the trigger check recognises. */
  const SourceTurnStart: string := "sourceTurnStart"
  const SourceTurnEnd: string := "sourceTurnEnd"
  const TargetTurnStart: string := "targetTurnStart"
  const TargetTurnEnd: string := "targetTurnEnd"

  /** The settings values `processExpiredEffects` acts on. */
  const DisablePolicy: string := "disable"
  const DeletePolicy: string := "delete"

  /** Where an effect came from. `Origin(sourceActor)` holds the actor the
      origin reference resolves to (the document itself when it is an actor,
      the owning actor when it is an item), `None` when nothing resolves. */
  datatype Origin = NoOrigin | Origin(sourceActor: Option<ActorId>)

  /** An active effect, reduced to the fields the decision reads.
      `remaining` is the host-computed remaining duration (`null` when the
      effect has none); `specialDurations` is the module's flag, a record of
      special-duration names. */
  datatype Effect = Effect(
    isTemporary: bool,
    remaining: Option<real>,
    origin: Origin,
    target: Option<ActorId>,
    specialDurations: Option<Record<string>>)

  datatype Actor = Actor(id: ActorId, appliedEffects: seq<Effect>)

  /** One step of combat: the combatant whose turn it is now, the one whose
      turn just ended, and the combatant of each actor in the combat. */
  datatype Combat = Combat(
    current: Option<CombatantId>,
    previous: Option<CombatantId>,
    combatantOf: map<ActorId, CombatantId>)

  datatype ActionKind = DisableEffect | DeleteEffect

  /** A host mutation the policy issues for one effect. */
  datatype Action = Action(kind: ActionKind, effect: Effect)

  /** `hasSpecialDuration`: the flag is present and has at least one key,
      that is, it lists at least one name for the trigger loop to examine. */
  predicate HasSpecialDuration(e: Effect): (r: bool)
    ensures r <==> e.specialDurations.Some? && RecordToArray(e.specialDurations.value) != []
    ensures r <==> e.specialDurations.Some? && e.specialDurations.value.Values != {}
  {
    if e.specialDurations.Some? then
      NonEmptyIffValues(e.specialDurations.value);
      |e.specialDurations.value| != 0
    else false
  }

  /** The plain countdown rule for effects without special durations. */
  predicate CountdownElapsed(e: Effect) {
    e.isTemporary && e.remaining.Some? && e.remaining.value <= 0.0
  }

  /** `getCombatantByActor`, with a missing actor id looking up nothing. */
  function CombatantFor(c: Combat, actor: Option<ActorId>): (r: Option<CombatantId>)
    ensures r.Some? <==> actor.Some? && actor.value in c.combatantOf
    ensures r.Some? ==> r.value == c.combatantOf[actor.value]
  {
    match actor
    case Some(a) => if a in c.combatantOf then Some(c.combatantOf[a]) else None
    case None => None
  }

  /** The source combatant: only looked up when the effect has an origin. */
  function SourceCombatant(e: Effect, c: Combat): (r: Option<CombatantId>)
    ensures r.Some? <==>
      e.origin.Origin? && e.origin.sourceActor.Some? && e.origin.sourceActor.value in c.combatantOf
    ensures r.Some? ==> r.value == c.combatantOf[e.origin.sourceActor.value]
  {
    match e.origin
    case NoOrigin => None
    case Origin(actor) => CombatantFor(c, actor)
  }

  /** The target combatant: the combatant of the actor carrying the effect. */
  function TargetCombatant(e: Effect, c: Combat): (r: Option<CombatantId>)
    ensures r.Some? <==> e.target.Some? && e.target.value in c.combatantOf
    ensures r.Some? ==> r.value == c.combatantOf[e.target.value]
  {
    CombatantFor(c, e.target)
  }

  /** The trigger table: whether one special-duration name is satisfied by
      the combat's one-step turn transition, given the resolved source and
      target combatants. A turn id that is absent never equals a combatant. */
  predicate Fires(name: string, source: Option<CombatantId>,
                  target: Option<CombatantId>, c: Combat)
  {
    || (name == SourceTurnStart && source.Some? && c.current == source)
    || (name == SourceTurnEnd && source.Some? && c.previous == source)
    || (name == TargetTurnStart && target.Some? && c.current == target)
    || (name == TargetTurnEnd && target.Some? && c.previous == target)
  }

  /** One iteration of the trigger loop: the source switch is entered only
      when a source combatant exists, the target switch only when a target
      combatant exists. */
  predicate LoopStepFires(name: string, source: Option<CombatantId>,
                          target: Option<CombatantId>, c: Combat)
  {
    var bySource :=
      if source.Some? then
        (if name == SourceTurnStart then c.current == Some(source.value)
         else if name == SourceTurnEnd then c.previous == Some(source.value)
         else false)
      else false;
    var byTarget :=
      if target.Some? then
        (if name == TargetTurnStart then c.current == Some(target.value)
         else if name == TargetTurnEnd then c.previous == Some(target.value)
         else false)
      else false;
    bySource || byTarget
  }

  /** The loop over the listed names, returning at the first one that fires. */
  function FirstFiring(names: seq<string>, source: Option<CombatantId>,
                       target: Option<CombatantId>, c: Combat): (r: bool)
    ensures r <==> exists i :: 0 <= i < |names| && Fires(names[i], source, target, c)
    decreases |names|
  {
    if names == [] then false
    else if LoopStepFires(names[0], source, target, c) then true
    else
      assert forall i :: 1 <= i < |names| ==> names[i] == names[1..][i - 1];
      FirstFiring(names[1..], source, target, c)
  }

  /** `isSpecialDurationFulfilled`: some listed name fires. It reads the
      flag with `Object.values`, which throws on a missing flag, so the flag
      must be present (its only caller checks `hasSpecialDuration` first). */
  function IsSpecialDurationFulfilled(e: Effect, c: Combat): (r: bool)
    requires e.specialDurations.Some?
    ensures r <==> exists name :: name in e.specialDurations.value.Values &&
                     Fires(name, SourceCombatant(e, c), TargetCombatant(e, c), c)
  {
    var names := RecordToArray(e.specialDurations.value);
    RecordToArrayValues(e.specialDurations.value);
    FirstFiring(names, SourceCombatant(e, c), TargetCombatant(e, c), c)
  }

  /** `isExpired`: with special durations, only a combat can expire the
      effect, through its triggers; without them, the countdown decides. */
  function IsExpired(e: Effect, c: Option<Combat>): (r: bool)
    ensures !HasSpecialDuration(e) ==>
      (r <==> e.isTemporary && e.remaining.Some? && e.remaining.value <= 0.0)
    ensures HasSpecialDuration(e) && c.None? ==> !r
    ensures HasSpecialDuration(e) && c.Some? ==>
      (r <==> exists name :: name in e.specialDurations.value.Values &&
                Fires(name, SourceCombatant(e, c.value), TargetCombatant(e, c.value), c.value))
  {
    if HasSpecialDuration(e) then
      if c.Some? then IsSpecialDurationFulfilled(e, c.value) else false
    else CountdownElapsed(e)
  }

  /** Without special durations the combat plays no part: any two combat
      contexts give the same verdict, the countdown rule. */
  lemma CountdownIgnoresCombat(e: Effect, c1: Option<Combat>, c2: Option<Combat>)
    requires !HasSpecialDuration(e)
    ensures IsExpired(e, c1) == IsExpired(e, c2) == CountdownElapsed(e)
  {
  }

  /** Names outside the trigger table never fire, so an effect whose special
      durations are all unrecognised never expires. */
  lemma UnrecognisedNamesNeverExpire(e: Effect, c: Option<Combat>)
    requires HasSpecialDuration(e)
    requires forall name :: name in e.specialDurations.value.Values ==>
      name !in {SourceTurnStart, SourceTurnEnd, TargetTurnStart, TargetTurnEnd}
    ensures !IsExpired(e, c)
  {
  }

  /** Without an origin, or when the source actor has no combatant, only the
      target names can expire an effect. */
  lemma SourceNamesNeedSourceCombatant(e: Effect, c: Combat)
    requires HasSpecialDuration(e)
    requires e.origin.NoOrigin? || CombatantFor(c, e.origin.sourceActor).None?
    ensures IsExpired(e, Some(c)) <==>
      exists name :: name in e.specialDurations.value.Values &&
        ((name == TargetTurnStart && TargetCombatant(e, c).Some? && c.current == TargetCombatant(e, c)) ||
         (name == TargetTurnEnd && TargetCombatant(e, c).Some? && c.previous == TargetCombatant(e, c)))
  {
    assert SourceCombatant(e, c).None?;
  }

  /** The verdict depends only on which names are listed: reordering or
      repeating the special-duration entries changes nothing. */
  lemma ExpiryIgnoresOrderAndRepeats(e1: Effect, e2: Effect, c: Option<Combat>)
    requires e1.specialDurations.Some? && e2.specialDurations.Some?
    requires e1.specialDurations.value.Values == e2.specialDurations.value.Values
    requires e1.(specialDurations := None) == e2.(specialDurations := None)
    ensures IsExpired(e1, c) == IsExpired(e2, c)
  {
    if c.Some? {
      assert SourceCombatant(e1, c.value) == SourceCombatant(e2, c.value);
      assert TargetCombatant(e1, c.value) == TargetCombatant(e2, c.value);
    }
  }

  lemma NonEmptyIffValues(r: Record<string>)
    ensures |r| != 0 <==> r.Values != {}
  {
    if |r| != 0 {
      var k :| k in r;
      assert r[k] in r.Values;
    }
  }

  /** A combat whose current combatant is the target's, with the target
      turn-start name listed, expires the effect. */
  lemma TargetTurnStartExpires(e: Effect, c: Combat, key: nat)
    requires e.specialDurations.Some? && key in e.specialDurations.value
    requires e.specialDurations.value[key] == TargetTurnStart
    requires TargetCombatant(e, c).Some? && c.current == TargetCombatant(e, c)
    ensures IsExpired(e, Some(c))
  {
    assert TargetTurnStart in e.specialDurations.value.Values;
  }

  /** The effects of the actors behind a list of tokens or combatants,
      actor by actor, skipping entries without an actor. */
  function AppliedEffects(slots: seq<Option<Actor>>): (r: seq<Effect>)
    ensures forall x :: x in r <==>
      exists i :: 0 <= i < |slots| && slots[i].Some? && x in slots[i].value.appliedEffects
    decreases |slots|
  {
    if slots == [] then []
    else
      var rest := AppliedEffects(slots[1..]);
      assert forall i :: 1 <= i < |slots| ==> slots[i] == slots[1..][i - 1];
      var here := if slots[0].Some? then slots[0].value.appliedEffects else [];
      here + rest
  }

  lemma {:induction false} AppliedEffectsAppend(s1: seq<Option<Actor>>, s2: seq<Option<Actor>>)
    ensures AppliedEffects(s1 + s2) == AppliedEffects(s1) + AppliedEffects(s2)
    decreases |s1|
  {
    if s1 != [] {
      assert (s1 + s2)[0] == s1[0];
      assert (s1 + s2)[1..] == s1[1..] + s2;
      AppliedEffectsAppend(s1[1..], s2);
    } else {
      assert s1 + s2 == s2;
    }
  }

  /** One slot contributes its actor's effects, in their own order and
      once, or nothing when it has no actor. With `AppliedEffectsAppend`
      this fixes the flattened list on every input. */
  lemma {:induction false} AppliedEffectsOne(slot: Option<Actor>)
    ensures AppliedEffects([slot]) == if slot.Some? then slot.value.appliedEffects else []
  {
    assert [slot][1..] == [];
  }

  /** `findExpiredEffects`: the expired effects of the tokens' actors, in
      order, one entry per occurrence. */
  function FindExpiredEffects(tokens: seq<Option<Actor>>, c: Option<Combat>): (r: seq<Effect>)
    ensures forall x :: x in r <==> x in AppliedEffects(tokens) && IsExpired(x, c)
    ensures forall x :: multiset(r)[x] ==
                        if IsExpired(x, c) then multiset(AppliedEffects(tokens))[x] else 0
    ensures IsSubsequence(r, AppliedEffects(tokens))
  {
    SelectCounts(AppliedEffects(tokens), x => IsExpired(x, c));
    SelectIsSubsequence(AppliedEffects(tokens), x => IsExpired(x, c));
    Select(AppliedEffects(tokens), x => IsExpired(x, c))
  }

  /** The scan does not merge tokens that share an actor: the tokens are
      processed independently and their results concatenated. */
  lemma FindExpiredEffectsAppend(t1: seq<Option<Actor>>, t2: seq<Option<Actor>>, c: Option<Combat>)
    ensures FindExpiredEffects(t1 + t2, c) == FindExpiredEffects(t1, c) + FindExpiredEffects(t2, c)
  {
    AppliedEffectsAppend(t1, t2);
    SelectAppend(AppliedEffects(t1), AppliedEffects(t2), x => IsExpired(x, c));
  }

  /** A single token yields its actor's expired effects, in order. */
  lemma FindExpiredEffectsOne(a: Actor, c: Option<Combat>)
    ensures FindExpiredEffects([Some(a)], c) == Select(a.appliedEffects, x => IsExpired(x, c))
  {
    AppliedEffectsOne(Some(a));
  }

  /** Two tokens linked to the same actor yield that actor's expired effects
      twice. */
  lemma NoActorDeduplication(a: Actor, c: Option<Combat>)
    ensures FindExpiredEffects([Some(a), Some(a)], c) ==
      FindExpiredEffects([Some(a)], c) + FindExpiredEffects([Some(a)], c)
  {
    FindExpiredEffectsAppend([Some(a)], [Some(a)], c);
    assert [Some(a)] + [Some(a)] == [Some(a), Some(a)];
  }

  /** The batch `onDeleteCombat` passes on: every effect of the combatants'
      actors carrying special durations, whether or not a trigger fires. */
  function DeleteCombatBatch(combatants: seq<Option<Actor>>): (r: seq<Effect>)
    ensures forall x :: x in r <==> x in AppliedEffects(combatants) && HasSpecialDuration(x)
    ensures forall x :: multiset(r)[x] ==
                        if HasSpecialDuration(x) then multiset(AppliedEffects(combatants))[x] else 0
    ensures IsSubsequence(r, AppliedEffects(combatants))
  {
    SelectCounts(AppliedEffects(combatants), x => HasSpecialDuration(x));
    SelectIsSubsequence(AppliedEffects(combatants), x => HasSpecialDuration(x));
    Select(AppliedEffects(combatants), x => HasSpecialDuration(x))
  }

  /** An expired effect of a token's actor is reported by the turn-change
      scan (over any token list) and, when it expired through its triggers,
      is swept when the combat is deleted, provided its actor is one of the
      combat's combatants; effects of actors outside the combatant list are
      not swept. A corollary of the membership contracts of
      `FindExpiredEffects`, `DeleteCombatBatch` and `IsExpired`, stated for
      the two listeners together. */
  lemma DeleteBatchCoversTriggeredEffects(tokens: seq<Option<Actor>>,
                                          combatants: seq<Option<Actor>>, c: Combat, e: Effect)
    requires e in AppliedEffects(tokens) && IsExpired(e, Some(c))
    requires e in AppliedEffects(combatants)
    ensures e in FindExpiredEffects(tokens, Some(c))
    ensures HasSpecialDuration(e) ==> e in DeleteCombatBatch(combatants)
    ensures !HasSpecialDuration(e) ==> CountdownElapsed(e)
  {
  }

  /** The `forEach` that issues one action of the given kind per effect. */
  function IssueAll(kind: ActionKind, effects: seq<Effect>): (r: seq<Action>)
    ensures |r| == |effects|
    ensures forall i :: 0 <= i < |effects| ==> r[i] == Action(kind, effects[i])
    decreases |effects|
  {
    if effects == [] then []
    else [Action(kind, effects[0])] + IssueAll(kind, effects[1..])
  }

  /** `processExpiredEffects`: the policy setting picks one disable or one
      delete per effect; any other value issues nothing. */
  function ProcessExpiredEffects(policy: string, effects: seq<Effect>): (r: seq<Action>)
    ensures policy == DisablePolicy ==>
      |r| == |effects| && forall i :: 0 <= i < |r| ==> r[i] == Action(DisableEffect, effects[i])
    ensures policy == DeletePolicy ==>
      |r| == |effects| && forall i :: 0 <= i < |r| ==> r[i] == Action(DeleteEffect, effects[i])
    ensures policy != DisablePolicy && policy != DeletePolicy ==> r == []
  {
    if policy == DisablePolicy then IssueAll(DisableEffect, effects)
    else if policy == DeletePolicy then IssueAll(DeleteEffect, effects)
    else []
  }
}
