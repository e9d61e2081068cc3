/** The later per-effect expiration configuration
    (`scripts/data/expiration-config-model.mjs` with the trigger enum of
    `scripts/constants.mjs`): a fixed-key map from trigger id to boolean,
    loaded from and stored whole into a flag of its parent effect.

    This vocabulary (`sourceActorTurnStart`, ...) is distinct from the
    special-duration names of the earlier design and is kept apart. */
module ExpirationConfig {
  import opened Optional

  /** `EXPIRATION_TRIGGER`. */
  datatype Trigger =
    | Time
    | SourceActorTurnStart
    | SourceActorTurnEnd
    | TargetActorTurnStart
    | TargetActorTurnEnd
    | CombatStart
    | CombatEnd
    | ShortRest
    | LongRest
    | Custom

  /** The string value of each enum entry. */
  function TriggerId(t: Trigger): (id: string)
    ensures |id| > 0
  {
    match t
    case Time => "time"
    case SourceActorTurnStart => "sourceActorTurnStart"
    case SourceActorTurnEnd => "sourceActorTurnEnd"
    case TargetActorTurnStart => "targetActorTurnStart"
    case TargetActorTurnEnd => "targetActorTurnEnd"
    case CombatStart => "combatStart"
    case CombatEnd => "combatEnd"
    case ShortRest => "shortRest"
    case LongRest => "longRest"
    case Custom => "custom"
  }

  /** `Object.values(EXPIRATION_TRIGGER)`, in declaration order. */
  const AllTriggers: seq<Trigger> := [
    Time, SourceActorTurnStart, SourceActorTurnEnd, TargetActorTurnStart,
    TargetActorTurnEnd, CombatStart, CombatEnd, ShortRest, LongRest, Custom]

  /** `DEFAULT_EXPIRATION_TRIGGERS`. */
  const DefaultExpirationTriggers: seq<Trigger> := [Time]

  type TriggerMap = map<string, bool>

  /** The flag storage of the parent effect: the stored triggers object, if
      the configuration flag is set. */
  datatype HostEffect = HostEffect(expirationConfig: Option<TriggerMap>)

  /** An `ExpirationConfigModel` instance and the effect it is parented to. */
  datatype ConfigModel = ConfigModel(triggers: TriggerMap, parent: Option<HostEffect>)

  /** The result of `update`: the reported changes and the model afterwards
      (whose parent carries the rewritten flag). */
  datatype UpdateResult = UpdateResult(diff: TriggerMap, model: ConfigModel)

  /** The enum entry with the given id, if any. */
  function ParseTrigger(name: string): (t: Option<Trigger>)
  {
    if name == "time" then Some(Time)
    else if name == "sourceActorTurnStart" then Some(SourceActorTurnStart)
    else if name == "sourceActorTurnEnd" then Some(SourceActorTurnEnd)
    else if name == "targetActorTurnStart" then Some(TargetActorTurnStart)
    else if name == "targetActorTurnEnd" then Some(TargetActorTurnEnd)
    else if name == "combatStart" then Some(CombatStart)
    else if name == "combatEnd" then Some(CombatEnd)
    else if name == "shortRest" then Some(ShortRest)
    else if name == "longRest" then Some(LongRest)
    else if name == "custom" then Some(Custom)
    else None
  }

  lemma ParseTriggerId(t: Trigger)
    ensures ParseTrigger(TriggerId(t)) == Some(t)
  {
    match t
    case Time =>
    case SourceActorTurnStart =>
    case SourceActorTurnEnd =>
    case TargetActorTurnStart =>
    case TargetActorTurnEnd =>
    case CombatStart =>
    case CombatEnd =>
    case ShortRest =>
    case LongRest =>
    case Custom =>
  }

  /** Distinct enum entries have distinct ids. */
  lemma TriggerIdInjective()
    ensures forall t1, t2 :: TriggerId(t1) == TriggerId(t2) ==> t1 == t2
  {
    forall t1, t2 | TriggerId(t1) == TriggerId(t2)
      ensures t1 == t2
    {
      ParseTriggerId(t1);
      ParseTriggerId(t2);
    }
  }

  /** The schema of `defineSchema`: one boolean field per trigger, keyed by
      its id, initially true exactly when the trigger is a default one. */
  function DefaultTriggers(): (fields: TriggerMap)
    ensures forall t :: t in AllTriggers ==>
      TriggerId(t) in fields && fields[TriggerId(t)] == (t in DefaultExpirationTriggers)
    ensures forall name :: name in fields ==> exists t :: t in AllTriggers && TriggerId(t) == name
  {
    TriggerIdInjective();
    map t | t in AllTriggers :: TriggerId(t) := t in DefaultExpirationTriggers
  }

  /** The ids of all triggers. */
  function TriggerKeys(): (keys: set<string>)
    ensures forall t :: t in AllTriggers ==> TriggerId(t) in keys
  {
    DefaultTriggers().Keys
  }

  /** The ten trigger ids, as a set. */
  const TriggerIds: set<string> := {"time", "sourceActorTurnStart", "sourceActorTurnEnd",
    "targetActorTurnStart", "targetActorTurnEnd", "combatStart", "combatEnd",
    "shortRest", "longRest", "custom"}

  lemma TriggerIdsCount()
    ensures |TriggerIds| == 10
  {
  }

  lemma IdFacts(t: Trigger)
    ensures TriggerId(t) in TriggerIds
    ensures TriggerId(t) == "time" <==> t == Time
  {
    match t
    case Time =>
    case _ => assert |TriggerId(t)| != 4;
  }

  lemma KeysWithinIds()
    ensures forall name :: name in DefaultTriggers() ==>
      name in TriggerIds && (DefaultTriggers()[name] <==> name == "time")
  {
    var d := DefaultTriggers();
    forall name | name in d
      ensures name in TriggerIds
      ensures d[name] <==> name == "time"
    {
      var t :| t in AllTriggers && TriggerId(t) == name;
      IdFacts(t);
    }
  }

  lemma IdsWithinKeys()
    ensures TriggerIds <= DefaultTriggers().Keys
  {
    var d := DefaultTriggers();
    forall t | t in AllTriggers
      ensures TriggerId(t) in d.Keys
    {
    }
    IdsAreImage();
  }

  lemma IdsAreImage()
    ensures forall name :: name in TriggerIds ==> exists t :: t in AllTriggers && TriggerId(t) == name
  {
    forall name | name in TriggerIds
      ensures exists t :: t in AllTriggers && TriggerId(t) == name
    {
      var t := if name == "time" then Time
        else if name == "sourceActorTurnStart" then SourceActorTurnStart
        else if name == "sourceActorTurnEnd" then SourceActorTurnEnd
        else if name == "targetActorTurnStart" then TargetActorTurnStart
        else if name == "targetActorTurnEnd" then TargetActorTurnEnd
        else if name == "combatStart" then CombatStart
        else if name == "combatEnd" then CombatEnd
        else if name == "shortRest" then ShortRest
        else if name == "longRest" then LongRest
        else Custom;
      assert TriggerId(t) == name;
    }
  }

  /** The default table: exactly the ten enum ids are keys, and only `time`
      is enabled. */
  lemma DefaultTable()
    ensures TriggerKeys() == TriggerIds
    ensures |TriggerKeys()| == 10
    ensures forall name :: name in TriggerKeys() ==> (DefaultTriggers()[name] <==> name == "time")
  {
    KeysWithinIds();
    IdsWithinKeys();
    TriggerIdsCount();
  }

  /** Every model has exactly the schema's keys. */
  predicate WellFormed(m: ConfigModel) {
    m.triggers.Keys == TriggerKeys()
  }

  /** Construction from flag data: each schema field takes the stored value
      when there is one and its initial value otherwise; other keys are
      dropped. */
  function Clean(data: TriggerMap): (triggers: TriggerMap)
    ensures triggers.Keys == TriggerKeys()
    ensures forall name :: name in TriggerKeys() && name in data ==> triggers[name] == data[name]
    ensures forall name :: name in TriggerKeys() && name !in data ==> triggers[name] == DefaultTriggers()[name]
  {
    map name | name in TriggerKeys() ::
      if name in data then data[name] else DefaultTriggers()[name]
  }

  /** `fromEffect`: the model of an effect's flag (defaults when unset),
      parented to that effect. */
  function FromEffect(e: HostEffect): (m: ConfigModel)
    ensures WellFormed(m)
    ensures m.parent == Some(e)
    ensures e.expirationConfig.None? ==> m.triggers == DefaultTriggers()
    ensures e.expirationConfig.Some? ==>
      forall name :: name in TriggerKeys() ==>
        m.triggers[name] ==
          (if name in e.expirationConfig.value then e.expirationConfig.value[name]
           else DefaultTriggers()[name])
  {
    var triggers := Clean(e.expirationConfig.GetOr(map[]));
    assert e.expirationConfig.None? ==> triggers == DefaultTriggers();
    ConfigModel(triggers, Some(e))
  }

  /** `hasTrigger`: the field is present and exactly `true`. */
  function HasTrigger(m: ConfigModel, name: string): (r: bool)
    ensures WellFormed(m) && name !in TriggerKeys() ==> !r
    ensures r <==> name in m.triggers && m.triggers[name]
  {
    name in m.triggers && m.triggers[name]
  }

  /** A freshly loaded model of an unflagged effect has only `time`. */
  lemma DefaultHasOnlyTime(e: HostEffect, name: string)
    requires e.expirationConfig.None?
    ensures HasTrigger(FromEffect(e), name) <==> name == "time"
  {
    DefaultTable();
  }

  /** `updateSource`: schema fields named in `changes` take the new value;
      unknown keys are ignored. */
  function Merge(triggers: TriggerMap, changes: TriggerMap): (merged: TriggerMap)
    ensures merged.Keys == TriggerKeys()
    ensures forall name :: name in TriggerKeys() && name in changes ==> merged[name] == changes[name]
    ensures forall name :: name in TriggerKeys() && name !in changes && name in triggers ==>
      merged[name] == triggers[name]
  {
    map name | name in TriggerKeys() ::
      if name in changes then changes[name]
      else if name in triggers then triggers[name]
      else DefaultTriggers()[name]
  }

  /** The entries of `changes` that alter a schema field. */
  function ChangedEntries(triggers: TriggerMap, changes: TriggerMap): (diff: TriggerMap)
    ensures forall name :: name in diff ==>
      name in TriggerKeys() && name in changes && diff[name] == changes[name] &&
      !(name in triggers && triggers[name] == changes[name])
    ensures forall name ::
      (name in TriggerKeys() && name in changes && !(name in triggers && triggers[name] == changes[name]))
      ==> name in diff
  {
    map name | name in changes && name in TriggerKeys() &&
               !(name in triggers && triggers[name] == changes[name]) :: changes[name]
  }

  /** `update`: without a parent nothing happens and the diff is empty;
      otherwise the changes are merged and the whole model is written to
      the parent's flag. */
  function Update(m: ConfigModel, changes: TriggerMap): (res: UpdateResult)
    ensures m.parent.None? ==> res.diff == map[] && res.model == m
    ensures m.parent.Some? ==>
      && WellFormed(res.model)
      && res.model.parent == Some(HostEffect(Some(res.model.triggers)))
      && (forall name :: name in TriggerKeys() && name in changes ==>
            res.model.triggers[name] == changes[name])
      && (forall name :: name in TriggerKeys() && name !in changes && name in m.triggers ==>
            res.model.triggers[name] == m.triggers[name])
      && (forall name :: name in res.diff <==>
            name in TriggerKeys() && name in changes &&
            (name !in m.triggers || m.triggers[name] != changes[name]))
      && (forall name :: name in res.diff ==> res.diff[name] == changes[name])
  {
    if m.parent.None? then UpdateResult(map[], m)
    else
      var merged := Merge(m.triggers, changes);
      UpdateResult(ChangedEntries(m.triggers, changes),
                   ConfigModel(merged, Some(HostEffect(Some(merged)))))
  }

  /** `delete`: without a parent nothing happens; otherwise the parent's
      flag is removed (the in-memory triggers are kept). */
  function Delete(m: ConfigModel): (m': ConfigModel)
    ensures m.parent.None? ==> m' == m
    ensures m.parent.Some? ==> m'.parent == Some(HostEffect(None)) && m'.triggers == m.triggers
  {
    if m.parent.None? then m
    else ConfigModel(m.triggers, Some(HostEffect(None)))
  }

  /** After setting one trigger through `update` on a parented model,
      `hasTrigger` reports exactly the value set. */
  lemma HasTriggerAfterUpdate(m: ConfigModel, t: Trigger, b: bool)
    requires m.parent.Some?
    ensures HasTrigger(Update(m, map[TriggerId(t) := b]).model, TriggerId(t)) == b
  {
  }

  /** Persisting the whole model makes it reload unchanged. */
  lemma UpdateThenReload(m: ConfigModel, changes: TriggerMap)
    requires m.parent.Some?
    ensures FromEffect(Update(m, changes).model.parent.value) == Update(m, changes).model
  {
    var after := Update(m, changes).model;
    var reloaded := FromEffect(after.parent.value);
    assert reloaded.triggers == after.triggers;
  }

  /** After a delete the parent reloads as the default table. */
  lemma DeleteThenReload(m: ConfigModel)
    requires m.parent.Some?
    ensures FromEffect(Delete(m).parent.value).triggers == DefaultTriggers()
  {
  }

  /** Loading is idempotent: storing a loaded model and loading again gives
      the same triggers. */
  lemma ReloadStable(e: HostEffect)
    ensures FromEffect(HostEffect(Some(FromEffect(e).triggers))).triggers == FromEffect(e).triggers
  {
  }
}
