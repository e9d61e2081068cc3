# auto-expire-5e: expiration decision model

A Dafny model of the decision logic of a FoundryVTT module that automatically
expires temporary active effects. The host engine owns every document and
event; what is modelled here is the pure part:

- `Expiration` (`src/scripts/expiration.ts`): whether an effect carries
  special durations, the one-step turn-transition trigger check, the
  expiration predicate, the batches built by the world-time / combat-update
  scan and by combat deletion, and the policy dispatch that turns a batch into
  disable or delete actions.
- `Records` (`src/scripts/utils.ts`): integer-keyed records and their
  conversion to lists (`Object.values`, ascending key order) and back
  (densified keys `0 .. n-1`).
- `EffectConfigSheet` (`src/scripts/active-effect-config.ts`): the list edits
  behind the sheet's "add" and "delete" special-duration controls, with the
  flag written back as a dense record.
- `ExpirationConfig` (`scripts/data/expiration-config-model.mjs`,
  `scripts/constants.mjs`): the later per-effect configuration, a fixed-key
  trigger map with its default table, loaded from and stored whole into a
  flag of its parent effect.
- `Filtering` and `Optional`: the order-preserving filter and the nullable
  values the modules share.

Host lookups are parameters: an effect records the id of the actor carrying
it and the actor its origin resolves to; a combat records its current and
previous combatant ids and the combatant of each actor. The effect's
`duration.remaining` is a `real` (only its sign and nullness matter). The two
trigger vocabularies (`sourceTurnStart`, ... for special durations and
`sourceActorTurnStart`, ... for the configuration model) are kept separate.

Two behaviours of the code worth stating plainly:
- The token scan does not merge tokens linked to the same actor; that
  actor's effects appear once per token (`Expiration.NoActorDeduplication`).
- An unrecognised expiration-handling setting issues no action and reports
  no error.

## Model

| member | source | states |
|---|---|---|
| `Records.SortedKeysUnique` | src/scripts/utils.ts:1-3 | the ascending order `Object.values` uses is the only strictly increasing enumeration of the key set |
| `Records.RecordToArray` | src/scripts/utils.ts:1-3 | the list has one entry per key of the record |
| `Records.RecordToArrayValues` | src/scripts/utils.ts:1-3 | a value occurs in the list exactly when it is stored under some key |
| `Records.ArrayToRecord` | src/scripts/utils.ts:5-11 | the record's keys are exactly `0 .. n-1` and key `i` holds element `i` |
| `Records.RoundTrip` | src/scripts/utils.ts:1-11 | listing a densified list gives the list back |
| `Records.Redensify` | src/scripts/utils.ts:1-11 | densifying a record's list gives a dense record of the same size holding the value of the `i`-th smallest key at `i` |
| `Records.RedensifyDense` | src/scripts/utils.ts:1-11 | a record that is already dense is unchanged by list-then-densify |
| `Expiration.HasSpecialDuration` | src/scripts/expiration.ts:65-68 | true iff the flag is present and non-empty, i.e. it lists at least one name (equivalently, has at least one value) for the trigger loop |
| `Expiration.CombatantFor` | src/scripts/expiration.ts:102-103 | a combatant is found exactly when the actor id is present and takes part in the combat, and it is that actor's combatant |
| `Expiration.SourceCombatant` | src/scripts/expiration.ts:105-113 | a source combatant exists iff the effect has an origin resolving to an actor that takes part in the combat, and it is that actor's combatant |
| `Expiration.TargetCombatant` | src/scripts/expiration.ts:100-103 | a target combatant exists iff the actor carrying the effect takes part in the combat, and it is that actor's combatant |
| `Expiration.FirstFiring` | src/scripts/expiration.ts:125-152 | the early-return loop over the names is true iff some name satisfies the trigger table |
| `Expiration.IsSpecialDurationFulfilled` | src/scripts/expiration.ts:96-153 | fulfilled iff some name stored in the flag is source/target turn start/end with that combatant resolved and equal to the current/previous combatant |
| `Expiration.IsExpired` | src/scripts/expiration.ts:165-181 | without special durations: temporary, remaining present and at most 0; with them: never without a combat, otherwise iff some stored name fires |
| `Expiration.CountdownIgnoresCombat` | src/scripts/expiration.ts:174-180 | without special durations the verdict is the countdown rule whatever the combat |
| `Expiration.UnrecognisedNamesNeverExpire` | src/scripts/expiration.ts:126-149 | an effect whose names are all outside the four recognised ones never expires |
| `Expiration.SourceNamesNeedSourceCombatant` | src/scripts/expiration.ts:105-149 | with no origin or no source combatant, only the target turn start/end names can expire the effect |
| `Expiration.ExpiryIgnoresOrderAndRepeats` | src/scripts/expiration.ts:124-152 | two effects listing the same set of names, in any order or multiplicity, get the same verdict |
| `Expiration.TargetTurnStartExpires` | src/scripts/expiration.ts:138-142 | listing `targetTurnStart` while the target's combatant is current expires the effect |
| `Expiration.AppliedEffects` | src/scripts/expiration.ts:80-85 | an effect is in the flattened list iff some entry's actor carries it; entries without an actor contribute nothing |
| `Expiration.AppliedEffectsAppend` | src/scripts/expiration.ts:80-85 | flattening two slot lists back to back gives the concatenation of their flattenings |
| `Expiration.AppliedEffectsOne` | src/scripts/expiration.ts:80-85 | one slot contributes its actor's `appliedEffects` in their own order and exactly once, or nothing without an actor; with `AppliedEffectsAppend` the list is every slot's effects concatenated in token order |
| `Expiration.FindExpiredEffects` | src/scripts/expiration.ts:79-87 | the in-order subsequence of the flattened effects that are expired, each with its original multiplicity |
| `Expiration.FindExpiredEffectsOne` | src/scripts/expiration.ts:79-87 | a single token yields exactly its actor's expired effects, in the actor's order |
| `Expiration.FindExpiredEffectsAppend` | src/scripts/expiration.ts:79-87 | scanning two token lists back to back gives the concatenation of their results |
| `Expiration.NoActorDeduplication` | src/scripts/expiration.ts:80-85 | two tokens of the same actor yield that actor's expired effects twice |
| `Expiration.DeleteCombatBatch` | src/scripts/expiration.ts:38-44 | the in-order subsequence of the combatants' effects that carry special durations, independent of any trigger |
| `Expiration.DeleteBatchCoversTriggeredEffects` | src/scripts/expiration.ts:38-44 | an expired effect of a token's actor that is also among the combatants' effects is reported by the turn-change scan and is in the deletion batch when it has special durations, and otherwise expired by countdown (a corollary of the scan's, the batch's and the verdict's contracts, stated for the two listeners together) |
| `Expiration.IssueAll` | src/scripts/expiration.ts:195-199 | one action of the given kind per effect, position by position |
| `Expiration.ProcessExpiredEffects` | src/scripts/expiration.ts:194-202 | "disable" gives exactly one disable per effect, "delete" exactly one delete, any other value nothing |
| `EffectConfigSheet.SpliceStart` | src/scripts/active-effect-config.ts:59 | the splice position: an in-range index is used as is, a negative one counts from the end, an index past the end gives the length and one below minus the length gives 0 |
| `EffectConfigSheet.GetSpecialDurations` | src/scripts/active-effect-config.ts:68-73 | an absent flag reads as the empty record, a present one as itself |
| `EffectConfigSheet.SpliceOne` | src/scripts/active-effect-config.ts:59 | removes exactly the element at the splice position, keeping the others in order; removes nothing past the end |
| `EffectConfigSheet.SpliceCases` | src/scripts/active-effect-config.ts:59 | case by case: in-range index removes that element, negative index the one counted from the end, below minus the length the first, past the end nothing |
| `EffectConfigSheet.AddDuration` | src/scripts/active-effect-config.ts:47-52 | the stored record is dense, one longer, keeps the old list as prefix and ends with the first special-duration name |
| `EffectConfigSheet.DeleteDuration` | src/scripts/active-effect-config.ts:53-60 | the stored record is dense; an in-range index removes exactly that entry, a negative one the entry counted from the end, one below minus the length the first entry, a too-large one nothing; an empty record stays empty |
| `EffectConfigSheet.OnClick` | src/scripts/active-effect-config.ts:34-66 | no target or no effect, an unknown action, or a delete without index changes nothing; add and delete store a dense record |
| `EffectConfigSheet.Apply` | src/scripts/active-effect-config.ts:75-85 | writing an edit replaces the whole flag with the new record; no edit leaves the effect as it was |
| `EffectConfigSheet.AddToAbsentFlag` | src/scripts/active-effect-config.ts:47-52 | adding to an effect without the flag stores `{0: first}` |
| `EffectConfigSheet.DeleteThenAdd` | src/scripts/active-effect-config.ts:47-60 | deleting entry `i` and adding it back moves it to the end and keeps the others in order |
| `EffectConfigSheet.ClickKeepsFlagDense` | src/scripts/active-effect-config.ts:34-85 | after any click, whatever the prior flag, the effect is unchanged or its flag is a present dense record |
| `ExpirationConfig.TriggerIdInjective` | scripts/constants.mjs:19-30 | distinct trigger enum entries have distinct ids |
| `ExpirationConfig.TriggerIdsCount` | scripts/constants.mjs:19-30 | the enum has ten distinct ids |
| `ExpirationConfig.DefaultTriggers` | scripts/data/expiration-config-model.mjs:14-21 | one field per enum entry, keyed by its id, initially true iff the entry is a default trigger |
| `ExpirationConfig.DefaultTable` | scripts/data/expiration-config-model.mjs:14-25 | the schema's keys are exactly the ten ids and only `time` starts enabled |
| `ExpirationConfig.Clean` | scripts/data/expiration-config-model.mjs:29-35 | a loaded triggers map has exactly the schema keys, taking stored values where present and defaults elsewhere |
| `ExpirationConfig.FromEffect` | scripts/data/expiration-config-model.mjs:29-35 | the loaded model has the full key set, is parented to the effect, and is the default table when the flag is unset; with a flag, each trigger takes the stored value and falls back to its default |
| `ExpirationConfig.HasTrigger` | scripts/data/expiration-config-model.mjs:47-49 | true iff the name is a key whose value is true; false for any name outside the key set |
| `ExpirationConfig.HasTriggerAfterUpdate` | scripts/data/expiration-config-model.mjs:47-73 | after `update` sets one trigger on a parented model, `hasTrigger` reports exactly the value set |
| `ExpirationConfig.DefaultHasOnlyTime` | scripts/data/expiration-config-model.mjs:47-49 | on an unflagged effect `hasTrigger` holds for `time` and nothing else |
| `ExpirationConfig.Merge` | scripts/data/expiration-config-model.mjs:65 | the merged map keeps the schema keys, takes changed values and keeps the others |
| `ExpirationConfig.ChangedEntries` | scripts/data/expiration-config-model.mjs:55-65 | the reported diff holds exactly the schema keys whose value the change alters, with their new values |
| `ExpirationConfig.Update` | scripts/data/expiration-config-model.mjs:57-74 | without a parent: empty diff, nothing written; with one: the merged model (changed triggers take the new value, others keep theirs) is stored whole in the parent's flag, and the diff holds exactly the schema triggers whose value changed, with their new values |
| `ExpirationConfig.Delete` | scripts/data/expiration-config-model.mjs:80-88 | without a parent nothing changes; with one the parent's flag is removed |
| `ExpirationConfig.UpdateThenReload` | scripts/data/expiration-config-model.mjs:65-73 | loading the parent after an update reproduces the updated model |
| `ExpirationConfig.DeleteThenReload` | scripts/data/expiration-config-model.mjs:80-88 | loading the parent after a delete yields the default table |
| `ExpirationConfig.ReloadStable` | scripts/data/expiration-config-model.mjs:29-35 | storing a loaded model and loading it again gives the same triggers |

## Left out

- Hook registration, module bootstrap and the public API object (`src/scripts/main.ts`, `scripts/auto-expire-5e.mjs`, `scripts/api.mjs`): event wiring only.
- The active-GM gate (`isLocalUserFirstActiveGM`): an opaque boolean the listeners check before doing anything; the model starts after it.
- Host lookups (`fromUuidSync`, `getCombatantByActor`, `appliedEffects`, the active scene's tokens): replaced by given actor ids, resolved origins, a combatant map and effect lists.
- `Promise.all` concurrency in `processExpiredEffects`: the result is the list of intended actions, with no failure or rollback semantics.
- Settings registration (`src/scripts/settings.ts`, `scripts/settings.mjs`): only the policy value is modelled, as a string parameter.
- Template rendering, DOM handling and `setPosition` in the sheet extension, and the unset-then-set write sequence and render options of `setSpecialDurations` (modelled as one overwrite).
- `EffectConfigSheet.SpliceStart`: a non-integer `index` data attribute is not modelled; indices are integers.
- `ExpirationConfig.ChangedEntries`: the nested shape of the diff `updateSource` returns is not modelled; the diff is flattened to trigger id and new value.
- `ExpirationConfig.Clean`: strict schema validation errors for non-boolean flag data are not modelled; flag data is a map of booleans and unknown keys are dropped.
- The `prompt` policy of the later variant (a confirmation dialog per effect): that variant's policy executor is not part of this model; only the earlier `disable`/`delete` dispatch is.
- `ExpirationConfig.Update`, `ExpirationConfig.Delete`: the error logged when there is no parent effect is not modelled; only the resulting no-op is.
- `Records.RecordToArray`: keys are unbounded naturals, while `Object.values` orders numerically only array-index keys (below 2^32 - 1); every record `arrayToRecord` writes stays below that bound.
- Floating point: `duration.remaining` is a `real`; only its sign and nullness are used.
- Build tooling and type stubs (`gulpfile.mjs`, `src/scripts/globals.d.ts`).
