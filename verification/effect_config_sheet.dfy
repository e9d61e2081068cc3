/** The list edits behind the special-duration controls of the effect
    configuration sheet (`onClick` in `src/scripts/active-effect-config.ts`).
    The flag is read as a record, converted to a list, edited, and written
    back densified; writing it back overwrites the whole record. */
module EffectConfigSheet {
  import opened Optional
  import opened Records

  const AddAction: string := "add"
  const DeleteAction: string := "delete"

  /** The effect being configured, reduced to its special-duration flag. */
  datatype SheetEffect = SheetEffect(specialDurations: Option<Record<string>>)

  /** A click on a control: whether the event has a target element, and the
      control's `action` and `index` data attributes (absent when unset). */
  datatype ClickEvent = ClickEvent(hasTarget: bool, action: Option<string>, index: Option<int>)

  /** What a click does to the flag: nothing, or overwrite it with a record. */
  datatype Edit = Unchanged | Store(record: Record<string>)

  /** `getSpecialDurations`: an absent flag reads as the empty record. */
  function GetSpecialDurations(e: SheetEffect): (r: Record<string>)
    ensures e.specialDurations.None? ==> r == map[]
    ensures e.specialDurations.Some? ==> r == e.specialDurations.value
  {
    e.specialDurations.GetOr(map[])
  }

  /** The position `Array.prototype.splice` starts at: a negative index
      counts from the end, and the result is clamped to `0 .. len`. */
  function SpliceStart(index: int, len: nat): (s: nat)
    ensures s <= len
    ensures 0 <= index <= len ==> s == index
    ensures index < 0 && 0 <= len + index ==> s == len + index
    ensures index > len ==> s == len
    ensures len + index < 0 ==> s == 0
  {
    if index < 0 then (if len + index < 0 then 0 else len + index)
    else if index < len then index
    else len
  }

  /** `a.splice(index, 1)`: removes the element at the splice position when
      there is one. */
  function SpliceOne<T>(a: seq<T>, index: int): (r: seq<T>)
    ensures SpliceStart(index, |a|) < |a| ==> |r| == |a| - 1
    ensures SpliceStart(index, |a|) == |a| ==> r == a
    ensures forall j :: 0 <= j < SpliceStart(index, |a|) && j < |r| ==> r[j] == a[j]
    ensures forall j :: SpliceStart(index, |a|) <= j < |r| ==> r[j] == a[j + 1]
  {
    var s := SpliceStart(index, |a|);
    if s < |a| then a[..s] + a[s + 1..] else a
  }

  /** `splice(index, 1)` case by case: an in-range index removes that
      element, a negative one the element counted from the end, one below
      `-|a|` the first element, and one past the end nothing. */
  lemma SpliceCases<T>(a: seq<T>, index: int)
    ensures 0 <= index < |a| ==> SpliceOne(a, index) == a[..index] + a[index + 1..]
    ensures index >= |a| ==> SpliceOne(a, index) == a
    ensures -|a| <= index < 0 ==> SpliceOne(a, index) == a[..|a| + index] + a[|a| + index + 1..]
    ensures index < -|a| && |a| > 0 ==> SpliceOne(a, index) == a[1..]
  {
    if index < -|a| && |a| > 0 {
      assert a[..0] + a[1..] == a[1..];
    }
  }

  /** The "add" control: append `first` (the first entry of the list of
      special-duration names) and store the list densified. */
  function AddDuration(r: Record<string>, first: string): (r': Record<string>)
    ensures Dense(r')
    ensures |r'| == |r| + 1
    ensures RecordToArray(r') == RecordToArray(r) + [first]
    ensures forall i :: 0 <= i < |r| ==> r'[i] == RecordToArray(r)[i]
    ensures r'[|r|] == first
  {
    var a := RecordToArray(r) + [first];
    RoundTrip(a);
    ArrayToRecord(a)
  }

  /** The "delete" control with an index: splice the list and store it
      densified. */
  function DeleteDuration(r: Record<string>, index: int): (r': Record<string>)
    ensures Dense(r')
    ensures 0 <= index < |r| ==>
      |r'| == |r| - 1 &&
      RecordToArray(r') == RecordToArray(r)[..index] + RecordToArray(r)[index + 1..]
    ensures index >= |r| ==> RecordToArray(r') == RecordToArray(r)
    ensures -|r| <= index < 0 ==>
      RecordToArray(r') == RecordToArray(r)[..|r| + index] + RecordToArray(r)[|r| + index + 1..]
    ensures index < -|r| && |r| > 0 ==> RecordToArray(r') == RecordToArray(r)[1..]
    ensures |r| == 0 ==> r' == map[]
  {
    var a := RecordToArray(r);
    var spliced := SpliceOne(a, index);
    SpliceCases(a, index);
    RoundTrip(spliced);
    EmptyStaysEmpty<string>();
    ArrayToRecord(spliced)
  }

  lemma EmptyStaysEmpty<T>()
    ensures ArrayToRecord<T>([]) == map[]
  {
  }

  /** `onClick`: a click without a target element or without an effect, an
      unknown action, or a delete without an index changes nothing; "add"
      and "delete" overwrite the flag with the edited, densified list. */
  function OnClick(ev: ClickEvent, effect: Option<SheetEffect>, first: string): (o: Edit)
    ensures !ev.hasTarget || effect.None? ==> o == Unchanged
    ensures o.Store? ==> Dense(o.record)
    ensures ev.hasTarget && effect.Some? && ev.action == Some(AddAction) ==>
      o.Store? && RecordToArray(o.record) ==
        RecordToArray(GetSpecialDurations(effect.value)) + [first]
    ensures ev.action == Some(DeleteAction) && ev.index.None? ==> o == Unchanged
    ensures ev.hasTarget && effect.Some? && ev.action == Some(DeleteAction) && ev.index.Some? ==>
      o == Store(DeleteDuration(GetSpecialDurations(effect.value), ev.index.value))
    ensures ev.action != Some(AddAction) && ev.action != Some(DeleteAction) ==> o == Unchanged
  {
    if !ev.hasTarget || effect.None? then Unchanged
    else
      var flag := GetSpecialDurations(effect.value);
      if ev.action == Some(AddAction) then Store(AddDuration(flag, first))
      else if ev.action == Some(DeleteAction) then
        match ev.index
        case None => Unchanged
        case Some(i) => Store(DeleteDuration(flag, i))
      else Unchanged
  }

  /** `setSpecialDurations`: the flag after an edit. */
  function Apply(e: SheetEffect, o: Edit): (e': SheetEffect)
    ensures o.Unchanged? ==> e' == e
    ensures o.Store? ==> e'.specialDurations == Some(o.record)
  {
    match o
    case Unchanged => e
    case Store(r) => SheetEffect(Some(r))
  }

  /** Adding to an effect that has no flag yet stores the one-entry record
      `{0: first}`. */
  lemma AddToAbsentFlag(first: string)
    ensures OnClick(ClickEvent(true, Some(AddAction), None), Some(SheetEffect(None)), first)
      == Store(map[0 := first])
  {
    var empty: Record<string> := map[];
    var added := AddDuration(empty, first);
    assert GetSpecialDurations(SheetEffect(None)) == empty;
    assert added.Keys == KeysBelow(1);
    assert added.Keys == {0};
    assert added[0] == first;
    SameEntries(added, map[0 := first]);
  }

  /** Deleting the entry at an in-range index and adding it back at the end
      keeps every other entry, in order, in front of it. */
  lemma DeleteThenAdd(r: Record<string>, index: nat)
    requires index < |r|
    ensures RecordToArray(AddDuration(DeleteDuration(r, index), RecordToArray(r)[index])) ==
      RecordToArray(r)[..index] + RecordToArray(r)[index + 1..] + [RecordToArray(r)[index]]
  {
  }

  /** After any click the flag is either untouched or a dense record, even
      when it was not dense before. */
  lemma ClickKeepsFlagDense(ev: ClickEvent, e: SheetEffect, first: string)
    ensures var e' := Apply(e, OnClick(ev, Some(e), first));
      e' == e || (e'.specialDurations.Some? && Dense(e'.specialDurations.value))
  {
  }
}
