/**
 * The session manager of `ActivityHomeScreen`: the activity list, the running
 * counter and the storage gate, with the screen's commands as methods. Each
 * `setActivities` updater is one atomic step; storage writes are recorded in
 * the ghost log `saves`, and the clock reading `now` is a parameter.
 */
module Home {
  import opened Wrappers
  import opened Activities
  import opened Timer

  class ActivityHomeScreen {
    /** The `activities` state. */
    var activities: seq<Activity>
    /** `timeRef.current`: the accrued time of the active item, in ms. */
    var timeRef: int
    /** `startTimeRef.current`: the instant the current accrual period began. */
    var startTime: int
    /** The displayed `time` state. */
    var displayTime: int
    /** The `isStorageEnabled` prop. */
    const storageEnabled: bool
    /** Every list handed to `storeDayFlowItems`, oldest first. */
    ghost var saves: seq<seq<Activity>>

    /** With no active item, the counter and the display are at 0. */
    ghost predicate Valid()
      reads this`activities, this`timeRef, this`displayTime
    {
      ActiveItem(activities).None? ==> timeRef == 0 && displayTime == 0
    }

    /** The counter fields, as one value. */
    function Clock(): Counter
      reads this`timeRef, this`startTime, this`displayTime
    {
      Counter(timeRef, startTime, displayTime)
    }

    /**
     * Mounting the screen: the stored list when there is one (an empty stored
     * list included), the default list otherwise; then the activation effect
     * runs against no previous active item.
     */
    constructor Load(stored: Option<seq<Activity>>, defaults: seq<Activity>, isStorageEnabled: bool, now: int)
      ensures Valid()
      ensures activities == stored.GetOr(defaults)
      ensures storageEnabled == isStorageEnabled && saves == []
      ensures Clock() == Activation(activities, None, Counter(0, 0, 0), now)
    {
      activities := stored.GetOr(defaults);
      timeRef, startTime, displayTime := 0, 0, 0;
      storageEnabled := isStorageEnabled;
      saves := [];
      new;
      ActivationEffect(None, now);
    }

    /** `saveToStorage`: the list is stored only when storage is enabled. */
    method SaveToStorage(data: seq<Activity>)
      modifies this`saves
      ensures saves == if storageEnabled then old(saves) + [data] else old(saves)
    {
      if storageEnabled {
        saves := saves + [data];
      }
    }

    /** One frame of the accrual loop, which runs only while an item is active. */
    method Tick(now: int)
      requires ActiveItem(activities).Some?
      modifies this`timeRef, this`startTime, this`displayTime
      ensures Valid()
      ensures Clock() == Ticked(old(Clock()), now)
    {
      var timeDelta := now - startTime;
      if timeDelta >= Threshold {
        timeRef := timeRef + timeDelta;
        displayTime := timeRef;
        startTime := now;
      }
    }

    /** The effect keyed on `activeItem`; `prevId` is the id of the previous render's active item. */
    method ActivationEffect(prevId: Option<string>, now: int)
      modifies this`timeRef, this`startTime, this`displayTime
      ensures Valid()
      ensures Clock() == Activation(activities, prevId, old(Clock()), now)
    {
      match ActiveItem(activities) {
        case Some(a) =>
          if prevId != Some(a.id) {
            timeRef := a.time;
            startTime := now;
          }
          Tick(now);
        case None =>
          timeRef := 0;
          displayTime := 0;
      }
    }

    /**
     * `checkActivity({id, state})`: when the guard holds, commit the counter,
     * apply the set-active map, save through the gate, and run the effect;
     * otherwise nothing at all changes.
     */
    method CheckActivity(id: string, state: bool, now: int)
      requires Valid()
      modifies this`activities, this`saves, this`timeRef, this`startTime, this`displayTime
      ensures Valid()
      ensures activities == CheckedList(old(activities), id, state, old(timeRef))
      ensures !Toggles(old(activities), id, state) ==> saves == old(saves) && Clock() == old(Clock())
      ensures Toggles(old(activities), id, state) ==>
        && saves == (if storageEnabled then old(saves) + [activities] else old(saves))
        && Clock() == Activation(activities, ActiveId(old(activities)), old(Clock()), now)
    {
      var candidateIdx := IndexOfId(activities, id);
      if candidateIdx.Some? && activities[candidateIdx.value].isActive != state {
        SwitchActive(id, state, now);
      }
    }

    /**
     * The changing branch of `checkActivity`: commit the counter into the
     * previously active record, apply the set-active map, save through the
     * gate, then run the effect against the previously active id.
     */
    method SwitchActive(id: string, state: bool, now: int)
      requires Toggles(activities, id, state)
      modifies this`activities, this`saves, this`timeRef, this`startTime, this`displayTime
      ensures Valid()
      ensures activities == CheckedList(old(activities), id, state, old(timeRef))
      ensures saves == if storageEnabled then old(saves) + [activities] else old(saves)
      ensures Clock() == Activation(activities, ActiveId(old(activities)), old(Clock()), now)
    {
      var prevId := ActiveId(activities);
      var newActivities := SetActive(CommitTime(activities, timeRef), id, state);
      SaveToStorage(newActivities);
      activities := newActivities;
      ActivationEffect(prevId, now);
    }

    /** `addItem(newItem)`: append, save through the gate, and run the effect if the new item became the active one. */
    method AddItem(newItem: Activity, now: int)
      requires Valid()
      modifies this`activities, this`saves, this`timeRef, this`startTime, this`displayTime
      ensures Valid()
      ensures activities == old(activities) + [newItem]
      ensures saves == if storageEnabled then old(saves) + [activities] else old(saves)
      ensures Clock() == if ActiveItem(old(activities)).None? && newItem.isActive
                         then Activation(activities, None, old(Clock()), now)
                         else old(Clock())
    {
      var prev := ActiveItem(activities);
      var newActivities := activities + [newItem];
      SaveToStorage(newActivities);
      activities := newActivities;
      ActiveIndexAppend(old(activities), [newItem]);
      if prev.None? && newItem.isActive {
        ActivationEffect(None, now);
      }
    }

    /**
     * `updateItem(itemData)`: merge, commit the counter into the first active
     * record, save through the gate; the effect runs when the active item is
     * another object than before: it moved, or it is the edited record.
     */
    method UpdateItem(itemData: ItemData, now: int)
      requires Valid()
      modifies this`activities, this`saves, this`timeRef, this`startTime, this`displayTime
      ensures Valid()
      ensures activities == UpdatedList(old(activities), itemData, old(timeRef))
      ensures saves == if storageEnabled then old(saves) + [activities] else old(saves)
      ensures Clock() ==
        if ActiveIndex(activities) != ActiveIndex(old(activities))
           || (ActiveIndex(activities).Some? && activities[ActiveIndex(activities).value].id == itemData.id)
        then Activation(activities, ActiveId(old(activities)), old(Clock()), now)
        else old(Clock())
    {
      var prevIdx := ActiveIndex(activities);
      var prevId := ActiveId(activities);
      var newActivities := MergeInto(activities, itemData);
      newActivities := CommitTime(newActivities, timeRef);
      SaveToStorage(newActivities);
      activities := newActivities;
      var idx := ActiveIndex(activities);
      if idx != prevIdx || (idx.Some? && activities[idx.value].id == itemData.id) {
        ActivationEffect(prevId, now);
      }
    }

    /**
     * `deleteItem(itemData)`: deleting the active item drops the counter and the
     * display to 0 (the accrued time is not committed); the records with the id
     * are filtered out and the rest saved through the gate; the effect runs when
     * the active item was the one deleted.
     */
    method DeleteItem(id: string, now: int)
      requires Valid()
      modifies this`activities, this`saves, this`timeRef, this`startTime, this`displayTime
      ensures Valid()
      ensures activities == Without(old(activities), id)
      ensures saves == if storageEnabled then old(saves) + [activities] else old(saves)
      ensures Clock() == if ActiveId(old(activities)) == Some(id)
                         then Activation(activities, Some(id), Counter(0, old(startTime), 0), now)
                         else old(Clock())
      ensures AtMostOneActive(old(activities)) && ActiveId(old(activities)) == Some(id) ==>
        timeRef == 0 && displayTime == 0 && ActiveItem(activities).None?
    {
      var prevId := ActiveId(activities);
      var deletesActive := prevId == Some(id);
      if deletesActive {
        timeRef := 0;
        displayTime := 0;
      }
      var newActivities := Without(activities, id);
      SaveToStorage(newActivities);
      activities := newActivities;
      if deletesActive {
        ActivationEffect(prevId, now);
        if AtMostOneActive(old(activities)) {
          WithoutDropsActive(old(activities), id);
        }
      } else {
        WithoutKeepsActive(old(activities), id);
      }
    }

    /**
     * The suspend handler (page unload, app going to the background): commit
     * the counter into the active record and save through the same gate.
     */
    method Suspend()
      requires Valid()
      modifies this`activities, this`saves
      ensures Valid()
      ensures activities == CommitTime(old(activities), timeRef)
      ensures saves == if storageEnabled then old(saves) + [activities] else old(saves)
    {
      CommitTimeKeepsActive(activities, timeRef);
      activities := CommitTime(activities, timeRef);
      SaveToStorage(activities);
    }
  }

  /**
   * A whole accrual period, on the model's values: switching on record `k` in a
   * list with no active record seeds the counter with its stored time at `t0`;
   * after ticks at the clock readings `nows` (non-decreasing, from `t0`),
   * switching it off again commits into it exactly the time accrued up to the
   * last fired tick, which is the elapsed time less a rest below `Threshold`.
   * Every other record keeps its values, and nothing is active afterwards.
   */
  lemma ActivateTickDeactivate(s: seq<Activity>, k: nat, t0: int, c: Counter, nows: seq<int>)
    requires UniqueIds(s) && ActiveItem(s).None?
    requires k < |s|
    requires |nows| > 0 && t0 <= nows[0]
    requires forall i, j :: 0 <= i <= j < |nows| ==> nows[i] <= nows[j]
    ensures var on := CheckedList(s, s[k].id, true, c.value);
            var seeded := Activation(on, None, c, t0);
            var ticked := RunTicks(seeded, nows);
            var off := CheckedList(on, s[k].id, false, ticked.value);
            && seeded == Counter(s[k].time, t0, c.display)
            && |off| == |s|
            && off[k] == s[k].(time := ticked.value)
            && ticked.value == s[k].time + (ticked.baseline - t0)
            && ticked.value <= s[k].time + (nows[|nows| - 1] - t0) < ticked.value + Threshold
            && (forall i :: 0 <= i < |s| && i != k ==> off[i] == s[i])
            && ActiveItem(off).None?
  {
    var id := s[k].id;
    assert IndexOfId(s, id) == Some(k);
    assert Toggles(s, id, true);
    var on := CheckedList(s, id, true, c.value);
    CheckActivityAtMostOneActive(s, id, true, c.value);
    assert ActiveItem(on) == Some(on[k]);
    var seeded := Activation(on, None, c, t0);
    var ticked := RunTicks(seeded, nows);
    TicksTrackElapsed(seeded, nows);
    IndexOfIdByIds(s, on, id);
    assert Toggles(on, id, false);
    CheckActivityKeepsIds(s, id, true, c.value);
    CheckActivityAtMostOneActive(on, id, false, ticked.value);
    var off := CheckedList(on, id, false, ticked.value);
    assert off[k] == s[k].(time := ticked.value);
  }
}
