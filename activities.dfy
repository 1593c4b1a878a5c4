/**
 * The activity list of the home screen and the pure transforms the screen's
 * commands apply to it: the `findIndex`/`find` searches, the time commit, the
 * set-active `map`, the edit merge `map`, the append and the delete `filter`.
 */
module Activities {
  import opened Wrappers

  /** One tracked activity, in its stored shape `{id, title, time, isActive}`; `time` is in ms. */
  datatype Activity = Activity(id: string, title: string, time: int, isActive: bool)

  /**
   * The record an edit hands to `updateItem`: `id` selects the activity, and
   * every present field overrides the activity's own (`{...a, ...itemData}`).
   */
  datatype ItemData = ItemData(id: string, title: Option<string>, time: Option<int>, isActive: Option<bool>)

  /** Every record carries a different id: each record is the first one with its id. */
  ghost predicate UniqueIds(s: seq<Activity>) {
    forall j :: 0 <= j < |s| ==> IndexOfId(s, s[j].id) == Some(j)
  }

  /**
   * No two records are active, so each active record is the first one. The
   * screen is meant to track one activity at a time; `checkActivity` and
   * `deleteItem` keep this (with unique ids), but appending an active record or
   * an edit that switches a record on can break it.
   */
  ghost predicate AtMostOneActive(s: seq<Activity>) {
    forall j :: 0 <= j < |s| && s[j].isActive ==> ActiveIndex(s) == Some(j)
  }

  /** The two searches the screen runs over the list: `a => a.isActive` and `a => a.id === id`. */
  datatype Probe = IsActive | HasId(id: string)

  /** Whether `a` satisfies the search `p`. */
  predicate Matches(p: Probe, a: Activity) {
    match p
    case IsActive => a.isActive
    case HasId(id) => a.id == id
  }

  /** `Array.prototype.findIndex`: the first index whose record satisfies `p`, or none. */
  function FindIndex(s: seq<Activity>, p: Probe): (r: Option<nat>)
    ensures r.Some? ==> r.value < |s| && Matches(p, s[r.value])
    ensures r.Some? ==> forall j :: 0 <= j < r.value ==> !Matches(p, s[j])
    ensures r.None? ==> forall j :: 0 <= j < |s| ==> !Matches(p, s[j])
    decreases |s|
  {
    if |s| == 0 then None
    else if Matches(p, s[0]) then Some(0)
    else match FindIndex(s[1..], p)
      case None => None
      case Some(k) => Some(k + 1)
  }

  /** `activities.findIndex(a => a.isActive)`: the position of the first active record. */
  function ActiveIndex(s: seq<Activity>): (r: Option<nat>)
    ensures r.Some? ==> r.value < |s| && s[r.value].isActive
    ensures r.Some? ==> forall j :: 0 <= j < r.value ==> !s[j].isActive
    ensures r.None? ==> forall j :: 0 <= j < |s| ==> !s[j].isActive
  {
    FindIndex(s, IsActive)
  }

  /** `activities.findIndex(a => a.id === id)`: the position of the first record with `id`. */
  function IndexOfId(s: seq<Activity>, id: string): (r: Option<nat>)
    ensures r.Some? ==> r.value < |s| && s[r.value].id == id
    ensures r.Some? ==> forall j :: 0 <= j < r.value ==> s[j].id != id
    ensures r.None? ==> forall j :: 0 <= j < |s| ==> s[j].id != id
  {
    FindIndex(s, HasId(id))
  }

  /** The screen's `activeItem`, `activities.find(a => a.isActive)`. */
  function ActiveItem(s: seq<Activity>): (r: Option<Activity>)
    ensures r.None? <==> forall j :: 0 <= j < |s| ==> !s[j].isActive
    ensures r.Some? ==> r.value.isActive && r.value in s
    ensures r.Some? ==> ActiveIndex(s).Some? && r.value == s[ActiveIndex(s).value]
  {
    match ActiveIndex(s)
    case None => None
    case Some(k) => Some(s[k])
  }

  /** `activeItem?.id`: the id of the first active record, if there is one. */
  function ActiveId(s: seq<Activity>): (r: Option<string>)
    ensures r.None? <==> ActiveIndex(s).None?
    ensures r.Some? ==> ActiveIndex(s).Some? && r.value == s[ActiveIndex(s).value].id
  {
    match ActiveItem(s)
    case None => None
    case Some(a) => Some(a.id)
  }

  /** Two lists with the same flags, position by position, have the same first active record. */
  lemma ActiveIndexByFlags(s: seq<Activity>, t: seq<Activity>)
    requires |s| == |t|
    requires forall i :: 0 <= i < |s| ==> s[i].isActive == t[i].isActive
    ensures ActiveIndex(s) == ActiveIndex(t)
  {
  }

  /** Two lists with the same ids, position by position, find the same first record for any id. */
  lemma IndexOfIdByIds(s: seq<Activity>, t: seq<Activity>, id: string)
    requires |s| == |t|
    requires forall i :: 0 <= i < |s| ==> s[i].id == t[i].id
    ensures IndexOfId(s, id) == IndexOfId(t, id)
  {
  }

  /**
   * The first active record of `s + t`: the one of `s` if it has one, and
   * otherwise the one of `t`, shifted past `s`.
   */
  lemma ActiveIndexAppend(s: seq<Activity>, t: seq<Activity>)
    ensures ActiveIndex(s + t) == match ActiveIndex(s)
      case Some(k) => Some(k)
      case None => match ActiveIndex(t)
        case None => None
        case Some(k) => Some(|s| + k)
  {
    var st := s + t;
    match ActiveIndex(s)
    case Some(k) =>
      assert st[k].isActive;
    case None =>
      match ActiveIndex(t)
      case None =>
      case Some(k) =>
        assert st[|s| + k].isActive;
  }

  // ---------------------------------------------------------------------------
  // updateTimeOnActiveItem

  /**
   * The time commit: the counter is written into the first active record's
   * `time`. Nothing else changes, and without an active record nothing at all.
   */
  function CommitTime(s: seq<Activity>, counter: int): (r: seq<Activity>)
    ensures |r| == |s|
    ensures forall i :: 0 <= i < |s| ==>
      r[i].id == s[i].id && r[i].title == s[i].title && r[i].isActive == s[i].isActive
    ensures forall i :: 0 <= i < |s| ==>
      r[i].time == if ActiveIndex(s) == Some(i) then counter else s[i].time
    ensures ActiveIndex(s).None? ==> r == s
  {
    match ActiveIndex(s)
    case None => s
    case Some(k) => s[k := s[k].(time := counter)]
  }

  /** A commit leaves the active record where it was. */
  lemma CommitTimeKeepsActive(s: seq<Activity>, counter: int)
    ensures ActiveIndex(CommitTime(s, counter)) == ActiveIndex(s)
    ensures ActiveId(CommitTime(s, counter)) == ActiveId(s)
  {
    ActiveIndexByFlags(s, CommitTime(s, counter));
  }

  /** Two commits in a row leave what the second one alone leaves: the last counter wins. */
  lemma CommitTimeLastWins(s: seq<Activity>, first: int, second: int)
    ensures CommitTime(CommitTime(s, first), second) == CommitTime(s, second)
  {
    CommitTimeKeepsActive(s, first);
  }

  // ---------------------------------------------------------------------------
  // checkActivity

  /**
   * The `map` of `checkActivity`: each record with `id` gets `isActive := state`,
   * every other record is switched off; nothing else in a record changes.
   */
  function SetActive(s: seq<Activity>, id: string, state: bool): (r: seq<Activity>)
    ensures |r| == |s|
    ensures forall i :: 0 <= i < |s| ==> (r[i].isActive <==> s[i].id == id && state)
    ensures forall i :: 0 <= i < |s| ==> r[i].(isActive := s[i].isActive) == s[i]
    decreases |s|
  {
    if |s| == 0 then []
    else [s[0].(isActive := s[0].id == id && state)] + SetActive(s[1..], id, state)
  }

  /**
   * The guard of `checkActivity`: some record has `id`, and the first such
   * record's `isActive` differs from the requested `state`.
   */
  predicate Toggles(s: seq<Activity>, id: string, state: bool) {
    match IndexOfId(s, id)
    case None => false
    case Some(k) => s[k].isActive != state
  }

  /** The guard holds exactly when some record has `id`, no earlier one does, and its flag differs from `state`. */
  lemma TogglesIff(s: seq<Activity>, id: string, state: bool)
    ensures Toggles(s, id, state) <==>
      exists k :: 0 <= k < |s| && s[k].id == id && s[k].isActive != state &&
                  forall j :: 0 <= j < k ==> s[j].id != id
  {
    if Toggles(s, id, state) {
      var k := IndexOfId(s, id).value;
      assert 0 <= k < |s| && s[k].id == id && s[k].isActive != state;
    }
  }

  /**
   * The list `checkActivity({id, state})` leaves, given the running counter:
   * unchanged when the guard fails; otherwise the counter is committed into the
   * previously active record, the record with `id` takes `state` and all others
   * are switched off.
   */
  function CheckedList(s: seq<Activity>, id: string, state: bool, counter: int): (r: seq<Activity>)
    ensures |r| == |s|
    ensures !Toggles(s, id, state) ==> r == s
    ensures Toggles(s, id, state) ==> forall i :: 0 <= i < |s| ==>
      r[i].id == s[i].id && r[i].title == s[i].title &&
      (r[i].isActive <==> s[i].id == id && state) &&
      r[i].time == if ActiveIndex(s) == Some(i) then counter else s[i].time
  {
    if Toggles(s, id, state) then SetActive(CommitTime(s, counter), id, state) else s
  }

  /** `checkActivity` changes the list exactly when its guard holds; otherwise it is a no-op. */
  lemma CheckActivityNoOpIff(s: seq<Activity>, id: string, state: bool, counter: int)
    ensures CheckedList(s, id, state, counter) == s <==> !Toggles(s, id, state)
  {
    if Toggles(s, id, state) {
      var k := IndexOfId(s, id).value;
      assert CheckedList(s, id, state, counter)[k].isActive != s[k].isActive;
    }
  }

  /**
   * After a `checkActivity` that changed the list, at most one record is active
   * (ids being unique): the one with `id` when `state` is true, none otherwise.
   */
  lemma CheckActivityAtMostOneActive(s: seq<Activity>, id: string, state: bool, counter: int)
    requires UniqueIds(s)
    requires Toggles(s, id, state)
    ensures AtMostOneActive(CheckedList(s, id, state, counter))
    ensures state ==> ActiveIndex(CheckedList(s, id, state, counter)) == IndexOfId(s, id)
    ensures !state ==> ActiveIndex(CheckedList(s, id, state, counter)) == None
  {
    var r := CheckedList(s, id, state, counter);
    var k := IndexOfId(s, id).value;
    if state {
      assert r[k].isActive;
      var a := ActiveIndex(r).value;
      assert s[a].id == id;
    }
  }

  /** A repeated identical `checkActivity` changes nothing (what a swipe that keeps firing relies on). */
  lemma CheckActivityIdempotent(s: seq<Activity>, id: string, state: bool, first: int, second: int)
    ensures CheckedList(CheckedList(s, id, state, first), id, state, second)
         == CheckedList(s, id, state, first)
  {
    var r := CheckedList(s, id, state, first);
    if Toggles(s, id, state) {
      IndexOfIdByIds(s, r, id);
      assert !Toggles(r, id, state);
    }
  }

  /** `checkActivity` never creates or drops a record, and keeps ids and order: it keeps unique ids. */
  lemma CheckActivityKeepsIds(s: seq<Activity>, id: string, state: bool, counter: int)
    requires UniqueIds(s)
    ensures UniqueIds(CheckedList(s, id, state, counter))
  {
    var r := CheckedList(s, id, state, counter);
    assert forall i :: 0 <= i < |s| ==> r[i].id == s[i].id;
  }

  // ---------------------------------------------------------------------------
  // addItem

  /** Appending a record that is inactive, or any record to a list with none active, keeps the invariant. */
  lemma AddItemKeepsAtMostOneActive(s: seq<Activity>, newItem: Activity)
    requires AtMostOneActive(s)
    requires !newItem.isActive || ActiveItem(s).None?
    ensures AtMostOneActive(s + [newItem])
    ensures ActiveItem(s + [newItem]) == if ActiveItem(s).Some? then ActiveItem(s) else
      (if newItem.isActive then Some(newItem) else None)
  {
    var t := s + [newItem];
    ActiveIndexAppend(s, [newItem]);
    forall i, j | 0 <= i < |t| && 0 <= j < |t| && t[i].isActive && t[j].isActive
      ensures i == j
    {
      if i < |s| && j < |s| {
        assert s[i].isActive && s[j].isActive;
      }
    }
    if ActiveIndex(s).None? && newItem.isActive {
      assert t[|s|] == newItem;
    }
  }

  // ---------------------------------------------------------------------------
  // updateItem

  /** `{...a, ...itemData}`: every field present in the edit replaces the record's own. */
  function Merge(a: Activity, d: ItemData): (r: Activity)
    ensures r.id == d.id
    ensures d.title.Some? ==> r.title == d.title.value
    ensures d.title.None? ==> r.title == a.title
    ensures d.time.Some? ==> r.time == d.time.value
    ensures d.time.None? ==> r.time == a.time
    ensures d.isActive.Some? ==> r.isActive == d.isActive.value
    ensures d.isActive.None? ==> r.isActive == a.isActive
  {
    Activity(d.id, d.title.GetOr(a.title), d.time.GetOr(a.time), d.isActive.GetOr(a.isActive))
  }

  /** The merge `map` of `updateItem`: each record with the edit's id is merged, the others are kept as they are. */
  function MergeInto(s: seq<Activity>, d: ItemData): (r: seq<Activity>)
    ensures |r| == |s|
    ensures forall i :: 0 <= i < |s| ==> r[i].id == s[i].id
    ensures forall i :: 0 <= i < |s| ==> s[i].id != d.id ==> r[i] == s[i]
    ensures forall i :: 0 <= i < |s| ==> s[i].id == d.id ==> r[i] == Merge(s[i], d)
    decreases |s|
  {
    if |s| == 0 then []
    else [if s[0].id == d.id then Merge(s[0], d) else s[0]] + MergeInto(s[1..], d)
  }

  /** The list `updateItem(itemData)` leaves: merge first, then commit the counter into the first active record. */
  function UpdatedList(s: seq<Activity>, d: ItemData, counter: int): (r: seq<Activity>)
    ensures |r| == |s|
    ensures forall i :: 0 <= i < |s| ==> r[i].id == s[i].id
    ensures forall i :: 0 <= i < |s| ==>
      r[i].isActive == (if s[i].id == d.id then d.isActive.GetOr(s[i].isActive) else s[i].isActive)
    ensures forall i :: 0 <= i < |s| ==>
      r[i].title == (if s[i].id == d.id then d.title.GetOr(s[i].title) else s[i].title)
  {
    CommitTime(MergeInto(s, d), counter)
  }

  /**
   * `updateItem` keeps the length, the ids and the order; the records with the
   * edit's id are merged, the others are unchanged, except that the first
   * record active after the merge then takes the counter as its time.
   */
  lemma UpdateItemShape(s: seq<Activity>, d: ItemData, counter: int)
    ensures |UpdatedList(s, d, counter)| == |s|
    ensures forall i :: 0 <= i < |s| ==> UpdatedList(s, d, counter)[i].id == s[i].id
    ensures forall i :: 0 <= i < |s| && ActiveIndex(MergeInto(s, d)) != Some(i) ==>
      UpdatedList(s, d, counter)[i] == if s[i].id == d.id then Merge(s[i], d) else s[i]
    ensures forall i :: 0 <= i < |s| && ActiveIndex(MergeInto(s, d)) == Some(i) ==>
      UpdatedList(s, d, counter)[i] == (if s[i].id == d.id then Merge(s[i], d) else s[i]).(time := counter)
  {
  }

  /**
   * The commit runs after the merge, so a `time` carried by an edit of the
   * record that stays active is overwritten by the counter.
   */
  lemma UpdateItemOverridesTimeEdit(s: seq<Activity>, d: ItemData, counter: int, k: nat)
    requires k < |s| && s[k].id == d.id && ActiveIndex(MergeInto(s, d)) == Some(k)
    ensures UpdatedList(s, d, counter)[k].time == counter
  {
  }

  /**
   * An edit that switches on a record while nothing is active makes the first
   * record with the edit's id the active one and commits the counter into it,
   * whatever time it had stored or the edit carried. The screen's counter is 0
   * when nothing is active, so such an edit resets the record's time to 0.
   */
  lemma UpdateItemSwitchOnCommitsCounter(s: seq<Activity>, d: ItemData, counter: int, k: nat)
    requires ActiveIndex(s).None?
    requires d.isActive == Some(true)
    requires IndexOfId(s, d.id) == Some(k)
    ensures ActiveIndex(UpdatedList(s, d, counter)) == Some(k)
    ensures UpdatedList(s, d, counter)[k].time == counter
  {
    var m := MergeInto(s, d);
    assert m[k].isActive;
    forall j | 0 <= j < k ensures !m[j].isActive {
      assert s[j].id != d.id;
    }
    assert ActiveIndex(m) == Some(k);
    CommitTimeKeepsActive(m, counter);
  }

  /**
   * Appending an active record to a list that already has an active record
   * breaks the at-most-one-active invariant: `addItem` does not keep it on its own.
   */
  lemma AddItemCanAddSecondActive(s: seq<Activity>, newItem: Activity)
    requires ActiveItem(s).Some? && newItem.isActive
    ensures !AtMostOneActive(s + [newItem])
  {
    ActiveIndexAppend(s, [newItem]);
    assert (s + [newItem])[|s|].isActive;
  }

  /** The same happens with unique ids: a one-record list and a second active record. */
  lemma AddItemSecondActiveExample()
    ensures var s := [Activity("a", "A", 0, true)];
            var t := s + [Activity("b", "B", 0, true)];
            UniqueIds(t) && AtMostOneActive(s) && !AtMostOneActive(t)
  {
    var s := [Activity("a", "A", 0, true)];
    var t := s + [Activity("b", "B", 0, true)];
    assert ActiveIndex(t) == Some(0);
    assert t[0].id == "a" && t[1].id == "b";
    assert "a" != "b" by { assert "a"[0] != "b"[0]; }
    assert IndexOfId(t, "a") == Some(0);
    assert IndexOfId(t, "b") == Some(1);
    assert t[1].isActive;
  }

  /**
   * An edit whose id no record carries is no no-op: the merge keeps every
   * record, but the counter is still committed into the first active record.
   */
  lemma UpdateItemAbsentIdCommits(s: seq<Activity>, d: ItemData, counter: int)
    requires IndexOfId(s, d.id).None?
    ensures UpdatedList(s, d, counter) == CommitTime(s, counter)
  {
    assert MergeInto(s, d) == s;
  }

  /** An edit that does not switch a record on keeps the at-most-one-active invariant. */
  lemma UpdateItemKeepsAtMostOneActive(s: seq<Activity>, d: ItemData, counter: int)
    requires AtMostOneActive(s)
    requires d.isActive != Some(true)
    ensures AtMostOneActive(UpdatedList(s, d, counter))
  {
    var m := MergeInto(s, d);
    var r := UpdatedList(s, d, counter);
    forall i | 0 <= i < |r| && r[i].isActive
      ensures s[i].isActive
    {
      assert m[i].isActive;
    }
  }

  // ---------------------------------------------------------------------------
  // deleteItem

  /** The `filter` of `deleteItem`: every record whose id differs from `id`, in their original order. */
  function Without(s: seq<Activity>, id: string): (r: seq<Activity>)
    ensures |r| <= |s|
    ensures forall a :: a in r <==> a in s && a.id != id
    decreases |s|
  {
    if |s| == 0 then []
    else if s[0].id != id then [s[0]] + Without(s[1..], id)
    else Without(s[1..], id)
  }

  /** The filter distributes over concatenation: the kept records stay in their relative order. */
  lemma {:induction false} WithoutAppend(s: seq<Activity>, t: seq<Activity>, id: string)
    ensures Without(s + t, id) == Without(s, id) + Without(t, id)
    decreases |s|
  {
    if |s| == 0 {
      assert s + t == t;
    } else {
      assert (s + t)[0] == s[0];
      assert (s + t)[1..] == s[1..] + t;
      WithoutAppend(s[1..], t, id);
    }
  }

  /** Deleting an id no record carries leaves the list as it is (a stale delete is a no-op). */
  lemma {:induction false} WithoutAbsent(s: seq<Activity>, id: string)
    requires forall i :: 0 <= i < |s| ==> s[i].id != id
    ensures Without(s, id) == s
    decreases |s|
  {
    if |s| > 0 {
      WithoutAbsent(s[1..], id);
      assert [s[0]] + s[1..] == s;
    }
  }

  /** Deleting the same id twice leaves what deleting it once leaves. */
  lemma WithoutIdempotent(s: seq<Activity>, id: string)
    ensures Without(Without(s, id), id) == Without(s, id)
  {
    var r := Without(s, id);
    forall i | 0 <= i < |r| ensures r[i].id != id {
      assert r[i] in r;
    }
    WithoutAbsent(r, id);
  }

  /** The active item of a list with one more record in front. */
  lemma ActiveItemCons(a: Activity, t: seq<Activity>)
    ensures ActiveItem([a] + t) == if a.isActive then Some(a) else ActiveItem(t)
  {
    ActiveIndexAppend([a], t);
  }

  /** Deleting a record that is not the active item keeps the same active item. */
  lemma {:induction false} WithoutKeepsActive(s: seq<Activity>, id: string)
    requires ActiveId(s) != Some(id)
    ensures ActiveItem(Without(s, id)) == ActiveItem(s)
    decreases |s|
  {
    if |s| > 0 {
      var rest := Without(s[1..], id);
      assert s == [s[0]] + s[1..];
      ActiveItemCons(s[0], s[1..]);
      if s[0].id != id {
        assert Without(s, id) == [s[0]] + rest;
        ActiveItemCons(s[0], rest);
      } else {
        assert Without(s, id) == rest;
      }
      if !s[0].isActive {
        WithoutKeepsActive(s[1..], id);
      }
    }
  }

  /** Deleting the active item, when it is the only one, leaves no active item. */
  lemma WithoutDropsActive(s: seq<Activity>, id: string)
    requires AtMostOneActive(s)
    requires ActiveId(s) == Some(id)
    ensures ActiveItem(Without(s, id)).None?
    ensures AtMostOneActive(Without(s, id))
  {
    var r := Without(s, id);
    var k := ActiveIndex(s).value;
    forall j | 0 <= j < |r| ensures !r[j].isActive {
      assert r[j] in r;
      var i :| 0 <= i < |s| && s[i] == r[j];
    }
  }

  /** The at-most-one-active invariant of a list with one more record in front. */
  lemma AtMostOneActiveCons(a: Activity, t: seq<Activity>)
    ensures AtMostOneActive([a] + t) <==>
      if a.isActive then ActiveItem(t).None? else AtMostOneActive(t)
  {
    var s := [a] + t;
    ActiveIndexAppend([a], t);
    if !a.isActive {
      if AtMostOneActive(s) {
        forall j | 0 <= j < |t| && t[j].isActive ensures ActiveIndex(t) == Some(j) {
          assert s[j + 1] == t[j];
        }
      }
      if AtMostOneActive(t) {
        forall j | 0 <= j < |s| && s[j].isActive ensures ActiveIndex(s) == Some(j) {
          assert t[j - 1] == s[j];
        }
      }
    } else if AtMostOneActive(s) {
      forall j | 0 <= j < |t| ensures !t[j].isActive {
        assert s[j + 1] == t[j];
      }
    }
  }

  /** Deleting any id keeps the at-most-one-active invariant. */
  lemma {:induction false} WithoutKeepsAtMostOneActive(s: seq<Activity>, id: string)
    requires AtMostOneActive(s)
    ensures AtMostOneActive(Without(s, id))
    decreases |s|
  {
    if |s| > 0 {
      var rest := Without(s[1..], id);
      assert s == [s[0]] + s[1..];
      AtMostOneActiveCons(s[0], s[1..]);
      if !s[0].isActive {
        WithoutKeepsAtMostOneActive(s[1..], id);
      }
      if s[0].id != id {
        assert Without(s, id) == [s[0]] + rest;
        AtMostOneActiveCons(s[0], rest);
      } else {
        assert Without(s, id) == rest;
      }
    }
  }
}
