/** The entry store and the two views derived from it: today's entry (possibly a blank
    skeleton) and the whole history sorted newest first. The store is the date-keyed
    record kept in local storage; here a map from day numbers to entries. */
module App {
  import opened Types
  import opened Sorting
  import DailyCommandCenter
  import Scoreboard

  /** Every entry is stored under its own date. */
  ghost predicate KeysMatchDates(entries: map<int, DailyEntry>)
  {
    forall k :: k in entries ==> entries[k].date == k
  }

  /** The blank entry shown for a day that has nothing stored yet. */
  function Skeleton(today: int): DailyEntry
  {
    DailyEntry(today, [], "", "")
  }

  /** `entries[todayDate] ?? skeleton`. */
  function TodayEntry(entries: map<int, DailyEntry>, today: int): (e: DailyEntry)
    ensures today in entries ==> e == entries[today]
    ensures today !in entries ==> e.date == today && e.tasks == [] && e.journal == "" && e.aiReflection == ""
  {
    if today in entries then entries[today] else Skeleton(today)
  }

  /** In a store whose entries sit under their own dates, today's entry is dated today. */
  lemma TodayEntryIsDatedToday(entries: map<int, DailyEntry>, today: int)
    requires KeysMatchDates(entries)
    ensures TodayEntry(entries, today).date == today
  {
  }

  /** The upsert `{ ...prev, [todayDate]: updated }`: today's key now holds `updated`, even if
      `updated` carries another date; no other key changes, at most one key is added, and a
      second upsert under the same key overwrites the first. */
  lemma UpsertLaws(entries: map<int, DailyEntry>, today: int, updated: DailyEntry, again: DailyEntry)
    ensures TodayEntry(entries[today := updated], today) == updated
    ensures entries[today := updated].Keys == entries.Keys + {today}
    ensures forall k :: k != today && k in entries ==> entries[today := updated][k] == entries[k]
    ensures |entries[today := updated]| <= |entries| + 1
    ensures entries[today := updated][today := again] == entries[today := again]
  {
    var m := entries[today := updated];
    assert m.Keys == entries.Keys + {today};
    if today in entries {
      assert m.Keys == entries.Keys;
    } else {
      assert |entries.Keys + {today}| == |entries.Keys| + 1;
    }
  }

  /** Upserting an entry dated today into a store of correctly keyed entries keeps every
      entry under its own date. */
  lemma UpsertKeepsKeysMatchingDates(entries: map<int, DailyEntry>, today: int, updated: DailyEntry)
    requires KeysMatchDates(entries) && updated.date == today
    ensures KeysMatchDates(entries[today := updated])
  {
  }

  // ---------------------------------------------------------------------------------------
  // `Object.values(entries)`. The order in which it lists the values (insertion order of the
  // keys) is not part of this model: the values are listed by descending key instead, which
  // only matters for the order of equal dates after the stable sort.

  lemma NonEmptyHasElement(keys: set<int>)
    requires keys != {}
    ensures exists x :: x in keys
  {
    if forall x :: x !in keys {
      assert false;
    }
  }

  ghost function MaxKey(keys: set<int>): (k: int)
    requires keys != {}
    ensures k in keys && forall j :: j in keys ==> j <= k
    decreases keys
  {
    NonEmptyHasElement(keys);
    var x :| x in keys;
    var rest := keys - {x};
    assert forall j :: j in keys ==> j == x || j in rest;
    if rest == {} then x
    else
      var r := MaxKey(rest);
      if x > r then x else r
  }

  /** The keys, largest first. */
  ghost function KeysDesc(keys: set<int>): (ks: seq<int>)
    ensures |ks| == |keys|
    ensures forall k :: k in keys <==> k in ks
    ensures forall i, j :: 0 <= i < j < |ks| ==> ks[i] > ks[j]
    decreases keys
  {
    if keys == {} then []
    else
      var k := MaxKey(keys);
      var rest := KeysDesc(keys - {k});
      KeysDescStep(keys, k, rest);
      [k] + rest
  }

  /** The step of `KeysDesc`: the largest key in front of the others, largest first. */
  lemma KeysDescStep(keys: set<int>, k: int, rest: seq<int>)
    requires k in keys && forall j :: j in keys ==> j <= k
    requires |rest| == |keys - {k}|
    requires forall j :: j in keys - {k} <==> j in rest
    requires forall i, j :: 0 <= i < j < |rest| ==> rest[i] > rest[j]
    ensures |[k] + rest| == |keys|
    ensures forall j :: j in keys <==> j in [k] + rest
    ensures forall i, j :: 0 <= i < j < |[k] + rest| ==> ([k] + rest)[i] > ([k] + rest)[j]
  {
    var ks := [k] + rest;
    assert |keys - {k}| == |keys| - 1;
    forall j ensures j in keys <==> j in ks {
      assert j in ks <==> j == k || j in rest;
    }
    forall i, j | 0 <= i < j < |ks| ensures ks[i] > ks[j] {
      assert ks[j] == rest[j - 1];
      assert rest[j - 1] in keys - {k};
      if i > 0 {
        assert ks[i] == rest[i - 1];
      }
    }
  }

  /** The stored values, one per key. */
  ghost function ValuesOf(entries: map<int, DailyEntry>): (vs: seq<DailyEntry>)
    ensures |vs| == |entries|
  {
    var ks := KeysDesc(entries.Keys);
    assert |entries.Keys| == |entries|;
    seq(|ks|, i requires 0 <= i < |ks| => entries[ks[i]])
  }

  /** `Object.values(entries).sort(newest first)`: exactly the stored values, each as often
      as it is stored, sorted by date, newest first. */
  ghost function AllEntries(entries: map<int, DailyEntry>): (r: seq<DailyEntry>)
    ensures |r| == |entries|
    ensures multiset(r) == multiset(ValuesOf(entries))
    ensures SortedDesc(r, EntryDate)
  {
    SortDesc(ValuesOf(entries), EntryDate)
  }

  /** Position `i` of the values holds the entry stored under the `i`-th largest key. */
  lemma ValuesOfAt(entries: map<int, DailyEntry>)
    ensures |KeysDesc(entries.Keys)| == |ValuesOf(entries)|
    ensures forall i :: 0 <= i < |ValuesOf(entries)| ==>
      KeysDesc(entries.Keys)[i] in entries && ValuesOf(entries)[i] == entries[KeysDesc(entries.Keys)[i]]
  {
    assert |entries.Keys| == |entries|;
  }

  /** In a correctly keyed store the values come out newest first with distinct dates, and
      every stored entry is among them. */
  lemma ValuesOfKeyedStore(entries: map<int, DailyEntry>)
    requires KeysMatchDates(entries)
    ensures forall i, j :: 0 <= i < j < |ValuesOf(entries)| ==> ValuesOf(entries)[i].date > ValuesOf(entries)[j].date
    ensures forall i :: 0 <= i < |ValuesOf(entries)| ==>
      ValuesOf(entries)[i].date in entries && entries[ValuesOf(entries)[i].date] == ValuesOf(entries)[i]
    ensures forall k :: k in entries ==> entries[k] in ValuesOf(entries)
  {
    var ks := KeysDesc(entries.Keys);
    var vs := ValuesOf(entries);
    ValuesOfAt(entries);
    assert forall i :: 0 <= i < |vs| ==> vs[i].date == ks[i];
    forall k | k in entries ensures entries[k] in vs {
      var i :| 0 <= i < |ks| && ks[i] == k;
      assert vs[i] == entries[k];
    }
  }

  /** In a correctly keyed store the history lists each stored entry once, dates strictly
      decreasing: the entry at each position is the one stored under its date, and every
      stored entry appears. */
  lemma AllEntriesOfKeyedStore(entries: map<int, DailyEntry>)
    requires KeysMatchDates(entries)
    ensures AllEntries(entries) == ValuesOf(entries)
    ensures forall i, j :: 0 <= i < j < |AllEntries(entries)| ==> AllEntries(entries)[i].date > AllEntries(entries)[j].date
    ensures forall i :: 0 <= i < |AllEntries(entries)| ==>
      AllEntries(entries)[i].date in entries && entries[AllEntries(entries)[i].date] == AllEntries(entries)[i]
    ensures forall k :: k in entries ==> entries[k] in AllEntries(entries)
  {
    var vs := ValuesOf(entries);
    ValuesOfKeyedStore(entries);
    assert SortedDesc(vs, EntryDate);
    SortOfSorted(vs, EntryDate);
  }

  /** Reading the history straight after an upsert finds exactly one entry dated today, the
      upserted one. */
  lemma UpsertThenAllEntries(entries: map<int, DailyEntry>, today: int, updated: DailyEntry)
    requires KeysMatchDates(entries) && updated.date == today
    ensures var r := AllEntries(entries[today := updated]);
      && updated in r
      && (forall i :: 0 <= i < |r| && r[i].date == today ==> r[i] == updated)
      && (forall i, j :: 0 <= i < j < |r| ==> r[i].date != r[j].date)
  {
    var m := entries[today := updated];
    UpsertKeepsKeysMatchingDates(entries, today, updated);
    AllEntriesOfKeyedStore(m);
    var r := AllEntries(m);
    assert m[today] == updated;
    assert updated in r;
    forall i | 0 <= i < |r| && r[i].date == today ensures r[i] == updated {
      assert m[r[i].date] == r[i];
    }
    forall i, j | 0 <= i < j < |r| ensures r[i].date != r[j].date {
      assert r[i].date > r[j].date;
    }
  }

  /** The scoreboard's streak over the history of a correctly keyed store with nothing dated
      after today: every day of the streak, counting back from today, is stored with a Done
      task, and the day just before it is not. */
  lemma StreakOfStore(entries: map<int, DailyEntry>, today: int)
    requires KeysMatchDates(entries)
    requires forall k :: k in entries ==> k <= today
    ensures var s := Scoreboard.Streak(AllEntries(entries), today);
      && (forall d :: today - s < d <= today ==> d in entries && Scoreboard.HasDone(entries[d].tasks))
      && !(today - s in entries && Scoreboard.HasDone(entries[today - s].tasks))
  {
    var r := AllEntries(entries);
    AllEntriesOfKeyedStore(entries);
    assert Scoreboard.DistinctDates(r);
    assert Scoreboard.NoneAfter(r, today);
    var s := Scoreboard.Streak(r, today);
    Scoreboard.StreakDaysCompleted(r, today);
    Scoreboard.StreakStopsAtFirstGap(r, today);
    forall d | today - s < d <= today ensures d in entries && Scoreboard.HasDone(entries[d].tasks) {
      CompletedOnStore(entries, d);
    }
    CompletedOnStore(entries, today - s);
  }

  /** "The first listed entry dated d has a Done task" is "the entry stored under d has one". */
  lemma CompletedOnStore(entries: map<int, DailyEntry>, d: int)
    requires KeysMatchDates(entries)
    ensures Scoreboard.CompletedOn(AllEntries(entries), d) <==> d in entries && Scoreboard.HasDone(entries[d].tasks)
  {
    var r := AllEntries(entries);
    AllEntriesOfKeyedStore(entries);
    if d in entries {
      var i :| 0 <= i < |r| && r[i] == entries[d];
      Scoreboard.CompletedOnDistinct(r, i);
    }
  }

  /** The store of the app. `Upsert` is its only writer; the two views above are functions
      of its contents, so reading them changes nothing. */
  class EntryStore {
    var entries: map<int, DailyEntry>

    /** Every entry sits under its own date. Upserting keeps this as long as the upserted
        entry is dated today, which is what the daily view sends. */
    ghost predicate Valid()
      reads this
    {
      KeysMatchDates(entries)
    }

    /** A fresh store: the empty record that local storage starts from. */
    constructor ()
      ensures entries == map[] && Valid()
    {
      entries := map[];
    }

    /** `handleUpdateTodayEntry`. The source stores `updated` under today's key whatever its
        date; the store stays correctly keyed when the entry is dated today. */
    method Upsert(today: int, updated: DailyEntry)
      modifies this
      ensures entries == old(entries)[today := updated]
      ensures old(Valid()) && updated.date == today ==> Valid()
    {
      if Valid() && updated.date == today {
        UpsertKeepsKeysMatchingDates(entries, today, updated);
      }
      entries := entries[today := updated];
    }

    /** The daily view wired to the store: it is shown today's entry, and whatever entry one
        of its actions sends to `onUpdate` is upserted under today's date. */
    method Interact(today: int, action: DailyCommandCenter.Action)
      requires Valid()
      modifies this
      ensures Valid()
      ensures match DailyCommandCenter.Handle(TodayEntry(old(entries), today), action)
        case None => entries == old(entries)
        case Some(e) => entries == old(entries)[today := e]
    {
      var sent := DailyCommandCenter.Handle(TodayEntry(entries, today), action);
      if sent.Some? {
        TodayEntryIsDatedToday(entries, today);
        Upsert(today, sent.value);
      }
    }
  }
}
