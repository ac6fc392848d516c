/**
 * The data side of the terminal UI in tui.go: a ring per device key, the
 * list of keys in first-seen order and the selected key. This variant stores
 * every reading it is given.
 */
module Tui {
  import opened Data
  import opened History

  class Tui {
    /** DB: one ring per device key. */
    var db: map<string, Ring>
    /** Device keys in the order their first reading arrived. */
    var seenKeys: seq<string>
    /** Index into seenKeys of the device shown; -1 before any data. */
    var selectedKeyIndex: int
    /** Every reading stored so far, per device key, oldest first. */
    ghost var histories: map<string, seq<ParasiteData>>
    ghost var Repr: set<object>

    /** Each key owns a valid, non-empty ring of its own, inside Repr. */
    ghost predicate RingsValid()
      reads this, Repr
    {
      && this in Repr
      && histories.Keys == db.Keys
      && (forall k :: k in db ==>
            && db[k] in Repr
            && db[k].Valid() && db[k].history == histories[k] != [])
      && (forall k, k' :: k in db && k' in db && k != k' ==>
            db[k] != db[k'])
    }

    /** seenKeys lists the keys of db once each; the selection is in range. */
    ghost predicate KeysValid()
      reads this
    {
      && NoDuplicates(seenKeys)
      && (forall k :: k in seenKeys <==> k in db)
      && (if seenKeys == [] then selectedKeyIndex == -1 else 0 <= selectedKeyIndex < |seenKeys|)
    }

    ghost predicate Valid()
      reads this, Repr
    {
      RingsValid() && KeysValid()
    }

    /** InitUI, without the widgets. */
    constructor ()
      ensures Valid() && fresh(Repr)
      ensures db == map[] && seenKeys == [] && selectedKeyIndex == -1
    {
      db := map[];
      seenKeys := [];
      selectedKeyIndex := -1;
      histories := map[];
      Repr := {this};
    }

    /** Append a reading to the ring of a key already in the DB. */
    method Extend(data: ParasiteData)
      requires RingsValid() && data.key in db
      modifies Repr
      ensures RingsValid() && Repr == old(Repr)
      ensures db == old(db)
      ensures histories == old(histories)[data.key := old(histories)[data.key] + [data]]
      ensures seenKeys == old(seenKeys) && selectedKeyIndex == old(selectedKeyIndex)
    {
      var r := db[data.key];
      r.Put(data);
      histories := histories[data.key := r.history];
      forall k | k in db
        ensures db[k].Valid() && db[k].history == histories[k]
      {
        if k != data.key {
          assert db[k] != r;
        }
      }
    }

    /** Store a ring of its own, already holding readings, under a key not yet in the DB. */
    method Adopt(key: string, r: Ring)
      requires RingsValid() && key !in db
      requires r.Valid() && r.history != [] && r !in Repr
      modifies this
      ensures RingsValid() && Repr == old(Repr) + {r}
      ensures db == old(db)[key := r] && histories == old(histories)[key := r.history]
      ensures seenKeys == old(seenKeys) && selectedKeyIndex == old(selectedKeyIndex)
    {
      Repr, db, histories := Repr + {r}, db[key := r], histories[key := r.history];
    }

    /** Give a key not yet in the DB a new ring holding its first reading. */
    method Insert(data: ParasiteData)
      requires RingsValid() && data.key !in db
      modifies this
      ensures RingsValid() && fresh(Repr - old(Repr))
      ensures db.Keys == old(db.Keys) + {data.key}
      ensures histories == old(histories)[data.key := [data]]
      ensures seenKeys == old(seenKeys) && selectedKeyIndex == old(selectedKeyIndex)
    {
      var r := new Ring();
      r.Put(data);
      assert r.history == [data];
      Adopt(data.key, r);
    }

    /** The `data := <-tui.dataChan` case of Run, without the redraw. */
    method OnData(data: ParasiteData)
      requires Valid()
      modifies Repr
      ensures Valid() && fresh(Repr - old(Repr))
      ensures db.Keys == old(db.Keys) + {data.key}
      ensures data.key in old(histories) ==>
                histories == old(histories)[data.key := old(histories)[data.key] + [data]]
      ensures data.key !in old(histories) ==> histories == old(histories)[data.key := [data]]
      ensures seenKeys == if data.key in old(db) then old(seenKeys) else old(seenKeys) + [data.key]
      ensures selectedKeyIndex == if old(selectedKeyIndex) == -1 then 0 else old(selectedKeyIndex)
    {
      // The key list, the selection and the ring touch separate state, so
      // updating the key list first leaves the same result as the source's order.
      var seen := SeenBefore(seenKeys, data.key);
      assert seen <==> data.key in db;
      if !seen {
        seenKeys := seenKeys + [data.key];
      }
      if selectedKeyIndex == -1 {
        selectedKeyIndex := 0;
      }
      if data.key in db {
        Extend(data);
      } else {
        Insert(data);
      }
    }

    /** Key `j`: select the next device, if there is one. */
    method SelectNext()
      requires Valid()
      modifies this`selectedKeyIndex
      ensures Valid()
      ensures selectedKeyIndex ==
        if old(selectedKeyIndex) < |seenKeys| - 1 then old(selectedKeyIndex) + 1 else old(selectedKeyIndex)
    {
      if selectedKeyIndex < |seenKeys| - 1 {
        selectedKeyIndex := selectedKeyIndex + 1;
      }
    }

    /** Key `k`: select the previous device, if there is one. */
    method SelectPrevious()
      requires Valid()
      modifies this`selectedKeyIndex
      ensures Valid()
      ensures selectedKeyIndex ==
        if old(selectedKeyIndex) > 0 then old(selectedKeyIndex) - 1 else old(selectedKeyIndex)
    {
      if selectedKeyIndex > 0 {
        selectedKeyIndex := selectedKeyIndex - 1;
      }
    }

    /**
     * refreshData without the drawing: the points plotted for the selected
     * device, and for the table the newest reading of every seen device.
     */
    method RefreshData(width: int) returns (serie: seq<ParasiteData>, rows: seq<ParasiteData>)
      requires Valid() && seenKeys != []
      requires width - 5 >= 0
      ensures serie == Recent(histories[seenKeys[selectedKeyIndex]], Min(RingSize - 1, width - 5))
      ensures |rows| == |seenKeys|
      ensures forall i :: 0 <= i < |seenKeys| ==>
        var h := histories[seenKeys[i]]; rows[i] == h[|h| - 1]
    {
      var r := db[seenKeys[selectedKeyIndex]];
      serie := PlotRecentData(r, width);
      rows := [];
      for i := 0 to |seenKeys|
        invariant |rows| == i
        invariant forall j :: 0 <= j < i ==>
          var h := histories[seenKeys[j]]; rows[j] == h[|h| - 1]
      {
        var last := db[seenKeys[i]].Newest();
        rows := rows + [last.value];
      }
    }
  }
}
