/**
 * ui.go: the earlier terminal UI. Its state and its key handling are those
 * of tui.go (the Tui class); its data case differs in one check: a reading
 * whose counter equals that of the newest reading already stored for its key
 * is skipped.
 */
module Ui {
  import opened Data
  import opened Tui
  import Scanner

  /** The newest stored reading repeats the incoming counter. */
  predicate Repeats(histories: map<string, seq<ParasiteData>>, d: ParasiteData) {
    && d.key in histories && histories[d.key] != []
    && histories[d.key][|histories[d.key]| - 1].counter == d.counter
  }

  /** One reading handed to the data case: skipped when it repeats, else appended to its key's history. */
  function Step(histories: map<string, seq<ParasiteData>>, d: ParasiteData): (r: map<string, seq<ParasiteData>>)
    ensures Repeats(histories, d) ==> r == histories
    ensures !Repeats(histories, d) ==>
      && r.Keys == histories.Keys + {d.key}
      && r[d.key] == (if d.key in histories then histories[d.key] else []) + [d]
      && forall k :: k in histories && k != d.key ==> r[k] == histories[k]
  {
    if Repeats(histories, d) then histories
    else if d.key in histories then histories[d.key := histories[d.key] + [d]]
    else histories[d.key := [d]]
  }

  /** The histories after a run of readings, starting from an empty DB. */
  function Stored(s: seq<ParasiteData>): map<string, seq<ParasiteData>>
  {
    if s == [] then map[] else Step(Stored(s[..|s| - 1]), s[|s| - 1])
  }

  /** No stored history holds two neighbouring readings with the same counter. */
  ghost predicate NoRepeatedCounters(histories: map<string, seq<ParasiteData>>) {
    forall k, i :: k in histories && 0 < i < |histories[k]| ==>
      histories[k][i].counter != histories[k][i - 1].counter
  }

  lemma StepKeepsNoRepeatedCounters(histories: map<string, seq<ParasiteData>>, d: ParasiteData)
    requires NoRepeatedCounters(histories)
    ensures NoRepeatedCounters(Step(histories, d))
  {
    var r: map<string, seq<ParasiteData>> := Step(histories, d);
    forall k: string, i: int | k in r && 0 < i < |r[k]|
      ensures r[k][i].counter != r[k][i - 1].counter
    {
      if k == d.key && !Repeats(histories, d) && i == |r[k]| - 1 {
        assert r[k][i] == d;
      }
    }
  }

  /**
   * After any run, every stored history is non-empty, ends with the counter
   * the scanner's table holds for that key, and covers the same keys.
   */
  lemma {:induction false} StoredFollowsScanner(s: seq<ParasiteData>)
    ensures Stored(s).Keys == Scanner.Replay(s).Keys
    ensures forall k :: k in Stored(s) ==>
      Stored(s)[k] != [] && Stored(s)[k][|Stored(s)[k]| - 1].counter == Scanner.Replay(s)[k]
  {
    if s != [] {
      StoredFollowsScanner(s[..|s| - 1]);
    }
  }

  /** On the same run of readings, ui.go skips a reading exactly when the scanner's deduplication drops it. */
  lemma SameDecisionAsScanner(s: seq<ParasiteData>, d: ParasiteData)
    ensures Repeats(Stored(s), d) <==> Scanner.IsDuplicate(Scanner.Replay(s), d)
  {
    StoredFollowsScanner(s);
    var m := Stored(s);
    var last := Scanner.Replay(s);
    if d.key in m {
      var h := m[d.key];
      assert h != [] && h[|h| - 1].counter == last[d.key];
    } else {
      assert d.key !in last;
    }
  }

  /** Replaying only the emitted readings gives the scanner's counter map: a dropped reading changes nothing. */
  lemma {:induction false} ReplayOfEmitted(parsed: seq<ParasiteData>)
    ensures Scanner.Replay(Scanner.Emitted(parsed)) == Scanner.Replay(parsed)
  {
    if parsed != [] {
      var before := parsed[..|parsed| - 1];
      var d := parsed[|parsed| - 1];
      ReplayOfEmitted(before);
      var e := Scanner.Emitted(before);
      var m := Scanner.Replay(before);
      assert Scanner.Replay(parsed) == m[d.key := d.counter];
      if Scanner.IsDuplicate(m, d) {
        assert Scanner.Emitted(parsed) == e + [] == e;
        RecordAgain(m, d);
      } else {
        assert Scanner.Emitted(parsed) == e + [d];
        assert (e + [d])[..|e|] == e;
      }
    }
  }

  /** Recording the counter a key already has leaves the map as it was. */
  lemma RecordAgain(m: map<string, int>, d: ParasiteData)
    requires Scanner.IsDuplicate(m, d)
    ensures m[d.key := d.counter] == m
  {
  }

  /**
   * Behind the scanner, ui.go's check never fires: a reading the scanner
   * sends on does not repeat the newest counter stored for its key.
   */
  lemma NeverFiresBehindScanner(parsed: seq<ParasiteData>, d: ParasiteData)
    requires !Scanner.IsDuplicate(Scanner.Replay(parsed), d)
    ensures !Repeats(Stored(Scanner.Emitted(parsed)), d)
  {
    ReplayOfEmitted(parsed);
    SameDecisionAsScanner(Scanner.Emitted(parsed), d);
  }

  /** A run of readings leaves no history with a repeated neighbouring counter. */
  lemma {:induction false} StoredHasNoRepeatedCounters(s: seq<ParasiteData>)
    ensures NoRepeatedCounters(Stored(s))
  {
    if s != [] {
      StoredHasNoRepeatedCounters(s[..|s| - 1]);
      StepKeepsNoRepeatedCounters(Stored(s[..|s| - 1]), s[|s| - 1]);
    }
  }

  /** The `data := <-tui.dataChan` case of ui.go's Run, without the redraw. */
  method OnData(t: Tui, data: ParasiteData) returns (stored: bool)
    requires t.Valid()
    modifies t.Repr
    ensures t.Valid() && fresh(t.Repr - old(t.Repr))
    ensures stored <==> !Repeats(old(t.histories), data)
    ensures t.histories == Step(old(t.histories), data)
    ensures !stored ==> t.seenKeys == old(t.seenKeys) && t.selectedKeyIndex == old(t.selectedKeyIndex)
    ensures stored ==>
      && t.seenKeys == (if data.key in old(t.db) then old(t.seenKeys) else old(t.seenKeys) + [data.key])
      && t.selectedKeyIndex == (if old(t.selectedKeyIndex) == -1 then 0 else old(t.selectedKeyIndex))
  {
    if data.key in t.db {
      var newest := t.db[data.key].Newest();
      assert newest.value == t.histories[data.key][|t.histories[data.key]| - 1];
      if newest.value.counter == data.counter {
        return false;
      }
    }
    assert !Repeats(t.histories, data);
    t.OnData(data);
    stored := true;
  }
}
