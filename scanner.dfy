/**
 * The scan callback of ParasiteScanner.Run (ble.go): address-prefix filter,
 * parsing, and deduplication on the wrap-around counter.
 */
module Scanner {
  import opened Wrappers
  import opened Ascii
  import opened Data
  import opened Ble

  /** A reading repeats the counter last recorded for its key. */
  predicate IsDuplicate(last: map<string, int>, d: ParasiteData) {
    d.key in last && last[d.key] == d.counter
  }

  /** The counter map after a run of parsed readings, starting from the empty map. */
  function Replay(parsed: seq<ParasiteData>): map<string, int>
  {
    if parsed == [] then map[]
    else
      var d := parsed[|parsed| - 1];
      Replay(parsed[..|parsed| - 1])[d.key := d.counter]
  }

  /** The readings of a run that the deduplicator lets through, in order. */
  function Emitted(parsed: seq<ParasiteData>): seq<ParasiteData>
  {
    if parsed == [] then []
    else
      var before := parsed[..|parsed| - 1];
      var d := parsed[|parsed| - 1];
      Emitted(before) + if IsDuplicate(Replay(before), d) then [] else [d]
  }

  /** Reference definition: the counter of the latest reading for `key` in `parsed`, if any. */
  function PreviousCounter(parsed: seq<ParasiteData>, key: string): Option<int>
  {
    if parsed == [] then None
    else if parsed[|parsed| - 1].key == key then Some(parsed[|parsed| - 1].counter)
    else PreviousCounter(parsed[..|parsed| - 1], key)
  }

  /** The counter map holds, for every key, the counter of that key's latest reading. */
  lemma {:induction false} ReplayIsPreviousCounter(parsed: seq<ParasiteData>, key: string)
    ensures key in Replay(parsed) <==> PreviousCounter(parsed, key).Some?
    ensures key in Replay(parsed) ==> Replay(parsed)[key] == PreviousCounter(parsed, key).value
  {
    if parsed != [] {
      ReplayIsPreviousCounter(parsed[..|parsed| - 1], key);
    }
  }

  /**
   * A reading is let through exactly when it is its key's first reading or
   * its counter differs from that of its key's previous reading; readings of
   * other keys in between do not matter.
   */
  lemma DedupAcceptsChangedCounters(parsed: seq<ParasiteData>, i: nat)
    requires i < |parsed|
    ensures !IsDuplicate(Replay(parsed[..i]), parsed[i]) <==>
            PreviousCounter(parsed[..i], parsed[i].key) != Some(parsed[i].counter)
  {
    ReplayIsPreviousCounter(parsed[..i], parsed[i].key);
  }

  /** For one device: accepted exactly at position 0 and where the counter changed. */
  lemma SingleDeviceDedup(parsed: seq<ParasiteData>, i: nat)
    requires i < |parsed|
    requires forall j :: 0 <= j < |parsed| ==> parsed[j].key == parsed[i].key
    ensures !IsDuplicate(Replay(parsed[..i]), parsed[i]) <==>
            (i == 0 || parsed[i].counter != parsed[i - 1].counter)
  {
    DedupAcceptsChangedCounters(parsed, i);
    if i > 0 {
      assert parsed[..i][i - 1] == parsed[i - 1];
    }
  }

  /** Deduplication only removes: no more readings come out than went in, and each one that comes out went in. */
  lemma {:induction false} EmittedLength(parsed: seq<ParasiteData>)
    ensures |Emitted(parsed)| <= |parsed|
    ensures forall d :: d in Emitted(parsed) ==> d in parsed
  {
    if parsed != [] {
      EmittedLength(parsed[..|parsed| - 1]);
    }
  }

  /** Consecutive values of a counter taken modulo 16 always differ. */
  lemma NextModDiffers(n: nat)
    requires n > 0
    ensures n % 16 != (n - 1) % 16
  {
    var r := (n - 1) % 16;
    assert n - 1 == (n - 1) / 16 * 16 + r;
    if r < 15 {
      assert n == (n - 1) / 16 * 16 + (r + 1);
    } else {
      assert n == ((n - 1) / 16 + 1) * 16;
    }
  }

  /** One device, counting 0, 1, ..., 15, 0, 1, ... */
  ghost predicate Cycling(parsed: seq<ParasiteData>) {
    && (forall j :: 0 <= j < |parsed| ==> parsed[j].key == parsed[0].key)
    && (forall j :: 0 <= j < |parsed| ==> parsed[j].counter == j % 16)
  }

  /** Each reading of a cycling device, after the first, changes the counter. */
  lemma CyclingAccepted(parsed: seq<ParasiteData>)
    requires Cycling(parsed) && parsed != []
    ensures Cycling(parsed[..|parsed| - 1])
    ensures !IsDuplicate(Replay(parsed[..|parsed| - 1]), parsed[|parsed| - 1])
  {
    var n := |parsed| - 1;
    assert forall j :: 0 <= j < n ==> parsed[..n][j] == parsed[j];
    if n > 0 {
      NextModDiffers(n);
    }
    SingleDeviceDedup(parsed, n);
  }

  /** A device cycling its counter 0, 1, ..., 15, 0, 1, ... has every broadcast emitted. */
  lemma {:induction false} WrappingCounterNeverDropped(parsed: seq<ParasiteData>)
    requires Cycling(parsed)
    ensures Emitted(parsed) == parsed
  {
    if parsed != [] {
      var n := |parsed| - 1;
      CyclingAccepted(parsed);
      WrappingCounterNeverDropped(parsed[..n]);
      assert parsed[..n] + [parsed[n]] == parsed;
    }
  }

  /** What the callback did with one advertisement. */
  datatype ScanOutcome =
    | Filtered                          // address does not carry the vendor prefix
    | Rejected(error: ParseError)       // parsing failed; logged and dropped
    | Dropped(reading: ParasiteData)    // same counter as last time for this key
    | Sent(reading: ParasiteData)       // handed to the subscribers

  class ParasiteScanner {
    const cfg: BleConfig
    /** The last counter accepted for each device key. */
    var lastCounter: map<string, int>
    /** Every reading that passed the filter and the parser, in arrival order. */
    ghost var parsed: seq<ParasiteData>
    /** Every reading sent on the channel, in order. */
    ghost var emitted: seq<ParasiteData>

    ghost predicate Valid()
      reads this
    {
      lastCounter == Replay(parsed) && emitted == Emitted(parsed)
    }

    /** MakeParasiteScanner. */
    constructor (cfg: BleConfig)
      ensures Valid()
      ensures this.cfg == cfg && lastCounter == map[] && parsed == [] && emitted == []
    {
      this.cfg := cfg;
      lastCounter := map[];
      parsed := [];
      emitted := [];
    }

    /** The callback handed to adapter.Scan, for one scan result. */
    method OnScanResult(sr: ScanResult) returns (outcome: ScanOutcome)
      requires Valid()
      modifies this
      ensures Valid()
      ensures !HasPrefix(sr.address, cfg.vendorPrefix) ==>
        outcome == Filtered &&
        lastCounter == old(lastCounter) && parsed == old(parsed) && emitted == old(emitted)
      ensures HasPrefix(sr.address, cfg.vendorPrefix) && ParseParasiteData(cfg, sr).Failure? ==>
        outcome == Rejected(ParseParasiteData(cfg, sr).error) &&
        lastCounter == old(lastCounter) && parsed == old(parsed) && emitted == old(emitted)
      ensures HasPrefix(sr.address, cfg.vendorPrefix) && ParseParasiteData(cfg, sr).Success? ==>
        var d := ParseParasiteData(cfg, sr).value;
        && parsed == old(parsed) + [d]
        && (IsDuplicate(old(lastCounter), d) ==>
              outcome == Dropped(d) && lastCounter == old(lastCounter) && emitted == old(emitted))
        && (!IsDuplicate(old(lastCounter), d) ==>
              outcome == Sent(d) && lastCounter == old(lastCounter)[d.key := d.counter] &&
              emitted == old(emitted) + [d])
    {
      if !HasPrefix(sr.address, cfg.vendorPrefix) {
        return Filtered;
      }
      var result := ParseParasiteData(cfg, sr);
      if result.Failure? {
        return Rejected(result.error);
      }
      var d := result.value;
      assert (parsed + [d])[..|parsed|] == parsed;
      parsed := parsed + [d];
      if d.key in lastCounter && lastCounter[d.key] == d.counter {
        return Dropped(d);
      }
      lastCounter := lastCounter[d.key := d.counter];
      emitted := emitted + [d];
      outcome := Sent(d);
    }
  }
}
