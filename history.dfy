/**
 * The per-device bounded history shared by tui.go and ui.go: a 1000-slot
 * container/ring per key, whose stored pointer is the write cursor, and
 * plotRecentData, which reads a window of it.
 */
module History {
  import opened Wrappers
  import opened Data

  /** kRingSize. */
  const RingSize := 1000

  function Min(a: int, b: int): int { if a <= b then a else b }

  /** The most recent min(n, |h|) elements of h, oldest first. */
  function Recent<T>(h: seq<T>, n: nat): (r: seq<T>)
    ensures |r| == Min(n, |h|)
  {
    if |h| <= n then h else h[|h| - n..]
  }

  /** The recent window is a suffix: it ends with the newest element and keeps the order. */
  lemma RecentIsSuffix<T>(h: seq<T>, n: nat)
    ensures h == h[..|h| - Min(n, |h|)] + Recent(h, n)
  {
  }

  /** Keeping the last b of the last a is keeping the last min(a, b). */
  lemma RecentOfRecent<T>(h: seq<T>, a: nat, b: nat)
    ensures Recent(Recent(h, a), b) == Recent(h, Min(a, b))
  {
  }

  /** A run of empty slots. */
  function Blanks(n: nat): (r: seq<Option<ParasiteData>>)
    ensures |r| == n && forall i :: 0 <= i < n ==> r[i] == None
  {
    seq(n, _ => None)
  }

  /** Slots holding the given readings, in order. */
  function Filled(h: seq<ParasiteData>): (r: seq<Option<ParasiteData>>)
    ensures |r| == |h| && forall i :: 0 <= i < |h| ==> r[i] == Some(h[i])
  {
    seq(|h|, i requires 0 <= i < |h| => Some(h[i]))
  }

  /** The readings held by a run of slots, skipping the empty ones (`p.Value != nil`). */
  function Present(slots: seq<Option<ParasiteData>>): seq<ParasiteData>
  {
    if slots == [] then []
    else
      var rest := Present(slots[..|slots| - 1]);
      match slots[|slots| - 1]
      case None => rest
      case Some(d) => rest + [d]
  }

  lemma {:induction false} PresentAppend(a: seq<Option<ParasiteData>>, b: seq<Option<ParasiteData>>)
    ensures Present(a + b) == Present(a) + Present(b)
  {
    if b != [] {
      var b' := b[..|b| - 1];
      assert (a + b)[..|a + b| - 1] == a + b';
      PresentAppend(a, b');
    } else {
      assert a + b == a;
    }
  }

  lemma {:induction false} PresentBlanks(n: nat)
    ensures Present(Blanks(n)) == []
  {
    if n > 0 {
      assert Blanks(n)[..n - 1] == Blanks(n - 1);
      PresentBlanks(n - 1);
    }
  }

  lemma {:induction false} PresentFilled(h: seq<ParasiteData>)
    ensures Present(Filled(h)) == h
  {
    if h != [] {
      var h' := h[..|h| - 1];
      assert Filled(h)[..|h| - 1] == Filled(h');
      PresentFilled(h');
    }
  }

  /**
   * The slots of a ring read from the cursor onwards, after the readings h
   * were written into a fresh ring: empty slots first, then the last
   * RingSize readings, oldest first.
   */
  function Layout(h: seq<ParasiteData>): (l: seq<Option<ParasiteData>>)
    ensures |l| == RingSize
  {
    var w := Recent(h, RingSize);
    Blanks(RingSize - |w|) + Filled(w)
  }

  /** Collecting one more slot adds its reading, if it holds one. */
  lemma PresentExtend(o: seq<Option<ParasiteData>>, i: nat)
    requires 1 <= i < |o|
    ensures Present(o[1..i + 1]) == Present(o[1..i]) + if o[i].Some? then [o[i].value] else []
  {
    assert o[1..i + 1][..i - 1] == o[1..i];
  }

  /** Writing a reading at the cursor and stepping forward drops the oldest slot and adds the new one last. */
  lemma LayoutAppend(h: seq<ParasiteData>, d: ParasiteData)
    ensures Layout(h + [d]) == Layout(h)[1..] + [Some(d)]
  {
    var w, w' := Recent(h, RingSize), Recent(h + [d], RingSize);
    if |h| < RingSize {
      assert w == h && w' == h + [d];
    } else {
      assert w' == w[1..] + [d];
    }
    var l, l' := Layout(h), Layout(h + [d]);
    forall i | 0 <= i < RingSize
      ensures l'[i] == (l[1..] + [Some(d)])[i]
    {
    }
  }

  /** A ring holds the last RingSize readings, oldest first: never more than RingSize. */
  lemma LayoutHoldsRecent(h: seq<ParasiteData>)
    ensures Present(Layout(h)) == Recent(h, RingSize)
  {
    var w := Recent(h, RingSize);
    PresentOfParts(RingSize - |w|, w);
  }

  /** The readings of a layout are its filled part. */
  lemma PresentOfParts(n: nat, w: seq<ParasiteData>)
    ensures Present(Blanks(n) + Filled(w)) == w
  {
    PresentAppend(Blanks(n), Filled(w));
    PresentBlanks(n);
    PresentFilled(w);
  }

  lemma DropBlank(n: nat, w: seq<ParasiteData>)
    ensures (Blanks(n + 1) + Filled(w))[1..] == Blanks(n) + Filled(w)
  {
    assert Blanks(n + 1) == [None] + Blanks(n);
  }

  lemma DropFilled(w: seq<ParasiteData>)
    requires w != []
    ensures Filled(w)[1..] == Filled(w[1..])
  {
  }

  /** Skipping the cursor slot leaves the last RingSize - 1 readings, oldest first. */
  lemma LayoutTailHoldsRecent(h: seq<ParasiteData>)
    ensures Present(Layout(h)[1..]) == Recent(h, RingSize - 1)
  {
    var w := Recent(h, RingSize);
    if |w| < RingSize {
      DropBlank(RingSize - |w| - 1, w);
      PresentOfParts(RingSize - |w| - 1, w);
    } else {
      assert Layout(h) == Filled(w);
      DropFilled(w);
      PresentFilled(w[1..]);
    }
  }

  /** The slot just before the cursor holds the newest reading. */
  lemma LayoutLast(h: seq<ParasiteData>)
    ensures Layout(h)[RingSize - 1] == if h == [] then None else Some(h[|h| - 1])
  {
    var w := Recent(h, RingSize);
    var l := Layout(h);
    if h == [] {
      assert w == [];
      assert l == Blanks(RingSize);
    } else {
      assert |w| >= 1 && w[|w| - 1] == h[|h| - 1];
      assert l[RingSize - 1] == Filled(w)[|w| - 1];
    }
  }

  /** ring.Next on slot indices. */
  function Next(i: nat): (j: nat)
    requires i < RingSize
    ensures j < RingSize && j == (i + 1) % RingSize
  {
    if i + 1 == RingSize then 0 else i + 1
  }

  /** ring.Prev on slot indices. */
  function Prev(i: nat): (j: nat)
    requires i < RingSize
    ensures j < RingSize && Next(j) == i
  {
    if i == 0 then RingSize - 1 else i - 1
  }

  /** The last element of a rotation is the one just before the rotation point. */
  lemma RotationLast<T>(s: seq<T>, c: nat)
    requires c < |s|
    ensures (s[c..] + s[..c])[|s| - 1] == s[if c == 0 then |s| - 1 else c - 1]
  {
  }

  /**
   * One device's container/ring of RingSize slots. `cursor` is the slot the
   * DB entry points at: the next one to be written.
   */
  class Ring {
    /** The ring's elements' `Value`s, by position; None is a nil Value. */
    var slots: seq<Option<ParasiteData>>
    var cursor: nat
    /** Every reading ever written into this ring, oldest first. */
    ghost var history: seq<ParasiteData>

    /** The slots in ring order, starting at the cursor. */
    ghost function Ordered(): seq<Option<ParasiteData>>
      reads this
      requires cursor <= |slots|
    {
      slots[cursor..] + slots[..cursor]
    }

    ghost predicate Valid()
      reads this
    {
      && |slots| == RingSize && cursor < RingSize
      && forall j :: 0 <= j < RingSize ==> Ordered()[j] == Layout(history)[j]
    }

    /** ring.New(kRingSize): RingSize empty slots. */
    constructor ()
      ensures Valid() && history == [] && cursor == 0
    {
      slots := Blanks(RingSize);
      cursor := 0;
      history := [];
      new;
      assert Ordered() == slots == Blanks(RingSize);
      assert Ordered() == Layout(history);
    }

    /** `r.Value = data` then the DB keeps `r.Next()`. */
    method Put(d: ParasiteData)
      requires Valid()
      modifies this
      ensures Valid()
      ensures history == old(history) + [d]
      ensures slots == old(slots)[old(cursor) := Some(d)] && cursor == Next(old(cursor))
    {
      assert Ordered() == Layout(history);
      ghost var before := Ordered();
      ghost var s := slots;
      var c := cursor;
      slots := slots[c := Some(d)];
      cursor := Next(c);
      history := history + [d];
      assert before == [s[c]] + s[c + 1..] + s[..c];
      if c + 1 == RingSize {
        assert Ordered() == s[..c] + [Some(d)];
      } else {
        assert slots[c + 1..] == s[c + 1..];
        assert slots[..c + 1] == s[..c] + [Some(d)];
      }
      assert Ordered() == before[1..] + [Some(d)];
      LayoutAppend(old(history), d);
      assert Ordered() == Layout(history);
    }

    /** The slot before the cursor holds the last reading written, if any. */
    lemma NewestSlot()
      requires Valid()
      ensures slots[Prev(cursor)] == if history == [] then None else Some(history[|history| - 1])
    {
      assert Ordered() == Layout(history);
      LayoutLast(history);
      RotationLast(slots, cursor);
    }

    /** `r.Prev().Value`: the newest reading, nil for a ring never written. */
    function Newest(): (v: Option<ParasiteData>)
      reads this
      requires Valid()
      ensures history == [] ==> v == None
      ensures history != [] ==> v == Some(history[|history| - 1])
    {
      NewestSlot();
      slots[Prev(cursor)]
    }

    /** The collecting loop of plotRecentData: every filled slot from the one after the cursor round to the one before it. */
    method Collect() returns (serie: seq<ParasiteData>)
      requires Valid()
      ensures serie == Recent(history, RingSize - 1)
    {
      ghost var o := Ordered();
      assert o == Layout(history);
      serie := [];
      var p := Next(cursor);
      ghost var steps := 1;
      while p != cursor
        invariant 1 <= steps <= RingSize
        invariant p == if cursor + steps < RingSize then cursor + steps else cursor + steps - RingSize
        invariant serie == Present(o[1..steps])
        decreases RingSize - steps
      {
        assert o[steps] == slots[p];
        PresentExtend(o, steps);
        if slots[p] != None {
          serie := serie + [slots[p].value];
        }
        p := Next(p);
        steps := steps + 1;
      }
      assert steps == RingSize;
      assert o[1..steps] == Layout(history)[1..];
      LayoutTailHoldsRecent(history);
    }
  }

  /**
   * plotRecentData: of the collected series, the last `width - 5` points
   * (all of them when fewer), where `width` is the plot's inner width. A
   * width under 5 makes the source slice out of range.
   */
  method PlotRecentData(r: Ring, width: int) returns (serie: seq<ParasiteData>)
    requires r.Valid()
    requires width - 5 >= 0
    ensures serie == Recent(r.history, Min(RingSize - 1, width - 5))
  {
    var all := r.Collect();
    var serieLen := |all|;
    var nPoints := width - 5;
    if nPoints >= serieLen {
      nPoints := serieLen;
    }
    serie := all[serieLen - nPoints..serieLen];
    RecentOfRecent(r.history, RingSize - 1, width - 5);
  }

  /** The loop over seenKeys in Run's data case: is the key already listed? */
  method SeenBefore(keys: seq<string>, key: string) returns (found: bool)
    ensures found <==> key in keys
  {
    found := false;
    for i := 0 to |keys|
      invariant found <==> key in keys[..i]
    {
      if key == keys[i] {
        found := true;
      }
    }
    assert keys[..|keys|] == keys;
  }

  /** No key listed twice. */
  ghost predicate NoDuplicates(keys: seq<string>) {
    forall i, j :: 0 <= i < j < |keys| ==> keys[i] != keys[j]
  }
}
