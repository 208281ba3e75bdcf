/**
 * The refresh gate `use_cache`: a per-file counter kept in a key-value store
 * that decides whether a cached calendar export may be served. On a fresh
 * key the first two calls are served from cache and the third is refused;
 * the refusal opens a new window that counts the refused call, so within the
 * hour the answers then alternate. An expired window allows the cache and
 * writes nothing.
 *
 * Each entry is the text "<timestamp>,<times>" stored under
 * "<prefix>:cal_tkn:<filename>". The clock (`int(time.time())`) is the
 * parameter `now`; the store is a map from keys to strings.
 */
module RefreshGate {
  import opened Common
  import opened DecimalText

  const SecondsInHour: int := 60 * 60

  /** The decoded form of a stored entry. */
  datatype Entry = Entry(timestamp: int, times: int)

  /** `use_cache` raises when the stored text is not two integers separated by one comma. */
  datatype GateError = MalformedEntry

  /** What one call of `use_cache` returns, and the entry it writes, if any. */
  datatype Outcome = Outcome(useCache: Result<bool, GateError>, written: Option<Entry>)

  /** The store key for an export file: `f"{prefix}:cal_tkn:{filename}"`. */
  function Key(prefix: string, filename: string): string {
    prefix + ":cal_tkn:" + filename
  }

  /** The text written for an entry: `f"{timestamp},{times}"`. */
  function Encode(e: Entry): string {
    IntToString(e.timestamp) + "," + IntToString(e.times)
  }

  /** `timestamp, times = map(int, r.split(","))`; `None` where Python raises `ValueError`. */
  function Decode(s: string): Option<Entry> {
    var parts := Split(s, ',');
    if |parts| != 2 then None
    else
      match (ParseInt(parts[0]), ParseInt(parts[1]))
      case (Some(ts), Some(n)) => Some(Entry(ts, n))
      case _ => None
  }

  /** Every entry `use_cache` writes reads back as itself. */
  lemma EncodeDecode(e: Entry)
    ensures Decode(Encode(e)) == Some(e)
  {
    SplitPair(IntToString(e.timestamp), IntToString(e.times), ',');
  }

  /** Distinct file names never share a store key (for a fixed prefix). */
  lemma KeyInjective(prefix: string, f1: string, f2: string)
    ensures Key(prefix, f1) == Key(prefix, f2) <==> f1 == f2
  {
    var n := |prefix + ":cal_tkn:"|;
    if Key(prefix, f1) == Key(prefix, f2) {
      assert f1 == Key(prefix, f1)[n..];
      assert f2 == Key(prefix, f2)[n..];
    }
  }

  /** What the read of the key gives: nothing usable, unparsable text, or an entry. */
  datatype Slot = Missing | Garbled | Holds(entry: Entry)

  /**
   * `r = redis.get(key)` followed by `if not r` and the parse: an absent key
   * and an empty value both count as missing.
   */
  function Classify(cur: Option<string>): Slot {
    if cur.None? || cur.value == "" then Missing
    else
      match Decode(cur.value)
      case None => Garbled
      case Some(e) => Holds(e)
  }

  /** The text the gate writes is read back as the entry it encodes. */
  lemma ClassifyEncode(e: Entry)
    ensures Classify(Some(Encode(e))) == Holds(e)
  {
    EncodeDecode(e);
  }

  /**
   * One call of `use_cache` on what was read: a missing entry starts a window
   * (`set_current`) and allows the cache; inside the window a count of one
   * restarts the window and refuses the cache, a larger count is decremented;
   * an expired window allows the cache and writes nothing.
   */
  function Advance(slot: Slot, now: int): Outcome {
    match slot
    case Missing => Outcome(Ok(true), Some(Entry(now, 2)))
    case Garbled => Outcome(Err(MalformedEntry), None)
    case Holds(e) =>
      if now - e.timestamp < SecondsInHour then
        if e.times - 1 == 0 then Outcome(Ok(false), Some(Entry(now, 2)))
        else Outcome(Ok(true), Some(Entry(e.timestamp, e.times - 1)))
      else Outcome(Ok(true), None)
  }

  /** What the next call reads after a call with outcome `o`. */
  function After(slot: Slot, o: Outcome): Slot {
    if o.written.Some? then Holds(o.written.value) else slot
  }

  /** The outcomes of successive calls for one file at the instants `nows`. */
  function Run(slot: Slot, nows: seq<int>): (outs: seq<Outcome>)
    ensures |outs| == |nows|
    decreases |nows|
  {
    if nows == [] then []
    else
      var o := Advance(slot, nows[0]);
      [o] + Run(After(slot, o), nows[1..])
  }

  /** An empty slot or one holding a count of 1 or 2, the only counts `use_cache` writes. */
  predicate SlotInRange(slot: Slot) {
    slot.Missing? || (slot.Holds? && 1 <= slot.entry.times <= 2)
  }

  /** Every gate entry in the store is empty or holds an in-range counter. */
  ghost predicate CountersInRange(prefix: string, store: map<string, string>) {
    forall f :: Key(prefix, f) in store ==> SlotInRange(Classify(Some(store[Key(prefix, f)])))
  }

  /** From an in-range slot a call never raises and leaves an in-range slot. */
  lemma AdvanceKeepsRange(slot: Slot, now: int)
    requires SlotInRange(slot)
    ensures Advance(slot, now).useCache.Ok?
    ensures SlotInRange(After(slot, Advance(slot, now)))
  {
  }

  /** A refusal always restarts the window at `now` with a count of two. */
  lemma RefusalRestartsWindow(slot: Slot, now: int)
    requires Advance(slot, now).useCache == Ok(false)
    ensures Advance(slot, now).written == Some(Entry(now, 2))
  {
  }

  /** After a refusal the next call allows the cache, whatever the clock says. */
  lemma RefusalThenAllow(slot: Slot, now: int, later: int)
    requires Advance(slot, now).useCache == Ok(false)
    ensures Advance(After(slot, Advance(slot, now)), later).useCache == Ok(true)
  {
  }

  /** An expired window allows the cache and writes nothing. */
  lemma ExpiredAllowsWithoutWriting(e: Entry, now: int)
    requires now - e.timestamp >= SecondsInHour
    ensures Advance(Holds(e), now) == Outcome(Ok(true), None)
  {
  }

  predicate NonDecreasing(nows: seq<int>) {
    forall i, j :: 0 <= i < j < |nows| ==> nows[i] <= nows[j]
  }

  /** Two refusals never follow each other, for any sequence of instants. */
  lemma {:induction false} NoRefusalTwiceInARow(slot: Slot, nows: seq<int>)
    ensures forall i :: 0 <= i < |nows| - 1 && Run(slot, nows)[i].useCache == Ok(false) ==>
              Run(slot, nows)[i + 1].useCache == Ok(true)
    decreases |nows|
  {
    if |nows| >= 2 {
      var o := Advance(slot, nows[0]);
      var tail := Run(After(slot, o), nows[1..]);
      NoRefusalTwiceInARow(After(slot, o), nows[1..]);
      if o.useCache == Ok(false) {
        RefusalThenAllow(slot, nows[0], nows[1]);
      }
      assert Run(slot, nows) == [o] + tail;
    }
  }

  /**
   * Inside one window that started at `ts` with count `n`, the answers
   * alternate: a refusal exactly when the call's position plus `n` is odd.
   */
  lemma {:induction false} RunInsideWindow(ts: int, n: int, nows: seq<int>)
    requires n == 1 || n == 2
    requires NonDecreasing(nows)
    requires forall i :: 0 <= i < |nows| ==> ts <= nows[i] < ts + SecondsInHour
    ensures forall i :: 0 <= i < |nows| ==>
              Run(Holds(Entry(ts, n)), nows)[i].useCache == Ok((i + n) % 2 == 0)
    decreases |nows|
  {
    if nows != [] {
      var slot := Holds(Entry(ts, n));
      var o := Advance(slot, nows[0]);
      var rest := nows[1..];
      var m := 3 - n;
      if n == 2 {
        assert o == Outcome(Ok(true), Some(Entry(ts, 1)));
        RunInsideWindow(ts, 1, rest);
      } else {
        assert o == Outcome(Ok(false), Some(Entry(nows[0], 2)));
        forall i | 0 <= i < |rest|
          ensures nows[0] <= rest[i] < nows[0] + SecondsInHour
        {
          assert rest[i] == nows[i + 1];
        }
        RunInsideWindow(nows[0], 2, rest);
      }
      var tail := Run(After(slot, o), rest);
      assert Run(slot, nows) == [o] + tail;
      forall i | 1 <= i < |nows|
        ensures Run(slot, nows)[i].useCache == Ok((i + n) % 2 == 0)
      {
        assert tail[i - 1].useCache == Ok((i - 1 + m) % 2 == 0);
        assert ((i - 1 + m) % 2 == 0) == ((i + n) % 2 == 0);
      }
    }
  }

  /**
   * On a fresh key, calls within one hour of the first answer
   * True, True, False, True, False, ...
   */
  lemma FreshKeyWithinAnHour(nows: seq<int>)
    requires |nows| >= 1 && NonDecreasing(nows)
    requires nows[|nows| - 1] - nows[0] < SecondsInHour
    ensures forall i :: 0 <= i < |nows| ==>
              Run(Missing, nows)[i].useCache == Ok(i == 0 || i % 2 == 1)
  {
    var o := Advance(Missing, nows[0]);
    var rest := nows[1..];
    forall i | 0 <= i < |rest|
      ensures nows[0] <= rest[i] < nows[0] + SecondsInHour
    {
      assert rest[i] == nows[i + 1];
    }
    RunInsideWindow(nows[0], 2, rest);
    var tail := Run(Holds(Entry(nows[0], 2)), rest);
    assert Run(Missing, nows) == [o] + tail;
    forall i | 1 <= i < |nows|
      ensures Run(Missing, nows)[i].useCache == Ok(i % 2 == 1)
    {
      assert tail[i - 1].useCache == Ok((i - 1 + 2) % 2 == 0);
      assert ((i - 1 + 2) % 2 == 0) == (i % 2 == 1);
    }
  }

  /**
   * With a clock that does not go back, once an entry's window has expired
   * every later call allows the cache and writes nothing.
   */
  lemma {:induction false} ExpiredStaysExpired(e: Entry, nows: seq<int>)
    requires NonDecreasing(nows)
    requires |nows| > 0 ==> nows[0] - e.timestamp >= SecondsInHour
    ensures forall i :: 0 <= i < |nows| ==> Run(Holds(e), nows)[i] == Outcome(Ok(true), None)
    decreases |nows|
  {
    if nows != [] {
      var o := Advance(Holds(e), nows[0]);
      assert o == Outcome(Ok(true), None);
      ExpiredStaysExpired(e, nows[1..]);
      assert Run(Holds(e), nows) == [o] + Run(Holds(e), nows[1..]);
    }
  }

  /**
   * Three calls in the same second on an expired entry are all allowed: the
   * "third refresh within an hour" rule never fires again for that file.
   */
  lemma ExpiredBurstNeverRefused(e: Entry, now: int)
    requires now - e.timestamp >= SecondsInHour
    ensures forall i :: 0 <= i < 3 ==> Run(Holds(e), [now, now, now])[i].useCache == Ok(true)
  {
    ExpiredStaysExpired(e, [now, now, now]);
  }

  /**
   * The transition with the expired case starting a new window, as an
   * absent entry does; every other case is `Advance`'s.
   */
  function AdvanceFixed(slot: Slot, now: int): (o: Outcome)
    ensures o == Advance(if slot.Holds? && now - slot.entry.timestamp >= SecondsInHour then Missing else slot, now)
  {
    match slot
    case Holds(e) =>
      if now - e.timestamp < SecondsInHour then Advance(slot, now)
      else Outcome(Ok(true), Some(Entry(now, 2)))
    case _ => Advance(slot, now)
  }

  /** With the corrected transition, three calls in the same second always include a refusal. */
  lemma FixedBurstIsRefused(slot: Slot, now: int)
    requires SlotInRange(slot)
    ensures var o1 := AdvanceFixed(slot, now);
            var o2 := AdvanceFixed(After(slot, o1), now);
            var o3 := AdvanceFixed(After(After(slot, o1), o2), now);
            Ok(false) in [o1.useCache, o2.useCache, o3.useCache]
  {
    var o1 := AdvanceFixed(slot, now);
    var o2 := AdvanceFixed(After(slot, o1), now);
    var o3 := AdvanceFixed(After(After(slot, o1), o2), now);
    if o1.useCache != Ok(false) && o2.useCache != Ok(false) {
      assert o2.written.Some? && o2.written.value.times == 1;
      assert o3.useCache == Ok(false);
    }
  }

  /**
   * With every gate entry in range, one call on `filename` never raises and
   * its write leaves every gate entry in range.
   */
  lemma WriteKeepsRange(prefix: string, store: map<string, string>, filename: string, now: int)
    requires CountersInRange(prefix, store)
    ensures var key := Key(prefix, filename);
            var o := Advance(Classify(if key in store then Some(store[key]) else None), now);
            && o.useCache.Ok?
            && CountersInRange(prefix, if o.written.Some? then store[key := Encode(o.written.value)] else store)
  {
    var key := Key(prefix, filename);
    var slot := Classify(if key in store then Some(store[key]) else None);
    assert SlotInRange(slot);
    var o := Advance(slot, now);
    AdvanceKeepsRange(slot, now);
    if o.written.Some? {
      var after := store[key := Encode(o.written.value)];
      ClassifyEncode(o.written.value);
      forall f | Key(prefix, f) in after
        ensures SlotInRange(Classify(Some(after[Key(prefix, f)])))
      {
        if Key(prefix, f) != key {
          assert Key(prefix, f) in store;
        }
      }
    }
  }

  /** The gate over a key-value store, with the store's key prefix. */
  class Gate {
    const prefix: string
    var store: map<string, string>

    constructor (prefix: string, store: map<string, string>)
      ensures this.prefix == prefix && this.store == store
    {
      this.prefix := prefix;
      this.store := store;
    }

    /** The inner `set_current`: start a new window at `now` with a count of two. */
    method SetCurrent(key: string, now: int)
      modifies this
      ensures store == old(store)[key := Encode(Entry(now, 2))]
    {
      store := store[key := Encode(Entry(now, 2))];
    }

    /**
     * `use_cache(filename)` at instant `now`: whether the cached export may be
     * served. Only the file's own key is written; with in-range counters
     * everywhere the call never raises and keeps them in range.
     */
    method UseCache(filename: string, now: int) returns (r: Result<bool, GateError>)
      modifies this
      ensures var key := Key(prefix, filename);
              var o := Advance(Classify(if key in old(store) then Some(old(store)[key]) else None), now);
              r == o.useCache &&
              store == if o.written.Some? then old(store)[key := Encode(o.written.value)] else old(store)
      ensures old(CountersInRange(prefix, store)) ==> r.Ok? && CountersInRange(prefix, store)
    {
      var key := Key(prefix, filename);
      var cur := if key in store then Some(store[key]) else None;
      ghost var before := store;
      if cur.None? || cur.value == "" {
        SetCurrent(key, now);
        r := Ok(true);
      } else {
        var e := Decode(cur.value);
        if e.None? {
          r := Err(MalformedEntry);
        } else if now - e.value.timestamp < SecondsInHour {
          if e.value.times - 1 == 0 {
            SetCurrent(key, now);
            r := Ok(false);
          } else {
            store := store[key := Encode(Entry(e.value.timestamp, e.value.times - 1))];
            r := Ok(true);
          }
        } else {
          r := Ok(true);
        }
      }
      if CountersInRange(prefix, before) {
        WriteKeepsRange(prefix, before, filename, now);
      }
    }
  }
}
