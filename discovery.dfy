/**
 * `discover_targets`: a passive scan whose detection callback records every
 * matching advertisement in a dict keyed by normalised address, polled every
 * tenth of a second until enough devices are held or the tick budget
 * (`int(timeout * 10)`) is spent.
 *
 * The radio is an input: `batches[i]` are the advertisements the callback
 * receives before poll `i` (batch 0 arrives while the scanner starts, batch
 * `i + 1` during the sleep after poll `i`); a batch past the end of the
 * sequence is empty.
 */
module Discovery {
  import opened Common
  import opened PyDict
  import opened Address

  /** What the callback learns from one advertisement: the device's name and address. */
  datatype Advertisement = Advertisement(name: Option<string>, address: Option<string>)

  /** `(d.address or "").replace("-", ":").upper()` */
  function Key(ad: Advertisement): string
  {
    Normalize(if ad.address.Some? then ad.address.value else "")
  }

  predicate Matches(ad: Advertisement)
  {
    MatchTarget(ad.name, Key(ad))
  }

  /** What the callback makes of one advertisement: the key it files it under, if it matches. */
  datatype Sight = Sight(key: Option<string>, ad: Advertisement)

  function Observe(ad: Advertisement): Sight
  {
    Sight(if Matches(ad) then Some(Key(ad)) else None, ad)
  }

  /** `found[addr] = d` once the callback has decided to keep `d` under `addr`. */
  function Store(found: Dict<string, Advertisement>, s: Sight): (f: Dict<string, Advertisement>)
    requires found.Valid()
    ensures f.Valid()
    ensures s.key.None? ==> f == found
    ensures s.key.Some? ==> f.entries == found.entries[s.key.value := s.ad]
    ensures f.keys == if s.key.Some? && s.key.value !in found.entries then found.keys + [s.key.value] else found.keys
  {
    if s.key.Some? then found.Put(s.key.value, s.ad) else found
  }

  /** The callback `cb`: `found[addr] = d` for a matching device. */
  function Record(found: Dict<string, Advertisement>, ad: Advertisement): (f: Dict<string, Advertisement>)
    requires found.Valid()
    ensures f.Valid()
    ensures !Matches(ad) ==> f == found
    ensures Matches(ad) ==> f.entries == found.entries[Key(ad) := ad]
    ensures Matches(ad) && Key(ad) !in found.entries ==> f.keys == found.keys + [Key(ad)]
    ensures Matches(ad) && Key(ad) in found.entries ==> f.keys == found.keys
  {
    Store(found, Observe(ad))
  }

  /** The dict after the callback has seen `ads`, in order, starting from `{}`. */
  function Sighted(ads: seq<Advertisement>): (f: Dict<string, Advertisement>)
    ensures f.Valid()
    decreases |ads|
  {
    if ads == [] then Empty() else Record(Sighted(ads[..|ads| - 1]), ads[|ads| - 1])
  }

  function BatchAt(batches: seq<seq<Advertisement>>, i: nat): seq<Advertisement>
  {
    if i < |batches| then batches[i] else []
  }

  /** The advertisements of the first `n` batches, in arrival order. */
  function Delivered(batches: seq<seq<Advertisement>>, n: nat): seq<Advertisement>
  {
    if n == 0 then [] else Delivered(batches, n - 1) + BatchAt(batches, n - 1)
  }

  /** `devices[:want]` with Python's slice rules (a negative bound counts from the end). */
  function PyTake<T>(s: seq<T>, n: int): (r: seq<T>)
    ensures r <= s
    ensures |r| == if n >= 0 then (if n < |s| then n else |s|) else (if |s| + n > 0 then |s| + n else 0)
  {
    if n >= 0 then s[..if n < |s| then n else |s|] else s[..if |s| + n > 0 then |s| + n else 0]
  }

  /**
   * `discover_targets(timeout, want)` with `budget == int(timeout * 10)`.
   * `seen` is the number of batches delivered before the scan stopped:
   * poll `c - 1` runs after `c` batches; the scan stops at the first poll
   * that finds at least `want` devices, and otherwise after the budget's
   * last sleep has delivered one more batch.
   */
  method DiscoverTargets(batches: seq<seq<Advertisement>>, budget: int, want: int)
    returns (devices: seq<Advertisement>, ghost seen: nat)
    ensures StopsAt(batches, budget, want, seen)
    ensures devices == PyTake(Held(batches, seen).Values(), want)
    ensures devices == PyTake(Sighted(Delivered(batches, seen)).Values(), want)
  {
    var polls := if budget > 0 then budget else 0;
    var found: Dict<string, Advertisement> := Empty();
    var i := 0;
    while true
      invariant 0 <= i <= polls
      invariant found == Held(batches, i)
      invariant PollsFail(batches, want, i)
      decreases polls - i
    {
      // the callback runs for each advertisement that arrived since the last poll
      found := RecordBatch(found, batches, i);
      if i >= budget || found.Len() >= want {
        // past the budget, what arrived during the last sleep is still recorded before the scanner stops
        StopRule(batches, budget, want, i);
        break;
      }
      PollsFailSucc(batches, want, i);
      i := i + 1;
    }
    seen := i + 1;
    devices := PyTake(found.Values(), want);
    HeldIsSighted(batches, seen);
  }

  /** The dict once the first `n` batches have been delivered. */
  ghost function Held(batches: seq<seq<Advertisement>>, n: nat): (f: Dict<string, Advertisement>)
    ensures f.Valid()
  {
    HeldAt(batches, n, 0)
  }

  /**
   * The dict once the first `n` batches and the first `j` advertisements of
   * batch `n` have been delivered, one callback at a time.
   */
  ghost function HeldAt(batches: seq<seq<Advertisement>>, n: nat, j: nat): (f: Dict<string, Advertisement>)
    requires j <= |BatchAt(batches, n)|
    ensures f.Valid()
    decreases n, j
  {
    if j > 0 then Record(HeldAt(batches, n, j - 1), BatchAt(batches, n)[j - 1])
    else if n == 0 then Empty()
    else HeldAt(batches, n - 1, |BatchAt(batches, n - 1)|)
  }

  /** Delivering batch after batch is the same as the callback seeing their concatenation. */
  lemma {:induction false} HeldAtIsSighted(batches: seq<seq<Advertisement>>, n: nat, j: nat)
    requires j <= |BatchAt(batches, n)|
    ensures HeldAt(batches, n, j) == Sighted(Delivered(batches, n) + BatchAt(batches, n)[..j])
    decreases n, j
  {
    if j > 0 {
      HeldAtIsSighted(batches, n, j - 1);
      HeldAtNext(batches, n, j);
    } else if n > 0 {
      HeldAtIsSighted(batches, n - 1, |BatchAt(batches, n - 1)|);
      HeldAtNewBatch(batches, n);
    } else {
      HeldAtStart(batches);
    }
  }

  /** Before any batch nothing is held. */
  lemma HeldAtStart(batches: seq<seq<Advertisement>>)
    ensures HeldAt(batches, 0, 0) == Sighted(Delivered(batches, 0) + BatchAt(batches, 0)[..0])
  {
    assert Delivered(batches, 0) + BatchAt(batches, 0)[..0] == [];
  }

  /** One more callback within batch `n`. */
  lemma HeldAtNext(batches: seq<seq<Advertisement>>, n: nat, j: nat)
    requires 0 < j <= |BatchAt(batches, n)|
    requires HeldAt(batches, n, j - 1) == Sighted(Delivered(batches, n) + BatchAt(batches, n)[..j - 1])
    ensures HeldAt(batches, n, j) == Sighted(Delivered(batches, n) + BatchAt(batches, n)[..j])
  {
    var batch, before := BatchAt(batches, n), Delivered(batches, n);
    PrefixSnoc(before, batch, j);
    SnocStep(before + batch[..j - 1], batch[j - 1], before + batch[..j], HeldAt(batches, n, j - 1), HeldAt(batches, n, j));
  }

  lemma PrefixSnoc<T>(before: seq<T>, batch: seq<T>, j: nat)
    requires 0 < j <= |batch|
    ensures before + batch[..j] == (before + batch[..j - 1]) + [batch[j - 1]]
  {
    assert batch[..j] == batch[..j - 1] + [batch[j - 1]];
  }

  lemma SnocStep(pre: seq<Advertisement>, ad: Advertisement, ads: seq<Advertisement>, g: Dict<string, Advertisement>, f: Dict<string, Advertisement>)
    requires ads == pre + [ad] && g == Sighted(pre) && f == Record(g, ad)
    ensures f == Sighted(ads)
  {
    SightedSnoc(pre, ad);
  }

  /** Batch `n - 1` delivered in full is the start of batch `n`. */
  lemma HeldAtNewBatch(batches: seq<seq<Advertisement>>, n: nat)
    requires 0 < n
    requires HeldAt(batches, n - 1, |BatchAt(batches, n - 1)|) == Sighted(Delivered(batches, n - 1) + BatchAt(batches, n - 1)[..|BatchAt(batches, n - 1)|])
    ensures HeldAt(batches, n, 0) == Sighted(Delivered(batches, n) + BatchAt(batches, n)[..0])
  {
    var batch := BatchAt(batches, n - 1);
    assert batch[..|batch|] == batch;
    assert Delivered(batches, n - 1) + batch[..|batch|] == Delivered(batches, n) + BatchAt(batches, n)[..0];
  }

  /** `Held` is `Sighted` of everything delivered so far. */
  lemma HeldIsSighted(batches: seq<seq<Advertisement>>, n: nat)
    ensures Held(batches, n) == Sighted(Delivered(batches, n))
  {
    HeldAtIsSighted(batches, n, 0);
    assert Delivered(batches, n) + BatchAt(batches, n)[..0] == Delivered(batches, n);
  }

  /** Polls `0 .. n - 1` all found fewer than `want` devices. */
  ghost predicate PollsFail(batches: seq<seq<Advertisement>>, want: int, n: nat)
  {
    forall c :: 1 <= c <= n ==> PollFails(batches, want, c)
  }

  /** The poll after `c` batches found fewer than `want` devices. */
  ghost predicate PollFails(batches: seq<seq<Advertisement>>, want: int, c: nat)
  {
    Held(batches, c).Len() < want
  }

  lemma PollsFailSucc(batches: seq<seq<Advertisement>>, want: int, n: nat)
    requires PollsFail(batches, want, n) && Held(batches, n + 1).Len() < want
    ensures PollsFail(batches, want, n + 1)
  {
  }

  lemma StopRule(batches: seq<seq<Advertisement>>, budget: int, want: int, n: nat)
    requires n <= (if budget > 0 then budget else 0)
    requires PollsFail(batches, want, n)
    requires n >= budget || Held(batches, n + 1).Len() >= want
    ensures StopsAt(batches, budget, want, n + 1)
  {
  }

  /**
   * The stopping rule: after `seen` batches the scan had polled and failed
   * `seen - 1` times, and either the poll after batch `seen` succeeded or the
   * budget of `max(budget, 0)` polls was spent.
   */
  ghost predicate StopsAt(batches: seq<seq<Advertisement>>, budget: int, want: int, seen: nat)
  {
    var polls := if budget > 0 then budget else 0;
    && 1 <= seen <= polls + 1
    && PollsFail(batches, want, seen - 1)
    && (seen <= polls ==> Held(batches, seen).Len() >= want)
  }

  /** The callback invoked once per advertisement of batch `i`, in arrival order. */
  method RecordBatch(found: Dict<string, Advertisement>, batches: seq<seq<Advertisement>>, i: nat)
    returns (f: Dict<string, Advertisement>)
    requires found == Held(batches, i)
    ensures f == Held(batches, i + 1)
  {
    var batch := BatchAt(batches, i);
    f := found;
    for j := 0 to |batch|
      invariant f == HeldAt(batches, i, j)
    {
      f := Record(f, batch[j]);
    }
  }

  lemma SightedSnoc(ads: seq<Advertisement>, ad: Advertisement)
    ensures Sighted(ads + [ad]) == Record(Sighted(ads), ad)
  {
    assert (ads + [ad])[..|ads|] == ads;
  }

  // ---------------------------------------------------------------------
  // What the dict holds after a sequence of advertisements
  // ---------------------------------------------------------------------

  /** What the callback makes of each advertisement of `ads`, in order. */
  function Observed(ads: seq<Advertisement>): (ss: seq<Sight>)
    ensures |ss| == |ads|
    decreases |ads|
  {
    if ads == [] then [] else Observed(ads[..|ads| - 1]) + [Observe(ads[|ads| - 1])]
  }

  lemma {:induction false} ObservedAt(ads: seq<Advertisement>, i: nat)
    requires i < |ads|
    ensures Observed(ads)[i] == Observe(ads[i])
    decreases |ads|
  {
    var init := ads[..|ads| - 1];
    if i < |init| {
      ObservedAt(init, i);
    }
  }

  lemma ObservedSnoc(ads: seq<Advertisement>, ad: Advertisement)
    ensures Observed(ads + [ad]) == Observed(ads) + [Observe(ad)]
  {
    assert (ads + [ad])[..|ads|] == ads;
  }

  /** The dict after storing the sightings `ss`, in order, starting from `{}`. */
  function Stored(ss: seq<Sight>): (f: Dict<string, Advertisement>)
    ensures f.Valid()
    decreases |ss|
  {
    if ss == [] then Empty() else Store(Stored(ss[..|ss| - 1]), ss[|ss| - 1])
  }

  lemma StoredSnoc(ss: seq<Sight>, s: Sight)
    ensures Stored(ss + [s]) == Store(Stored(ss), s)
  {
    assert (ss + [s])[..|ss|] == ss;
  }

  /** Running the callback on each advertisement is storing what it observes of each. */
  lemma {:induction false} SightedIsStored(ads: seq<Advertisement>)
    ensures Sighted(ads) == Stored(Observed(ads))
    decreases |ads|
  {
    if ads != [] {
      var init, ad := ads[..|ads| - 1], ads[|ads| - 1];
      SightedIsStored(init);
      StoredSnoc(Observed(init), Observe(ad));
    }
  }

  /** `s` is a sighting of the device recorded under `k`. */
  predicate Hit(s: Sight, k: string)
  {
    s.key == Some(k)
  }

  /** An advertisement is a sighting of `k` exactly when it matches and its normalised address is `k`. */
  lemma HitIff(ad: Advertisement, k: string)
    ensures Hit(Observe(ad), k) <==> Matches(ad) && Key(ad) == k
  {
  }

  /** The index of the first sighting of `k` in `ss`, or `|ss|` if there is none. */
  function FirstHit(ss: seq<Sight>, k: string): (p: nat)
    ensures p <= |ss|
    ensures p < |ss| ==> Hit(ss[p], k)
    ensures forall q :: 0 <= q < p ==> !Hit(ss[q], k)
    decreases |ss|
  {
    if ss == [] then 0
    else
      var init := ss[..|ss| - 1];
      var p := FirstHit(init, k);
      assert forall q :: 0 <= q < |init| ==> init[q] == ss[q];
      if p < |init| then p else if Hit(ss[|ss| - 1], k) then |init| else |ss|
  }

  lemma FirstHitAppend(ss: seq<Sight>, s: Sight, k: string)
    ensures FirstHit(ss, k) < |ss| ==> FirstHit(ss + [s], k) == FirstHit(ss, k)
    ensures FirstHit(ss, k) == |ss| ==> FirstHit(ss + [s], k) == if Hit(s, k) then |ss| else |ss| + 1
  {
    assert (ss + [s])[..|ss|] == ss;
  }

  /** The index of the last sighting of `k` in `ss`, or `-1` if there is none. */
  function LastHit(ss: seq<Sight>, k: string): (p: int)
    ensures -1 <= p < |ss|
    ensures 0 <= p ==> Hit(ss[p], k)
    ensures forall q :: p < q < |ss| ==> !Hit(ss[q], k)
    decreases |ss|
  {
    if ss == [] then -1
    else if Hit(ss[|ss| - 1], k) then |ss| - 1
    else
      var init := ss[..|ss| - 1];
      assert forall q :: 0 <= q < |init| ==> init[q] == ss[q];
      LastHit(init, k)
  }

  lemma LastHitAppend(ss: seq<Sight>, s: Sight, k: string)
    ensures LastHit(ss + [s], k) == if Hit(s, k) then |ss| else LastHit(ss, k)
  {
    assert (ss + [s])[..|ss|] == ss;
  }

  /** The keys are ordered by first sighting. */
  ghost predicate FirstSightingOrder(ss: seq<Sight>, keys: seq<string>)
  {
    forall i, j :: 0 <= i < j < |keys| ==> FirstHit(ss, keys[i]) < FirstHit(ss, keys[j])
  }

  /**
   * `f` is what storing `ss` leaves: it holds exactly the devices sighted at
   * least once, keyed in the order they were first sighted, each mapped to
   * its most recent advertisement.
   */
  ghost predicate Describes(ss: seq<Sight>, f: Dict<string, Advertisement>)
  {
    && f.Valid()
    && (forall k :: k in f.entries <==> FirstHit(ss, k) < |ss|)
    && FirstSightingOrder(ss, f.keys)
    && (forall k :: k in f.entries ==> 0 <= LastHit(ss, k) && f.entries[k] == ss[LastHit(ss, k)].ad)
  }

  lemma DescribesKeysSnoc(ss: seq<Sight>, s: Sight, g: Dict<string, Advertisement>, f: Dict<string, Advertisement>)
    requires g.Valid() && f == Store(g, s)
    requires forall k :: k in g.entries <==> FirstHit(ss, k) < |ss|
    ensures forall k :: k in f.entries <==> FirstHit(ss + [s], k) < |ss + [s]|
  {
    forall k ensures k in f.entries <==> FirstHit(ss + [s], k) < |ss + [s]| {
      FirstHitAppend(ss, s, k);
    }
  }

  /** Devices sighted before `s` keep their first sighting. */
  lemma FirstHitsKept(ss: seq<Sight>, s: Sight, keys: seq<string>)
    requires forall i :: 0 <= i < |keys| ==> FirstHit(ss, keys[i]) < |ss|
    ensures forall i :: 0 <= i < |keys| ==> FirstHit(ss + [s], keys[i]) == FirstHit(ss, keys[i])
  {
    forall i | 0 <= i < |keys| ensures FirstHit(ss + [s], keys[i]) == FirstHit(ss, keys[i]) {
      FirstHitAppend(ss, s, keys[i]);
    }
  }

  /** A key first sighted after all the others may go last. */
  lemma OrderAppend(ss: seq<Sight>, keys: seq<string>, k: string)
    requires FirstSightingOrder(ss, keys)
    requires forall i :: 0 <= i < |keys| ==> FirstHit(ss, keys[i]) < FirstHit(ss, k)
    ensures FirstSightingOrder(ss, keys + [k])
  {
    var ks := keys + [k];
    forall i, j | 0 <= i < j < |ks| ensures FirstHit(ss, ks[i]) < FirstHit(ss, ks[j]) {
      assert ks[i] == keys[i];
      if j < |keys| {
        assert ks[j] == keys[j];
      }
    }
  }

  /** Every key of a dict that holds exactly the sighted devices has been sighted. */
  lemma KeysSighted(ss: seq<Sight>, g: Dict<string, Advertisement>)
    requires g.Valid()
    requires forall k :: k in g.entries <==> FirstHit(ss, k) < |ss|
    ensures forall i :: 0 <= i < |g.keys| ==> FirstHit(ss, g.keys[i]) < |ss|
  {
    forall i | 0 <= i < |g.keys| ensures FirstHit(ss, g.keys[i]) < |ss| {
      assert g.keys[i] in g.entries;
    }
  }

  /** The first-sighting order survives one more sighting, whether or not it adds a key. */
  lemma OrderSnoc(ss: seq<Sight>, s: Sight, gk: seq<string>, fk: seq<string>)
    requires forall i :: 0 <= i < |gk| ==> FirstHit(ss, gk[i]) < |ss|
    requires FirstSightingOrder(ss, gk)
    requires fk == gk || (s.key.Some? && fk == gk + [s.key.value] && FirstHit(ss, s.key.value) == |ss|)
    ensures FirstSightingOrder(ss + [s], fk)
  {
    FirstHitsKept(ss, s, gk);
    if fk != gk {
      FirstHitAppend(ss, s, s.key.value);
      OrderAppend(ss + [s], gk, s.key.value);
    }
  }

  lemma DescribesOrderSnoc(ss: seq<Sight>, s: Sight, g: Dict<string, Advertisement>, f: Dict<string, Advertisement>)
    requires g.Valid() && f == Store(g, s)
    requires forall k :: k in g.entries <==> FirstHit(ss, k) < |ss|
    requires FirstSightingOrder(ss, g.keys)
    ensures FirstSightingOrder(ss + [s], f.keys)
  {
    StoreKeys(ss, s, g, f);
    OrderSnoc(ss, s, g.keys, f.keys);
  }

  /** Storing a sighting either keeps the keys, all sighted, or appends a key not sighted before. */
  lemma StoreKeys(ss: seq<Sight>, s: Sight, g: Dict<string, Advertisement>, f: Dict<string, Advertisement>)
    requires g.Valid() && f == Store(g, s)
    requires forall k :: k in g.entries <==> FirstHit(ss, k) < |ss|
    ensures forall i :: 0 <= i < |g.keys| ==> FirstHit(ss, g.keys[i]) < |ss|
    ensures f.keys == g.keys || (s.key.Some? && f.keys == g.keys + [s.key.value] && FirstHit(ss, s.key.value) == |ss|)
  {
    KeysSighted(ss, g);
  }

  lemma DescribesLatestSnoc(ss: seq<Sight>, s: Sight, g: Dict<string, Advertisement>, f: Dict<string, Advertisement>)
    requires g.Valid() && f == Store(g, s)
    requires forall k :: k in g.entries ==> 0 <= LastHit(ss, k) && g.entries[k] == ss[LastHit(ss, k)].ad
    ensures forall k :: k in f.entries ==> 0 <= LastHit(ss + [s], k) && f.entries[k] == (ss + [s])[LastHit(ss + [s], k)].ad
  {
    forall k | k in f.entries ensures 0 <= LastHit(ss + [s], k) && f.entries[k] == (ss + [s])[LastHit(ss + [s], k)].ad {
      LatestStep(ss, s, g, f, k);
    }
  }

  lemma LatestStep(ss: seq<Sight>, s: Sight, g: Dict<string, Advertisement>, f: Dict<string, Advertisement>, k: string)
    requires g.Valid() && f == Store(g, s) && k in f.entries
    requires k in g.entries ==> 0 <= LastHit(ss, k) && g.entries[k] == ss[LastHit(ss, k)].ad
    ensures 0 <= LastHit(ss + [s], k) && f.entries[k] == (ss + [s])[LastHit(ss + [s], k)].ad
  {
    LastHitAppend(ss, s, k);
  }

  /** One more stored sighting keeps the description. */
  lemma DescribesSnoc(ss: seq<Sight>, s: Sight, g: Dict<string, Advertisement>, f: Dict<string, Advertisement>)
    requires Describes(ss, g) && f == Store(g, s)
    ensures Describes(ss + [s], f)
  {
    DescribesKeysSnoc(ss, s, g, f);
    DescribesOrderSnoc(ss, s, g, f);
    DescribesLatestSnoc(ss, s, g, f);
  }

  /**
   * After any sequence of sightings the dict holds exactly the devices
   * sighted, in first-sighting order (a re-sighting does not move a device),
   * each with its most recent advertisement (a re-sighting overwrites).
   */
  lemma {:induction false} StoredDescribes(ss: seq<Sight>)
    ensures Describes(ss, Stored(ss))
    decreases |ss|
  {
    if ss != [] {
      var init, s := ss[..|ss| - 1], ss[|ss| - 1];
      StoredDescribes(init);
      StoredSnoc(init, s);
      assert init + [s] == ss;
      DescribesSnoc(init, s, Stored(init), Stored(ss));
    }
  }

  /** `devices[:want]` takes the values of the first keys. */
  lemma TakenValues(f: Dict<string, Advertisement>, want: int)
    requires f.Valid()
    ensures var devices := PyTake(f.Values(), want);
            && |devices| <= |f.keys|
            && (forall i :: 0 <= i < |devices| ==> f.keys[i] in f.entries && devices[i] == f.entries[f.keys[i]])
  {
  }

  /**
   * What `discover_targets` returns after the callback has seen `ads`: at
   * most `want` devices, pairwise distinct by normalised address, each a
   * match, in the order of their first sighting, each the most recent
   * advertisement of its device.
   */
  lemma DiscoveredShape(ads: seq<Advertisement>, want: int)
    ensures var devices := PyTake(Sighted(ads).Values(), want);
            var ss := Observed(ads);
            && (want >= 0 ==> |devices| <= want)
            && |devices| <= |Sighted(ads).keys|
            && (forall i, j :: 0 <= i < j < |devices| ==> Key(devices[i]) != Key(devices[j]))
            && (forall i :: 0 <= i < |devices| ==> Matches(devices[i]))
            && (forall i, j :: 0 <= i < j < |devices| ==> FirstHit(ss, Key(devices[i])) < FirstHit(ss, Key(devices[j])))
            && (forall i :: 0 <= i < |devices| ==> LastHit(ss, Key(devices[i])) >= 0 && ads[LastHit(ss, Key(devices[i]))] == devices[i])
  {
    SightedDescribes(ads);
    TakenFromSighted(ads, want);
    KeysDistinct(Sighted(ads));
  }

  /** The dict the callback leaves after `ads` is described by what it observed of them. */
  lemma SightedDescribes(ads: seq<Advertisement>)
    ensures Describes(Observed(ads), Sighted(ads))
  {
    SightedIsStored(ads);
    StoredDescribes(Observed(ads));
  }

  /** Each device taken is the latest advertisement stored under the key at its position. */
  lemma TakenFromSighted(ads: seq<Advertisement>, want: int)
    ensures var f := Sighted(ads);
            var devices := PyTake(f.Values(), want);
            var ss := Observed(ads);
            && (want >= 0 ==> |devices| <= want)
            && |devices| <= |f.keys|
            && (forall i :: 0 <= i < |devices| ==>
                  Key(devices[i]) == f.keys[i] && Matches(devices[i]) &&
                  LastHit(ss, f.keys[i]) >= 0 && ads[LastHit(ss, f.keys[i])] == devices[i])
  {
    var ss := Observed(ads);
    var f := Sighted(ads);
    var devices := PyTake(f.Values(), want);
    SightedDescribes(ads);
    TakenValues(f, want);
    forall i | 0 <= i < |devices|
      ensures Key(devices[i]) == f.keys[i] && Matches(devices[i]) && ads[LastHit(ss, f.keys[i])] == devices[i]
    {
      LatestSighting(ads, f.keys[i]);
    }
  }

  /** The last sighting of `k` is an advertisement that matches under `k`. */
  lemma LatestSighting(ads: seq<Advertisement>, k: string)
    requires 0 <= LastHit(Observed(ads), k)
    ensures var p := LastHit(Observed(ads), k);
            Observed(ads)[p].ad == ads[p] && Matches(ads[p]) && Key(ads[p]) == k
  {
    var p := LastHit(Observed(ads), k);
    ObservedAt(ads, p);
    HitIff(ads[p], k);
  }
}
