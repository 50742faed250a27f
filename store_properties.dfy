/**
 * Properties of the store that relate several operations: what a caller
 * observes after a sequence of calls, that lazy eviction is invisible, and
 * how each container behaves.
 */
module StoreProperties {
  import opened Optional
  import opened Decimal
  import opened StoreModel

  // ----- Lazy expiry -----

  /** Evicting an expired entry changes nothing a caller can observe. */
  lemma EvictKeepsView(m: Store, key: string, now: Instant)
    ensures View(Evict(m, key, now), now) == View(m, now)
  {
    var m' := Evict(m, key, now);
    forall k | k in View(m, now)
      ensures k in View(m', now) && View(m', now)[k] == View(m, now)[k]
    {
      assert k in m' && m'[k] == m[k];
    }
  }

  /** Nor does the eviction sweep of `keys`. */
  lemma EvictAllKeepsView(m: Store, now: Instant)
    ensures View(EvictAll(m, now), now) == View(m, now)
  {
    var m' := EvictAll(m, now);
    assert View(m', now).Keys == View(m, now).Keys;
  }

  /**
   * Once its expiry has been reached, every key-targeted operation that checks
   * expiry (all but `set`, which overwrites unconditionally, and `del`, which
   * `DelSeesExpired` covers) behaves as if the entry had never been there.
   */
  lemma ExpiredActsAbsent(m: Store, key: string, now: Instant, s: string, f: string, d: Duration, a: i32)
    requires key in m && Expired(m[key], now)
    ensures GetStep(m, key, now) == GetStep(m - {key}, key, now)
    ensures ExpireStep(m, key, d, now) == ExpireStep(m - {key}, key, d, now)
    ensures TtlStep(m, key, now) == TtlStep(m - {key}, key, now)
    ensures IncrStep(m, key, a, now) == IncrStep(m - {key}, key, a, now)
    ensures AppendStep(m, key, s, now) == AppendStep(m - {key}, key, s, now)
    ensures LPushStep(m, key, s, now) == LPushStep(m - {key}, key, s, now)
    ensures LPopStep(m, key, now) == LPopStep(m - {key}, key, now)
    ensures SAddStep(m, key, s, now) == SAddStep(m - {key}, key, s, now)
    ensures SMembersStep(m, key, now) == SMembersStep(m - {key}, key, now)
    ensures HSetStep(m, key, f, s, now) == HSetStep(m - {key}, key, f, s, now)
    ensures HGetStep(m, key, f, now) == HGetStep(m - {key}, key, f, now)
  {
    assert Evict(m, key, now) == Evict(m - {key}, key, now);
  }

  /** `del` does not check expiry: it reports removing an entry that `get` already calls absent. */
  lemma DelSeesExpired(m: Store, key: string, now: Instant)
    requires key in m && Expired(m[key], now)
    ensures GetStep(m, key, now).out == None
    ensures DelStep(m, key).out
  {
  }

  /** `del` removes the key from what callers observe, whether or not it had expired. */
  lemma DelView(m: Store, key: string, now: Instant)
    ensures View(DelStep(m, key).store, now) == View(m, now) - {key}
  {
  }

  // ----- set and get -----

  /** `get` before the expiry that `set` gave the key returns the value written. */
  lemma GetAfterSet(m: Store, key: string, value: string, ttl: Option<Duration>, now: Instant, later: Instant)
    requires now <= later
    requires ttl.None? || later < now + ttl.value
    ensures GetStep(SetStep(m, key, value, ttl, now), key, later).out == Some(value)
  {
  }

  /** From the expiry on, `get` returns nothing and the entry has been evicted. */
  lemma GetAfterExpiry(m: Store, key: string, value: string, d: Duration, now: Instant, later: Instant)
    requires now + d <= later
    ensures GetStep(SetStep(m, key, value, Some(d), now), key, later).out == None
    ensures key !in GetStep(SetStep(m, key, value, Some(d), now), key, later).store
  {
  }

  /** `set` makes the key hold the scalar, except that a zero TTL makes it expire at once. */
  lemma SetView(m: Store, key: string, value: string, ttl: Option<Duration>, now: Instant)
    ensures View(SetStep(m, key, value, ttl, now), now) ==
      if ttl == Some(0) then View(m, now) - {key} else View(m, now)[key := Simple(value)]
  {
    var m' := SetStep(m, key, value, ttl, now);
    if ttl == Some(0) {
      assert View(m', now).Keys == (View(m, now) - {key}).Keys;
    } else {
      assert View(m', now).Keys == View(m, now).Keys + {key};
    }
  }

  // ----- expire and ttl -----

  /** After `expire(key, d)` succeeds, `ttl` reports `d` in whole seconds, or absent when `d` is zero. */
  lemma TtlAfterExpire(m: Store, key: string, d: Duration, now: Instant)
    requires ExpireStep(m, key, d, now).out
    ensures TtlStep(ExpireStep(m, key, d, now).store, key, now).out ==
      if d == 0 then None else Some(d / NanosPerSecond)
  {
  }

  /** A key written by `set` without a TTL reports the no-expiry sentinel -1. */
  lemma TtlAfterSetWithoutTtl(m: Store, key: string, value: string, now: Instant, later: Instant)
    ensures TtlStep(SetStep(m, key, value, None, now), key, later).out == Some(-1)
  {
  }

  /** `ttl` never answers below -1, and only answers 0 when less than a second is left. */
  lemma TtlRange(m: Store, key: string, now: Instant)
    ensures TtlStep(m, key, now).out.Some? ==> TtlStep(m, key, now).out.value >= -1
    ensures TtlStep(m, key, now).out == Some(0) ==>
      m[key].expiry.Some? && now < m[key].expiry.value < now + NanosPerSecond
  {
  }

  // ----- incr and decr -----

  /**
   * Two increments add up: after a successful `incr(key, a)`, `incr(key, b)`
   * yields the text of base + a + b, where base is what the first call
   * started from (0 for a missing or non-scalar key).
   */
  lemma IncrAccumulates(m: Store, key: string, a: i32, b: i32, now: Instant)
    requires IncrFits(m, key, a, now)
    requires IncrStep(m, key, a, now).out.Some?
    requires -0x8000_0000 <= IncrBase(m, key, now).value as int + a as int + b as int < 0x8000_0000
    ensures IncrFits(IncrStep(m, key, a, now).store, key, b, now)
    ensures IncrStep(IncrStep(m, key, a, now).store, key, b, now).out ==
      Some(FormatInt(IncrBase(m, key, now).value as int + a as int + b as int))
  {
    var mid := IncrStep(m, key, a, now);
    assert IncrBase(mid.store, key, now) == Some(IncrBase(m, key, now).value + a);
    var n := IncrBase(mid.store, key, now).value + b;
    ParseFormatI32(n);
  }

  /** On a key with no live entry, `incr(key, a)` then `incr(key, b)` yield the texts of a and a + b. */
  lemma IncrTwiceFromFresh(m: Store, key: string, a: i32, b: i32, now: Instant)
    requires Live(m, key, now).None?
    requires -0x8000_0000 <= a as int + b as int < 0x8000_0000
    ensures IncrStep(m, key, a, now).out == Some(FormatInt(a as int))
    ensures IncrFits(IncrStep(m, key, a, now).store, key, b, now)
    ensures IncrStep(IncrStep(m, key, a, now).store, key, b, now).out == Some(FormatInt(a as int + b as int))
  {
    IncrAccumulates(m, key, a, b, now);
  }

  /** An `incr` that fails on an unparsable scalar leaves the store exactly as it was. */
  lemma IncrFailureChangesNothing(m: Store, key: string, a: i32, now: Instant)
    requires Live(m, key, now).Some? && m[key].value.Simple? && ParseI32(m[key].value.text).None?
    ensures IncrStep(m, key, a, now) == Step(m, None)
  {
  }

  /** The counter walk-through: incr 5 on a fresh key gives "5", incr 5 gives "10", decr 3 gives "7". */
  lemma CounterExample(m: Store, key: string, now: Instant)
    requires Live(m, key, now).None?
    ensures IncrStep(m, key, 5, now).out == Some("5")
    ensures IncrStep(IncrStep(m, key, 5, now).store, key, 5, now).out == Some("10")
    ensures IncrStep(IncrStep(IncrStep(m, key, 5, now).store, key, 5, now).store, key, -3, now).out == Some("7")
  {
    IncrAccumulates(m, key, 5, 5, now);
    var m1 := IncrStep(m, key, 5, now).store;
    IncrAccumulates(m1, key, 5, -3, now);
    assert FormatInt(5) == "5";
    assert FormatInt(7) == "7";
    assert FormatInt(10) == "10" by {
      assert FormatNat(1) == "1" && DigitChar(0) == '0';
      assert FormatNat(10) == FormatNat(1) + [DigitChar(0)];
    }
  }

  // ----- append -----

  /** `append` on a key with no live entry fails and does not create it. */
  lemma AppendNeverCreates(m: Store, key: string, suffix: string, now: Instant)
    requires Live(m, key, now).None?
    ensures AppendStep(m, key, suffix, now).out == None
    ensures key !in AppendStep(m, key, suffix, now).store
  {
  }

  /** What `append` returns is what a following `get` sees: set "x", append "y" gives "xy". */
  lemma GetAfterAppend(m: Store, key: string, value: string, suffix: string, now: Instant)
    ensures AppendStep(SetStep(m, key, value, None, now), key, suffix, now).out == Some(value + suffix)
    ensures GetStep(AppendStep(SetStep(m, key, value, None, now), key, suffix, now).store, key, now).out ==
      Some(value + suffix)
  {
  }

  // ----- keys -----

  /** The pattern `*` and the empty pattern both match every key; any other pattern is a substring test. */
  lemma MatchesEveryKey(key: string)
    ensures Matches("*", key)
    ensures Matches("", key)
  {
  }

  /** The substring test is not anchored: over the keys a, ab, b, the pattern "a" selects a and ab. */
  lemma KeysExample(m: Store)
    requires m.Keys == {"a", "ab", "b"}
    ensures MatchingKeys(m, "*") == {"a", "ab", "b"}
    ensures MatchingKeys(m, "a") == {"a", "ab"}
  {
    assert "a" <= "a"[0..];
    assert "a" <= "ab"[0..];
    assert !Matches("a", "b") by {
      forall i | 0 <= i <= |"b"| ensures !("a" <= "b"[i..]) {
        if i == 0 { assert "b"[0..][0] == 'b'; }
      }
    }
  }

  // ----- lists -----

  /** Pushing onto a live list and popping gives the pushed value back and restores the store. */
  lemma PushPopRestores(m: Store, key: string, value: string, now: Instant)
    requires Live(m, key, now).Some? && m[key].value.List?
    ensures LPopStep(LPushStep(m, key, value, now), key, now) == Step(m, Some(value))
  {
    var m1 := LPushStep(m, key, value, now);
    var r := LPopStep(m1, key, now);
    assert ([value] + m[key].value.items)[1..] == m[key].value.items;
    assert r.store == m;
  }

  /** Whatever the key held, a pop right after a push returns the pushed value. */
  lemma PopAfterPush(m: Store, key: string, value: string, now: Instant)
    ensures LPopStep(LPushStep(m, key, value, now), key, now).out == Some(value)
  {
  }

  /** The list walk-through: push a, push b, then pop gives b, pop gives a, and a third pop gives nothing. */
  lemma ListIsLifo(m: Store, key: string, now: Instant)
    requires Live(m, key, now).None?
    ensures
      var m2 := LPushStep(LPushStep(m, key, "a", now), key, "b", now);
      var p1 := LPopStep(m2, key, now);
      var p2 := LPopStep(p1.store, key, now);
      var p3 := LPopStep(p2.store, key, now);
      p1.out == Some("b") && p2.out == Some("a") && p3.out == None && key in p3.store
  {
    var m1 := LPushStep(m, key, "a", now);
    var m2 := LPushStep(m1, key, "b", now);
    assert m2[key].value.items == ["b", "a"];
    var p1 := LPopStep(m2, key, now);
    assert p1.store[key].value.items == ["a"];
    var p2 := LPopStep(p1.store, key, now);
    assert p2.store[key].value.items == [];
  }

  /** Popping the last element leaves an empty list stored, which further pops report as absent. */
  lemma EmptiedListStays(m: Store, key: string, now: Instant)
    requires Live(m, key, now).Some? && m[key].value == List([])
    ensures LPopStep(m, key, now) == Step(m, None)
  {
  }

  // ----- sets -----

  /** Adding the same member twice is the same as adding it once. */
  lemma SAddIdempotent(m: Store, key: string, member: string, now: Instant)
    ensures SAddStep(SAddStep(m, key, member, now), key, member, now) == SAddStep(m, key, member, now)
  {
    var m1 := SAddStep(m, key, member, now);
    assert SetOf(m1, key, now) + {member} == SetOf(m1, key, now);
  }

  /** `s_members` after `s_add` lists the earlier members and the new one, nothing else. */
  lemma MembersAfterSAdd(m: Store, key: string, member: string, now: Instant)
    ensures SMembersStep(SAddStep(m, key, member, now), key, now).out == SetOf(m, key, now) + {member}
  {
  }

  // ----- hashes -----

  /** `h_get` of the field just written by `h_set` returns the value written. */
  lemma HGetAfterHSet(m: Store, key: string, field: string, value: string, now: Instant)
    ensures HGetStep(HSetStep(m, key, field, value, now), key, field, now).out == Some(value)
  {
  }

  /** `h_set` leaves every other field's `h_get` answer as it was (a replaced or new hash had none). */
  lemma HSetKeepsOtherFields(m: Store, key: string, field: string, other: string, value: string, now: Instant)
    requires other != field
    ensures HGetStep(HSetStep(m, key, field, value, now), key, other, now).out == HGetStep(m, key, other, now).out
  {
  }

  // ----- type mismatch -----

  /**
   * A container write on a live key of another shape replaces the value with
   * a one-element container of its own shape and keeps the old expiry.
   */
  lemma MismatchReplaces(m: Store, key: string, s: string, f: string, now: Instant)
    requires Live(m, key, now).Some?
    ensures !m[key].value.List? ==> LPushStep(m, key, s, now)[key] == Entry(List([s]), m[key].expiry)
    ensures !m[key].value.Set? ==> SAddStep(m, key, s, now)[key] == Entry(Set({s}), m[key].expiry)
    ensures !m[key].value.Hash? ==> HSetStep(m, key, f, s, now)[key] == Entry(Hash(map[f := s]), m[key].expiry)
  {
    assert [s] + [] == [s];
    assert {} + {s} == {s};
  }
}
