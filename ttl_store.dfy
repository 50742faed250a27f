/**
 * `TTLStore`: the in-memory key-value store with lazy TTL expiry. Every
 * method updates the `store` field in place, as the original does, and is
 * proved to leave exactly the store, and return exactly the result, that
 * the corresponding function of `StoreModel` describes.
 */
module Storage {
  import opened Optional
  import opened Decimal
  import opened StoreModel

  predicate NoDuplicates(s: seq<string>) {
    forall i, j :: 0 <= i < j < |s| ==> s[i] != s[j]
  }

  class TTLStore {
    var store: Store

    /** `new`: an empty store. */
    constructor ()
      ensures store == map[]
    {
      store := map[];
    }

    /** `check_expiry`: evict the entry of `key` if its expiry has been reached. */
    method CheckExpiry(key: string, now: Instant)
      modifies this
      ensures store == Evict(old(store), key, now)
    {
      if key in store && store[key].expiry.Some? && now >= store[key].expiry.value {
        store := store - {key};
      }
    }

    /** `set`: no expiry check; the entry is overwritten whatever it held. */
    method Set(key: string, value: string, ttl: Option<Duration>, now: Instant)
      modifies this
      ensures store == SetStep(old(store), key, value, ttl, now)
    {
      store := store[key := Entry(Simple(value), ExpiryAfter(ttl, now))];
    }

    method Get(key: string, now: Instant) returns (r: Option<string>)
      modifies this
      ensures Step(store, r) == GetStep(old(store), key, now)
    {
      CheckExpiry(key, now);
      if key in store && store[key].value.Simple? {
        r := Some(store[key].value.text);
      } else {
        r := None;
      }
    }

    method Expire(key: string, ttl: Duration, now: Instant) returns (r: bool)
      modifies this
      ensures Step(store, r) == ExpireStep(old(store), key, ttl, now)
    {
      CheckExpiry(key, now);
      if key in store {
        store := store[key := store[key].(expiry := Some(now + ttl))];
        r := true;
      } else {
        r := false;
      }
    }

    method Ttl(key: string, now: Instant) returns (r: Option<int>)
      modifies this
      ensures Step(store, r) == TtlStep(old(store), key, now)
    {
      CheckExpiry(key, now);
      if key in store && store[key].expiry.Some? {
        var expiry := store[key].expiry.value;
        if expiry > now {
          r := Some((expiry - now) / NanosPerSecond);
        } else {
          r := Some(0);
        }
      } else if key in store {
        r := Some(-1);
      } else {
        r := None;
      }
    }

    /** `del`: removes the entry without looking at its expiry. */
    method Del(key: string) returns (r: bool)
      modifies this
      ensures Step(store, r) == DelStep(old(store), key)
    {
      r := key in store;
      store := store - {key};
    }

    /** `incr`; the caller must keep the `i32` sum in range, where the original overflows. */
    method Incr(key: string, amount: i32, now: Instant) returns (r: Option<string>)
      requires IncrFits(store, key, amount, now)
      modifies this
      ensures Step(store, r) == IncrStep(old(store), key, amount, now)
    {
      CheckExpiry(key, now);
      if key in store && store[key].value.Simple? {
        match ParseI32(store[key].value.text)
        case Some(num) =>
          var updated := num + amount;
          store := store[key := store[key].(value := Simple(FormatInt(updated as int)))];
          r := Some(FormatInt(updated as int));
        case None =>
          return None;
      } else {
        store := store[key := Entry(Simple(FormatInt(amount as int)), None)];
        r := Some(FormatInt(amount as int));
      }
    }

    /** `decr` is `incr` with the amount negated, which must itself be an `i32`. */
    method Decr(key: string, amount: i32, now: Instant) returns (r: Option<string>)
      requires amount != -0x8000_0000
      requires IncrFits(store, key, -amount, now)
      modifies this
      ensures Step(store, r) == IncrStep(old(store), key, -amount, now)
    {
      r := Incr(key, -amount, now);
    }

    method Append(key: string, suffix: string, now: Instant) returns (r: Option<string>)
      modifies this
      ensures Step(store, r) == AppendStep(old(store), key, suffix, now)
    {
      CheckExpiry(key, now);
      if key in store && store[key].value.Simple? {
        var text := store[key].value.text + suffix;
        store := store[key := store[key].(value := Simple(text))];
        r := Some(text);
      } else {
        r := None;
      }
    }

    /**
     * `keys`: visit every key present at the start, in no particular order,
     * evicting it if expired and listing it if it matches, expired or not.
     */
    method Keys(pattern: string, now: Instant) returns (r: seq<string>)
      modifies this
      ensures store == EvictAll(old(store), now)
      ensures forall k :: k in r <==> k in MatchingKeys(old(store), pattern)
      ensures NoDuplicates(r)
    {
      ghost var start := store;
      var pending := store.Keys;
      r := [];
      while pending != {}
        invariant pending <= start.Keys
        invariant forall k :: k in store <==> k in start && (k in pending || !Expired(start[k], now))
        invariant forall k :: k in store ==> store[k] == start[k]
        invariant forall k :: k in r <==> k in start && k !in pending && Matches(pattern, k)
        invariant NoDuplicates(r)
        decreases pending
      {
        var key :| key in pending;
        CheckExpiry(key, now);
        if Matches(pattern, key) {
          r := r + [key];
        }
        pending := pending - {key};
      }
    }

    /** `l_push`: `entry().or_insert` a new list, then push at the head or replace a non-list. */
    method LPush(key: string, value: string, now: Instant)
      modifies this
      ensures store == LPushStep(old(store), key, value, now)
    {
      CheckExpiry(key, now);
      if key !in store {
        store := store[key := Entry(List([]), None)];
      }
      var e := store[key];
      match e.value
      case List(items) =>
        store := store[key := e.(value := List([value] + items))];
      case _ =>
        store := store[key := e.(value := List([value]))];
    }

    method LPop(key: string, now: Instant) returns (r: Option<string>)
      modifies this
      ensures Step(store, r) == LPopStep(old(store), key, now)
    {
      CheckExpiry(key, now);
      if key in store && store[key].value.List? {
        var items := store[key].value.items;
        if items != [] {
          store := store[key := store[key].(value := List(items[1..]))];
          r := Some(items[0]);
        } else {
          r := None;
        }
      } else {
        r := None;
      }
    }

    method SAdd(key: string, member: string, now: Instant)
      modifies this
      ensures store == SAddStep(old(store), key, member, now)
    {
      CheckExpiry(key, now);
      if key !in store {
        store := store[key := Entry(StoreValue.Set({}), None)];
      }
      var e := store[key];
      match e.value
      case Set(members) =>
        store := store[key := e.(value := StoreValue.Set(members + {member}))];
      case _ =>
        store := store[key := e.(value := StoreValue.Set({member}))];
    }

    /** `s_members`: the members collected into a sequence in no particular order. */
    method SMembers(key: string, now: Instant) returns (r: seq<string>)
      modifies this
      ensures store == SMembersStep(old(store), key, now).store
      ensures forall x :: x in r <==> x in SMembersStep(old(store), key, now).out
      ensures NoDuplicates(r)
    {
      CheckExpiry(key, now);
      r := [];
      if key in store && store[key].value.Set? {
        var members := store[key].value.members;
        var pending := members;
        while pending != {}
          invariant pending <= members
          invariant forall x :: x in r <==> x in members && x !in pending
          invariant NoDuplicates(r)
          decreases pending
        {
          var x :| x in pending;
          r := r + [x];
          pending := pending - {x};
        }
      }
    }

    method HSet(key: string, field: string, value: string, now: Instant)
      modifies this
      ensures store == HSetStep(old(store), key, field, value, now)
    {
      CheckExpiry(key, now);
      if key !in store {
        store := store[key := Entry(Hash(map[]), None)];
      }
      var e := store[key];
      match e.value
      case Hash(fields) =>
        store := store[key := e.(value := Hash(fields[field := value]))];
      case _ =>
        store := store[key := e.(value := Hash(map[field := value]))];
    }

    method HGet(key: string, field: string, now: Instant) returns (r: Option<string>)
      modifies this
      ensures Step(store, r) == HGetStep(old(store), key, field, now)
    {
      CheckExpiry(key, now);
      if key in store && store[key].value.Hash? && field in store[key].value.fields {
        r := Some(store[key].value.fields[field]);
      } else {
        r := None;
      }
    }
  }
}
