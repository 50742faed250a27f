/**
 * The value model of the in-memory store and the meaning of each of its
 * operations, as pure functions from the store before a call to the store
 * after it and the call's result.
 *
 * Time is a monotonic clock reading in nanoseconds (Rust's `Instant`), and a
 * TTL is a span of nanoseconds (Rust's `Duration`). Every operation that
 * reads the clock takes the reading as its `now` argument.
 */
module StoreModel {
  import opened Optional
  import opened Decimal

  type Instant = nat
  type Duration = nat

  const NanosPerSecond: nat := 1_000_000_000

  /** `StoreValue`: the four shapes a key can hold. */
  datatype StoreValue =
    | Simple(text: string)
    | List(items: seq<string>)
    | Set(members: set<string>)
    | Hash(fields: map<string, string>)

  /** One slot of the store: the value and its absolute expiry instant, if any. */
  datatype Entry = Entry(value: StoreValue, expiry: Option<Instant>)

  type Store = map<string, Entry>

  /** The store after an operation, and what the operation returned. */
  datatype Step<R> = Step(store: Store, out: R)

  /** An entry is due for eviction once the clock has reached its expiry. */
  predicate Expired(e: Entry, now: Instant) {
    e.expiry.Some? && now >= e.expiry.value
  }

  /** The entry an operation on `key` sees at `now`: present and not yet expired. */
  function Live(m: Store, key: string, now: Instant): Option<Entry> {
    if key in m && !Expired(m[key], now) then Some(m[key]) else None
  }

  /** What callers can observe at `now`: the values of the entries that have not expired. */
  ghost function View(m: Store, now: Instant): map<string, StoreValue> {
    map k | k in m && !Expired(m[k], now) :: m[k].value
  }

  /** `m'` differs from `m` at most in the entry of `key`. */
  ghost predicate AgreeExcept(m: Store, m': Store, key: string) {
    forall k :: k != key ==> (k in m <==> k in m') && (k in m ==> m'[k] == m[k])
  }

  /** `check_expiry`: remove the entry of `key` exactly when it has an expiry that `now` has reached. */
  function Evict(m: Store, key: string, now: Instant): (m': Store)
    ensures AgreeExcept(m, m', key)
    ensures key in m' <==> Live(m, key, now).Some?
    ensures key in m' ==> m'[key] == m[key]
  {
    if key in m && Expired(m[key], now) then m - {key} else m
  }

  /** The expiry of a write at `now` with an optional TTL. */
  function ExpiryAfter(ttl: Option<Duration>, now: Instant): Option<Instant> {
    match ttl
    case None => None
    case Some(d) => Some(now + d)
  }

  /** The expiry a container write keeps: the live entry's, or none for a new entry. */
  function KeptExpiry(m: Store, key: string, now: Instant): Option<Instant> {
    if Live(m, key, now).Some? then m[key].expiry else None
  }

  /** The list a list operation starts from: the live list, or empty. */
  function ListOf(m: Store, key: string, now: Instant): seq<string> {
    match Live(m, key, now)
    case Some(Entry(List(items), _)) => items
    case _ => []
  }

  /** The set a set operation starts from: the live set, or empty. */
  function SetOf(m: Store, key: string, now: Instant): set<string> {
    match Live(m, key, now)
    case Some(Entry(Set(members), _)) => members
    case _ => {}
  }

  /** The hash a hash operation starts from: the live hash, or empty. */
  function HashOf(m: Store, key: string, now: Instant): map<string, string> {
    match Live(m, key, now)
    case Some(Entry(Hash(fields), _)) => fields
    case _ => map[]
  }

  /** `set`: overwrite the entry of `key`, whatever it held, with a scalar and a fresh expiry. */
  ghost function SetStep(m: Store, key: string, value: string, ttl: Option<Duration>, now: Instant): (m': Store)
    ensures AgreeExcept(m, m', key)
    ensures key in m' && m'[key] == Entry(Simple(value), ExpiryAfter(ttl, now))
    ensures Live(m', key, now).Some? <==> ttl != Some(0)
  {
    m[key := Entry(Simple(value), ExpiryAfter(ttl, now))]
  }

  /** `get`: the live scalar of `key`; absent for a missing, expired or non-scalar key. */
  ghost function GetStep(m: Store, key: string, now: Instant): (r: Step<Option<string>>)
    ensures r.store == Evict(m, key, now)
    ensures r.out.Some? <==> Live(m, key, now).Some? && m[key].value.Simple?
    ensures r.out.Some? ==> m[key].value == Simple(r.out.value)
  {
    var m1 := Evict(m, key, now);
    if key in m1 && m1[key].value.Simple? then Step(m1, Some(m1[key].value.text)) else Step(m1, None)
  }

  /** `expire`: give a live key the expiry `now + ttl`, keeping its value; false for a missing or expired key. */
  ghost function ExpireStep(m: Store, key: string, ttl: Duration, now: Instant): (r: Step<bool>)
    ensures AgreeExcept(m, r.store, key)
    ensures r.out <==> Live(m, key, now).Some?
    ensures r.out ==> key in r.store && r.store[key] == Entry(m[key].value, Some(now + ttl))
    ensures !r.out ==> key !in r.store
  {
    var m1 := Evict(m, key, now);
    if key in m1 then Step(m1[key := m1[key].(expiry := Some(now + ttl))], true) else Step(m1, false)
  }

  /**
   * `ttl`: absent for a missing or expired key, -1 for a key without expiry,
   * otherwise the whole seconds left, rounded down. The branch that answers
   * 0 for an expiry at or before `now` is kept as written; the eviction just
   * before it leaves no such entry.
   */
  ghost function TtlStep(m: Store, key: string, now: Instant): (r: Step<Option<int>>)
    ensures r.store == Evict(m, key, now)
    ensures r.out.None? <==> Live(m, key, now).None?
    ensures r.out == Some(-1) <==> Live(m, key, now).Some? && m[key].expiry.None?
    ensures r.out.Some? && r.out.value != -1 ==>
      && m[key].expiry.Some? && m[key].expiry.value > now
      && r.out.value == (m[key].expiry.value - now) / NanosPerSecond
  {
    var m1 := Evict(m, key, now);
    if key in m1 && m1[key].expiry.Some? then
      var expiry := m1[key].expiry.value;
      if expiry > now then Step(m1, Some((expiry - now) / NanosPerSecond)) else Step(m1, Some(0))
    else if key in m1 then Step(m1, Some(-1))
    else Step(m1, None)
  }

  /** `del`: remove the entry without the expiry check; true iff an entry, expired or not, was there. */
  ghost function DelStep(m: Store, key: string): (r: Step<bool>)
    ensures AgreeExcept(m, r.store, key)
    ensures key !in r.store
    ensures r.out <==> key in m
  {
    Step(m - {key}, key in m)
  }

  /** The number `incr` adds to: the live scalar parsed as `i32`, or 0 for a missing or non-scalar key. */
  function IncrBase(m: Store, key: string, now: Instant): Option<i32> {
    match Live(m, key, now)
    case Some(Entry(Simple(text), _)) => ParseI32(text)
    case _ => Some(0)
  }

  /** The `i32` addition in `incr` does not overflow. */
  predicate IncrFits(m: Store, key: string, amount: i32, now: Instant) {
    IncrBase(m, key, now).Some? ==>
      -0x8000_0000 <= IncrBase(m, key, now).value as int + amount as int < 0x8000_0000
  }

  /**
   * `incr`: add `amount` to the live scalar read as an `i32` and store the sum
   * as decimal text, keeping the expiry. A missing or non-scalar key is
   * replaced by the text of `amount` with no expiry. A scalar that does not
   * parse makes the call fail and leaves the store as it was.
   */
  ghost function IncrStep(m: Store, key: string, amount: i32, now: Instant): (r: Step<Option<string>>)
    requires IncrFits(m, key, amount, now)
    ensures AgreeExcept(m, r.store, key)
    ensures r.out.None? <==> IncrBase(m, key, now).None?
    ensures r.out.None? ==> r.store == m
    ensures r.out.Some? ==>
      && key in r.store && r.store[key].value == Simple(r.out.value)
      && r.out.value == FormatInt(IncrBase(m, key, now).value as int + amount as int)
      && ParseI32(r.out.value) == Some(IncrBase(m, key, now).value + amount)
    ensures r.out.Some? ==>
      r.store[key].expiry == if Live(m, key, now).Some? && m[key].value.Simple? then m[key].expiry else None
    ensures r.out.Some? ==> Live(r.store, key, now).Some?
  {
    var m1 := Evict(m, key, now);
    if key in m1 && m1[key].value.Simple? then
      match ParseI32(m1[key].value.text)
      case Some(num) =>
        var updated := num + amount;
        ParseFormatI32(updated);
        Step(m1[key := m1[key].(value := Simple(FormatInt(updated as int)))], Some(FormatInt(updated as int)))
      case None => Step(m1, None)
    else
      ParseFormatI32(amount);
      Step(m1[key := Entry(Simple(FormatInt(amount as int)), None)], Some(FormatInt(amount as int)))
  }

  /** `append`: extend a live scalar in place and return it; absent, creating nothing, for anything else. */
  ghost function AppendStep(m: Store, key: string, suffix: string, now: Instant): (r: Step<Option<string>>)
    ensures AgreeExcept(m, r.store, key)
    ensures r.out.Some? <==> Live(m, key, now).Some? && m[key].value.Simple?
    ensures r.out.Some? ==>
      && r.out.value == m[key].value.text + suffix
      && key in r.store && r.store[key] == Entry(Simple(r.out.value), m[key].expiry)
    ensures r.out.None? ==> r.store == Evict(m, key, now)
  {
    var m1 := Evict(m, key, now);
    if key in m1 && m1[key].value.Simple? then
      var text := m1[key].value.text + suffix;
      Step(m1[key := m1[key].(value := Simple(text))], Some(text))
    else Step(m1, None)
  }

  /** `keys` pattern test: `*` matches every key, any other pattern matches the keys containing it. */
  predicate Matches(pattern: string, key: string): (b: bool)
    ensures pattern == "" || pattern == key ==> b
    ensures b && pattern != "*" ==> |pattern| <= |key|
    ensures pattern <= key ==> b
  {
    assert key[0..] == key;
    pattern == "*" || exists i :: 0 <= i <= |key| && pattern <= key[i..]
  }

  /** The keys `keys(pattern)` lists: every key present when the call starts that matches, expired or not. */
  ghost function MatchingKeys(m: Store, pattern: string): (ks: set<string>)
    ensures forall k :: k in ks <==> k in m && Matches(pattern, k)
  {
    set k | k in m && Matches(pattern, k)
  }

  /** The store after `keys`: every entry that has expired by `now` is gone, every other one is untouched. */
  ghost function EvictAll(m: Store, now: Instant): (m': Store)
    ensures forall k :: k in m' <==> k in m && !Expired(m[k], now)
    ensures forall k :: k in m' ==> m'[k] == m[k]
  {
    map k | k in m && !Expired(m[k], now) :: m[k]
  }

  /**
   * `l_push`: put `value` at the head of the live list. A missing key gets a
   * new list without expiry; a key holding another shape is replaced by a
   * one-element list that keeps the old expiry.
   */
  ghost function LPushStep(m: Store, key: string, value: string, now: Instant): (m': Store)
    ensures AgreeExcept(m, m', key)
    ensures key in m' && m'[key] == Entry(List([value] + ListOf(m, key, now)), KeptExpiry(m, key, now))
  {
    var m1 := Evict(m, key, now);
    var e := if key in m1 then m1[key] else Entry(List([]), None);
    match e.value
    case List(items) => m1[key := e.(value := List([value] + items))]
    case _ =>
      assert [value] + [] == [value];
      m1[key := e.(value := List([value]))]
  }

  /** `l_pop`: remove and return the head of the live list; absent for an empty, missing or non-list key. */
  ghost function LPopStep(m: Store, key: string, now: Instant): (r: Step<Option<string>>)
    ensures AgreeExcept(m, r.store, key)
    ensures r.out.Some? <==> ListOf(m, key, now) != []
    ensures r.out.Some? ==>
      && r.out.value == ListOf(m, key, now)[0]
      && key in r.store && r.store[key] == Entry(List(ListOf(m, key, now)[1..]), m[key].expiry)
    ensures r.out.None? ==> r.store == Evict(m, key, now)
  {
    var m1 := Evict(m, key, now);
    if key in m1 && m1[key].value.List? && m1[key].value.items != [] then
      var items := m1[key].value.items;
      Step(m1[key := m1[key].(value := List(items[1..]))], Some(items[0]))
    else Step(m1, None)
  }

  /** `s_add`: add `member` to the live set; creation and replacement as for `l_push`. */
  ghost function SAddStep(m: Store, key: string, member: string, now: Instant): (m': Store)
    ensures AgreeExcept(m, m', key)
    ensures key in m' && m'[key] == Entry(Set(SetOf(m, key, now) + {member}), KeptExpiry(m, key, now))
  {
    var m1 := Evict(m, key, now);
    var e := if key in m1 then m1[key] else Entry(Set({}), None);
    match e.value
    case Set(members) => m1[key := e.(value := Set(members + {member}))]
    case _ =>
      assert {} + {member} == {member};
      m1[key := e.(value := Set({member}))]
  }

  /** `s_members`: the live set's members; empty for a missing or non-set key. */
  ghost function SMembersStep(m: Store, key: string, now: Instant): (r: Step<set<string>>)
    ensures r.store == Evict(m, key, now)
    ensures r.out == SetOf(m, key, now)
    ensures r.out != {} ==> Live(m, key, now).Some? && m[key].value == Set(r.out)
  {
    var m1 := Evict(m, key, now);
    if key in m1 && m1[key].value.Set? then Step(m1, m1[key].value.members) else Step(m1, {})
  }

  /** `h_set`: set one field of the live hash; creation and replacement as for `l_push`. */
  ghost function HSetStep(m: Store, key: string, field: string, value: string, now: Instant): (m': Store)
    ensures AgreeExcept(m, m', key)
    ensures key in m' && m'[key] == Entry(Hash(HashOf(m, key, now)[field := value]), KeptExpiry(m, key, now))
  {
    var m1 := Evict(m, key, now);
    var e := if key in m1 then m1[key] else Entry(Hash(map[]), None);
    match e.value
    case Hash(fields) => m1[key := e.(value := Hash(fields[field := value]))]
    case _ => m1[key := e.(value := Hash(map[field := value]))]
  }

  /** `h_get`: one field of the live hash; absent for a missing field, or a missing or non-hash key. */
  ghost function HGetStep(m: Store, key: string, field: string, now: Instant): (r: Step<Option<string>>)
    ensures r.store == Evict(m, key, now)
    ensures r.out.Some? <==> field in HashOf(m, key, now)
    ensures r.out.Some? ==> r.out.value == HashOf(m, key, now)[field]
  {
    var m1 := Evict(m, key, now);
    if key in m1 && m1[key].value.Hash? && field in m1[key].value.fields then
      Step(m1, Some(m1[key].value.fields[field]))
    else Step(m1, None)
  }
}
