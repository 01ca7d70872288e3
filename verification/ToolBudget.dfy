// The AI tool budget of apps/api/src/ai-tools/ai-tool-budget.service.ts: one Lua
// script over two fixed-window counters. The clock counts whole seconds, and a key
// set to expire after n seconds is gone n seconds later.
module ToolBudget {
  import opened Basics

  datatype Key = User(userId: string) | Conversation(conversationId: string)

  datatype Counter = Counter(count: nat, expiresAt: int)

  datatype Decision = Decision(allowed: bool, retryAfterSeconds: int)

  datatype Limits = Limits(user: nat, conversation: nat)

  const WINDOW_SECONDS: int := 3600

  function LimitOf(limits: Limits, key: Key): nat {
    if key.User? then limits.user else limits.conversation
  }

  // GET, with the missing key read as 0.
  function Live(counters: map<Key, Counter>, key: Key, now: int): nat {
    if key in counters && now < counters[key].expiresAt then counters[key].count else 0
  }

  // TTL; -2 for a key that does not exist.
  function Ttl(counters: map<Key, Counter>, key: Key, now: int): int {
    if key in counters && now < counters[key].expiresAt then counters[key].expiresAt - now else -2
  }

  // INCR, then EXPIRE when the key is new.
  function Incremented(counters: map<Key, Counter>, key: Key, now: int): map<Key, Counter> {
    var count := Live(counters, key, now) + 1;
    counters[key := Counter(count, if count == 1 then now + WINDOW_SECONDS else counters[key].expiresAt)]
  }

  datatype Call = Call(user: string, conversation: string, at: int)

  predicate Touches(call: Call, key: Key) { key == User(call.user) || key == Conversation(call.conversation) }

  predicate IsFull(counters: map<Key, Counter>, limits: Limits, key: Key, now: int) {
    Live(counters, key, now) >= LimitOf(limits, key)
  }

  predicate IsDenied(counters: map<Key, Counter>, limits: Limits, call: Call) {
    || IsFull(counters, limits, User(call.user), call.at)
    || IsFull(counters, limits, Conversation(call.conversation), call.at)
  }

  // --------------------------------------------------------------------
  // The script
  // --------------------------------------------------------------------

  class Budget {
    var counters: map<Key, Counter>
    const limits: Limits

    constructor (limits: Limits)
      ensures counters == map[] && this.limits == limits
    {
      counters := map[];
      this.limits := limits;
    }

    method Consume(call: Call) returns (decision: Decision)
      modifies this`counters
      ensures decision.allowed == !IsDenied(old(counters), limits, call)
      ensures counters == After(old(counters), limits, call)
      ensures decision.retryAfterSeconds == if decision.allowed then 0 else Retry(old(counters), limits, call)
    {
      var userKey, convKey := User(call.user), Conversation(call.conversation);
      var userCount, convCount := Live(counters, userKey, call.at), Live(counters, convKey, call.at);
      if userCount >= limits.user || convCount >= limits.conversation {
        var retry := 0;
        if userCount >= limits.user {
          var ttl := Ttl(counters, userKey, call.at);
          if ttl > retry { retry := ttl; }
        }
        if convCount >= limits.conversation {
          var ttl := Ttl(counters, convKey, call.at);
          if ttl > retry { retry := ttl; }
        }
        if retry <= 0 { retry := WINDOW_SECONDS; }
        return Decision(false, retry);
      }
      Increment(userKey, call.at);
      Increment(convKey, call.at);
      return Decision(true, 0);
    }

    method Increment(key: Key, now: int)
      modifies this`counters
      ensures counters == Incremented(old(counters), key, now)
    {
      var count := Live(counters, key, now) + 1;
      var expiresAt := if count == 1 then now + WINDOW_SECONDS else counters[key].expiresAt;
      counters := counters[key := Counter(count, expiresAt)];
    }
  }

  // --------------------------------------------------------------------
  // What a call does
  // --------------------------------------------------------------------

  function After(counters: map<Key, Counter>, limits: Limits, call: Call): map<Key, Counter> {
    if IsDenied(counters, limits, call) then counters
    else Incremented(Incremented(counters, User(call.user), call.at), Conversation(call.conversation), call.at)
  }

  // The longest time a full counter still has; a whole window when none has any.
  function Retry(counters: map<Key, Counter>, limits: Limits, call: Call): int {
    var u := if IsFull(counters, limits, User(call.user), call.at) then Ttl(counters, User(call.user), call.at) else 0;
    var conv := Conversation(call.conversation);
    var c := if IsFull(counters, limits, conv, call.at) then Ttl(counters, conv, call.at) else 0;
    if Max(u, c) <= 0 then WINDOW_SECONDS else Max(u, c)
  }

  // A denied call charges nobody; an allowed one adds one to its own two counters,
  // leaves every other alone, and leaves no counter it touched without an expiry.
  lemma ACallChargesBothOrNeither(counters: map<Key, Counter>, limits: Limits, call: Call, key: Key)
    ensures var after := After(counters, limits, call);
            Live(after, key, call.at) == Live(counters, key, call.at)
                                         + if Touches(call, key) && !IsDenied(counters, limits, call) then 1 else 0
    ensures var after := After(counters, limits, call);
            Live(after, key, call.at) > 0 ==>
              Live(counters, key, call.at) > 0 || after[key].expiresAt == call.at + WINDOW_SECONDS
  {
  }

  // With no other traffic, the same call is denied until the returned seconds have
  // passed, and from then on allowed exactly when both limits are above zero.
  lemma RetryIsExact(counters: map<Key, Counter>, limits: Limits, call: Call, later: Call)
    requires IsDenied(counters, limits, call) && later == call.(at := later.at) && later.at >= call.at
    ensures limits.user > 0 && limits.conversation > 0 ==>
      (IsDenied(counters, limits, later) <==> later.at < call.at + Retry(counters, limits, call))
    ensures limits.user == 0 || limits.conversation == 0 ==> IsDenied(counters, limits, later)
  {
  }

  // --------------------------------------------------------------------
  // Runs
  // --------------------------------------------------------------------

  datatype State = State(counters: map<Key, Counter>, granted: seq<Call>)

  function Next(state: State, limits: Limits, call: Call): State {
    State(After(state.counters, limits, call),
          if IsDenied(state.counters, limits, call) then state.granted else state.granted + [call])
  }

  // The state after the calls, in time order, from empty counters.
  function Run(calls: seq<Call>, limits: Limits): State {
    if calls == [] then State(map[], [])
    else Next(Run(calls[..|calls| - 1], limits), limits, calls[|calls| - 1])
  }

  predicate InTimeOrder(calls: seq<Call>) { forall i, j | 0 <= i < j < |calls| :: calls[i].at <= calls[j].at }

  // How many of the calls touch `key` at or after a time, and in an interval.
  function Since(calls: seq<Call>, key: Key, from: int): nat {
    if calls == [] then 0
    else
      var call := calls[|calls| - 1];
      Since(calls[..|calls| - 1], key, from) + if Touches(call, key) && from <= call.at then 1 else 0
  }

  function Count(calls: seq<Call>, key: Key, from: int, until: int): nat {
    if calls == [] then 0
    else
      var call := calls[|calls| - 1];
      Count(calls[..|calls| - 1], key, from, until) + if Touches(call, key) && from <= call.at < until then 1 else 0
  }

  lemma SinceAppend(calls: seq<Call>, call: Call, key: Key, from: int)
    ensures Since(calls + [call], key, from)
         == Since(calls, key, from) + if Touches(call, key) && from <= call.at then 1 else 0
  {
    assert (calls + [call])[..|calls|] == calls;
  }

  lemma {:induction false} CountIsTheDifference(calls: seq<Call>, key: Key, from: int, until: int)
    requires from <= until
    ensures Since(calls, key, from) == Count(calls, key, from, until) + Since(calls, key, until)
  {
    if calls != [] { CountIsTheDifference(calls[..|calls| - 1], key, from, until); }
  }

  lemma SinceFalls(calls: seq<Call>, key: Key, from: int, until: int)
    requires from <= until
    ensures Since(calls, key, from) >= Since(calls, key, until)
  {
    CountIsTheDifference(calls, key, from, until);
  }

  // What the counter of `key` says about everything granted so far: it counts its
  // own window; the window's first call came at its start; nothing came after it;
  // and the hour before it holds fewer calls than the limit, because the earlier
  // window began with a call that lies outside that hour.
  ghost predicate CounterIsTrue(state: State, limit: nat, key: Key, now: int) {
    if key !in state.counters then forall from: int :: Since(state.granted, key, from) == 0
    else
      var c := state.counters[key];
      var start := c.expiresAt - WINDOW_SECONDS;
      && start <= now && 1 <= c.count <= limit
      && Since(state.granted, key, start) == c.count
      && Since(state.granted, key, start + 1) <= c.count - 1
      && Since(state.granted, key, c.expiresAt) == 0
      && Since(state.granted, key, start - WINDOW_SECONDS + 1) <= c.count + limit - 1
  }

  lemma OtherCallsKeepTheCounter(state: State, limits: Limits, call: Call, key: Key, now: int)
    requires CounterIsTrue(state, LimitOf(limits, key), key, now) && now <= call.at
    requires IsDenied(state.counters, limits, call) || !Touches(call, key)
    ensures CounterIsTrue(Next(state, limits, call), LimitOf(limits, key), key, call.at)
  {
    var after := Next(state, limits, call);
    forall from: int ensures Since(after.granted, key, from) == Since(state.granted, key, from) {
      SinceAppend(state.granted, call, key, from);
    }
  }

  lemma CallsInTheWindowAreCounted(state: State, limits: Limits, call: Call, key: Key, now: int)
    requires CounterIsTrue(state, LimitOf(limits, key), key, now) && now <= call.at
    requires !IsDenied(state.counters, limits, call) && Touches(call, key)
    requires key in state.counters && call.at < state.counters[key].expiresAt
    ensures CounterIsTrue(Next(state, limits, call), LimitOf(limits, key), key, call.at)
  {
    var c := state.counters[key];
    var start := c.expiresAt - WINDOW_SECONDS;
    SinceAppend(state.granted, call, key, start);
    SinceAppend(state.granted, call, key, start + 1);
    SinceAppend(state.granted, call, key, c.expiresAt);
    SinceAppend(state.granted, call, key, start - WINDOW_SECONDS + 1);
    ACallSetsItsCounter(state.counters, limits, call, key);
  }

  lemma ACallSetsItsCounter(counters: map<Key, Counter>, limits: Limits, call: Call, key: Key)
    requires !IsDenied(counters, limits, call) && Touches(call, key)
    ensures var after := After(counters, limits, call);
            key in after && after[key] == Counter(Live(counters, key, call.at) + 1,
              if Live(counters, key, call.at) == 0 then call.at + WINDOW_SECONDS else counters[key].expiresAt)
    ensures Live(counters, key, call.at) < LimitOf(limits, key)
  {
  }

  lemma ANewWindowStartsTrue(state: State, limits: Limits, call: Call, key: Key, now: int)
    requires CounterIsTrue(state, LimitOf(limits, key), key, now) && now <= call.at
    requires !IsDenied(state.counters, limits, call) && Touches(call, key)
    requires key !in state.counters || state.counters[key].expiresAt <= call.at
    ensures CounterIsTrue(Next(state, limits, call), LimitOf(limits, key), key, call.at)
  {
    var t := call.at;
    ACallSetsItsCounter(state.counters, limits, call, key);
    SinceAppend(state.granted, call, key, t);
    SinceAppend(state.granted, call, key, t + 1);
    SinceAppend(state.granted, call, key, t + WINDOW_SECONDS);
    SinceAppend(state.granted, call, key, t - WINDOW_SECONDS + 1);
    if key in state.counters {
      var end := state.counters[key].expiresAt;
      SinceFalls(state.granted, key, end, t);
      SinceFalls(state.granted, key, end, t + 1);
      SinceFalls(state.granted, key, end, t + WINDOW_SECONDS);
      SinceFalls(state.granted, key, end - WINDOW_SECONDS + 1, t - WINDOW_SECONDS + 1);
    }
  }

  // The time of the last call, or any earlier time when there is none.
  function LastTime(calls: seq<Call>, otherwise: int): int {
    if calls == [] then otherwise else calls[|calls| - 1].at
  }

  lemma {:induction false} RunKeepsCountersTrue(calls: seq<Call>, limits: Limits, key: Key, now: int)
    requires InTimeOrder(calls) && LastTime(calls, now) <= now
    ensures CounterIsTrue(Run(calls, limits), LimitOf(limits, key), key, now)
  {
    if calls != [] {
      var front, call := calls[..|calls| - 1], calls[|calls| - 1];
      RunKeepsCountersTrue(front, limits, key, call.at);
      StepKeepsCountersTrue(Run(front, limits), limits, call, key);
    }
  }

  lemma StepKeepsCountersTrue(state: State, limits: Limits, call: Call, key: Key)
    requires CounterIsTrue(state, LimitOf(limits, key), key, call.at)
    ensures CounterIsTrue(Next(state, limits, call), LimitOf(limits, key), key, call.at)
  {
    if IsDenied(state.counters, limits, call) || !Touches(call, key) {
      OtherCallsKeepTheCounter(state, limits, call, key, call.at);
    } else if key in state.counters && call.at < state.counters[key].expiresAt {
      CallsInTheWindowAreCounted(state, limits, call, key, call.at);
    } else {
      ANewWindowStartsTrue(state, limits, call, key, call.at);
    }
  }

  // The hours that hold the last granted call.
  lemma HoursOfTheLastCall(state: State, limit: nat, key: Key, now: int, from: int)
    requires CounterIsTrue(state, limit, key, now) && key in state.counters && now < from + WINDOW_SECONDS
    ensures Since(state.granted, key, from) <= 2 * limit - 1
  {
    var start := state.counters[key].expiresAt - WINDOW_SECONDS;
    if from >= start {
      SinceFalls(state.granted, key, start, from);
    } else {
      SinceFalls(state.granted, key, start - WINDOW_SECONDS + 1, from);
    }
  }

  lemma AGrantKeepsTheBound(state: State, limits: Limits, call: Call, key: Key, from: int)
    requires CounterIsTrue(state, LimitOf(limits, key), key, call.at)
    requires Count(state.granted, key, from, from + WINDOW_SECONDS) <= Max(0, 2 * LimitOf(limits, key) - 1)
    ensures Count(Next(state, limits, call).granted, key, from, from + WINDOW_SECONDS)
         <= Max(0, 2 * LimitOf(limits, key) - 1)
  {
    if !IsDenied(state.counters, limits, call) {
      var after := Next(state, limits, call);
      CountAppend(state.granted, call, key, from, from + WINDOW_SECONDS);
      if Touches(call, key) && from <= call.at < from + WINDOW_SECONDS {
        StepKeepsCountersTrue(state, limits, call, key);
        ACallSetsItsCounter(state.counters, limits, call, key);
        HoursOfTheLastCall(after, LimitOf(limits, key), key, call.at, from);
        CountIsTheDifference(after.granted, key, from, from + WINDOW_SECONDS);
      }
    }
  }

  // Any 3600 seconds hold fewer than twice the limit of allowed calls, per user and
  // per conversation, in every run.
  lemma {:induction false} AnyHourHoldsLessThanTwiceTheLimit(calls: seq<Call>, limits: Limits, key: Key, from: int)
    requires InTimeOrder(calls)
    ensures Count(Run(calls, limits).granted, key, from, from + 3600)
         <= Max(0, 2 * (match key case User(_) => limits.user case Conversation(_) => limits.conversation) - 1)
  {
    if calls != [] {
      var front, call := calls[..|calls| - 1], calls[|calls| - 1];
      AnyHourHoldsLessThanTwiceTheLimit(front, limits, key, from);
      RunKeepsCountersTrue(front, limits, key, call.at);
      AGrantKeepsTheBound(Run(front, limits), limits, call, key, from);
    }
  }

  lemma CountAppend(calls: seq<Call>, call: Call, key: Key, from: int, until: int)
    ensures Count(calls + [call], key, from, until)
         == Count(calls, key, from, until) + if Touches(call, key) && from <= call.at < until then 1 else 0
  {
    assert (calls + [call])[..|calls|] == calls;
  }

  // --------------------------------------------------------------------
  // The bound is reached
  // --------------------------------------------------------------------

  // Names that are all different.
  function Name(i: nat): string { seq(i, _ => 'x') }

  // Call `i` is the key's own and touches a counter of its own beside it.
  function CallOf(key: Key, i: nat, at: int): Call {
    match key
    case User(id) => Call(id, Name(i), at)
    case Conversation(id) => Call(Name(i), id, at)
  }

  function Beside(key: Key, i: nat): Key { if key.User? then Conversation(Name(i)) else User(Name(i)) }

  function Burst(key: Key, i: nat, n: nat, at: int): (calls: seq<Call>)
    ensures |calls| == n && forall k | 0 <= k < n :: calls[k].at == at
  {
    if n == 0 then [] else Burst(key, i, n - 1, at) + [CallOf(key, i + n - 1, at)]
  }

  ghost predicate Unused(counters: map<Key, Counter>, key: Key, i: nat) {
    forall j: nat | j >= i :: Beside(key, j) !in counters
  }

  lemma NamesDiffer(i: nat, j: nat)
    requires i != j
    ensures Name(i) != Name(j)
  {
    assert |Name(i)| == i && |Name(j)| == j;
  }

  lemma OneMoreGrant(s: State, limits: Limits, key: Key, i: nat, at: int)
    requires limits.user >= 1 && limits.conversation >= 1
    requires Unused(s.counters, key, i) && Live(s.counters, key, at) < LimitOf(limits, key)
    ensures var t, live := Next(s, limits, CallOf(key, i, at)), Live(s.counters, key, at);
            && t.granted == s.granted + [CallOf(key, i, at)] && Unused(t.counters, key, i + 1)
            && key in t.counters
            && t.counters[key]
               == Counter(live + 1, if live == 0 then at + WINDOW_SECONDS else s.counters[key].expiresAt)
  {
    var t := Next(s, limits, CallOf(key, i, at));
    assert Beside(key, i) !in s.counters;
    assert !IsDenied(s.counters, limits, CallOf(key, i, at));
    forall j: nat | j >= i + 1 ensures Beside(key, j) !in t.counters { NamesDiffer(i, j); }
  }

  // These calls were allowed, `i` of the counters beside the key are used up, and its
  // own stands at `count`.
  ghost predicate Stands(s: State, calls: seq<Call>, key: Key, i: nat, count: nat, expiresAt: int) {
    && s.granted == calls && Unused(s.counters, key, i)
    && key in s.counters && s.counters[key] == Counter(count, expiresAt)
  }

  lemma WindowOpens(s: State, limits: Limits, key: Key, i: nat, at: int)
    requires limits.user >= 1 && limits.conversation >= 1
    requires Unused(s.counters, key, i) && Live(s.counters, key, at) == 0
    ensures var call := CallOf(key, i, at);
            Stands(Next(s, limits, call), s.granted + [call], key, i + 1, 1, at + WINDOW_SECONDS)
  {
    OneMoreGrant(s, limits, key, i, at);
  }

  lemma WindowGoesOn(s: State, calls: seq<Call>, limits: Limits, key: Key, i: nat, at: int, count: nat, expiresAt: int)
    requires limits.user >= 1 && limits.conversation >= 1 && Stands(s, calls, key, i, count, expiresAt)
    requires at < expiresAt && 0 < count < LimitOf(limits, key)
    ensures var call := CallOf(key, i, at);
            Stands(Next(s, limits, call), calls + [call], key, i + 1, count + 1, expiresAt)
  {
    OneMoreGrant(s, limits, key, i, at);
  }

  function AfterBurst(s: State, limits: Limits, key: Key, i: nat, n: nat, at: int): State {
    if n == 0 then s else Next(AfterBurst(s, limits, key, i, n - 1, at), limits, CallOf(key, i + n - 1, at))
  }

  lemma RunLast(all: seq<Call>, front: seq<Call>, last: Call, limits: Limits, s: State)
    requires all == front + [last] && s == Run(front, limits)
    ensures Run(all, limits) == Next(s, limits, last)
  {
    assert all[..|front|] == front;
  }

  lemma AfterBurstNext(s: State, limits: Limits, key: Key, i: nat, n: nat, at: int, t: State)
    requires n > 0 && t == AfterBurst(s, limits, key, i, n - 1, at)
    ensures AfterBurst(s, limits, key, i, n, at) == Next(t, limits, CallOf(key, i + n - 1, at))
  {
  }

  lemma {:induction false} RunBurst(calls: seq<Call>, all: seq<Call>, limits: Limits, key: Key, i: nat, n: nat, at: int)
    requires all == calls + Burst(key, i, n, at)
    ensures Run(all, limits) == AfterBurst(Run(calls, limits), limits, key, i, n, at)
    decreases n
  {
    if n == 0 {
      assert all == calls;
    } else {
      var front, last := calls + Burst(key, i, n - 1, at), CallOf(key, i + n - 1, at);
      RunBurst(calls, front, limits, key, i, n - 1, at);
      Reassociate(calls, Burst(key, i, n - 1, at), [last]);
      RunLast(all, front, last, limits, Run(front, limits));
      AfterBurstNext(Run(calls, limits), limits, key, i, n, at, Run(front, limits));
    }
  }

  // As many calls at one moment as the counter still has room for are all allowed.
  lemma {:induction false} BurstIsGranted(s: State, calls: seq<Call>, all: seq<Call>, limits: Limits, key: Key, i: nat,
                                          n: nat, at: int, count: nat, expiresAt: int)
    requires limits.user >= 1 && limits.conversation >= 1
    requires Stands(s, calls, key, i, count, expiresAt) && all == calls + Burst(key, i, n, at)
    requires at < expiresAt && 0 < count && count + n <= LimitOf(limits, key)
    ensures Stands(AfterBurst(s, limits, key, i, n, at), all, key, i + n, count + n, expiresAt)
    decreases n
  {
    if n == 0 {
      assert all == calls;
    } else {
      var front, t := calls + Burst(key, i, n - 1, at), AfterBurst(s, limits, key, i, n - 1, at);
      BurstIsGranted(s, calls, front, limits, key, i, n - 1, at, count, expiresAt);
      AfterBurstNext(s, limits, key, i, n, at, t);
      Reassociate(calls, Burst(key, i, n - 1, at), [CallOf(key, i + n - 1, at)]);
      WindowGoesOn(t, front, limits, key, i + n - 1, at, count + n - 1, expiresAt);
    }
  }

  lemma {:induction false} BurstCounts(calls: seq<Call>, key: Key, i: nat, n: nat, at: int, from: int, until: int)
    ensures Count(calls + Burst(key, i, n, at), key, from, until)
         == Count(calls, key, from, until) + if from <= at < until then n else 0
  {
    if n == 0 {
      assert calls + [] == calls;
    } else {
      var front, last := Burst(key, i, n - 1, at), CallOf(key, i + n - 1, at);
      BurstCounts(calls, key, i, n - 1, at, from, until);
      CountAppend(calls + front, last, key, from, until);
      Reassociate(calls, front, [last]);
    }
  }

  // One call at the start of a window, the rest of the limit in its last second, and a
  // full limit in the second after it.
  function Rush(key: Key, limit: nat): seq<Call>
    requires limit >= 1
  {
    [] + [CallOf(key, 0, 0)] + Burst(key, 1, limit - 1, WINDOW_SECONDS - 1)
    + [CallOf(key, limit, WINDOW_SECONDS)] + Burst(key, limit + 1, limit - 1, WINDOW_SECONDS)
  }

  lemma WindowFills(s: State, limits: Limits, key: Key, i: nat, limit: nat, start: int, at: int,
                    calls: seq<Call>, t: State)
    requires limits.user >= 1 && limits.conversation >= 1 && limit == LimitOf(limits, key)
    requires start <= at < start + WINDOW_SECONDS
    requires Unused(s.counters, key, i) && Live(s.counters, key, start) == 0
    requires calls == s.granted + [CallOf(key, i, start)] && t == Next(s, limits, CallOf(key, i, start))
    ensures Stands(AfterBurst(t, limits, key, i + 1, limit - 1, at), calls + Burst(key, i + 1, limit - 1, at),
                   key, i + limit, limit, start + WINDOW_SECONDS)
  {
    WindowOpens(s, limits, key, i, start);
    BurstIsGranted(t, calls, calls + Burst(key, i + 1, limit - 1, at), limits, key, i + 1, limit - 1, at, 1,
                   start + WINDOW_SECONDS);
  }

  // One window: its first call, and as many at a later moment as the limit allows.
  lemma WindowIsGranted(calls: seq<Call>, all: seq<Call>, limits: Limits, key: Key, i: nat, limit: nat,
                        start: int, at: int, s: State)
    requires limits.user >= 1 && limits.conversation >= 1 && limit == LimitOf(limits, key)
    requires start <= at < start + WINDOW_SECONDS
    requires s == Run(calls, limits) && s.granted == calls && Unused(s.counters, key, i)
          && Live(s.counters, key, start) == 0
    requires all == calls + [CallOf(key, i, start)] + Burst(key, i + 1, limit - 1, at)
    ensures Stands(Run(all, limits), all, key, i + limit, limit, start + WINDOW_SECONDS)
  {
    var one, t := calls + [CallOf(key, i, start)], Next(s, limits, CallOf(key, i, start));
    RunLast(one, calls, CallOf(key, i, start), limits, s);
    RunBurst(one, all, limits, key, i + 1, limit - 1, at);
    WindowFills(s, limits, key, i, limit, start, at, one, t);
  }

  lemma WindowIsOver(s: State, calls: seq<Call>, key: Key, i: nat, count: nat, at: int)
    requires Stands(s, calls, key, i, count, at)
    ensures s.granted == calls && Unused(s.counters, key, i) && Live(s.counters, key, at) == 0
  {
  }

  lemma FirstWindowIsGranted(limits: Limits, key: Key, limit: nat, full: seq<Call>)
    requires limits.user >= 1 && limits.conversation >= 1 && limit == LimitOf(limits, key)
    requires full == [] + [CallOf(key, 0, 0)] + Burst(key, 1, limit - 1, WINDOW_SECONDS - 1)
    ensures var s := Run(full, limits);
            s.granted == full && Unused(s.counters, key, limit) && Live(s.counters, key, WINDOW_SECONDS) == 0
  {
    WindowIsGranted([], full, limits, key, 0, limit, 0, WINDOW_SECONDS - 1, Run([], limits));
    WindowIsOver(Run(full, limits), full, key, limit, limit, WINDOW_SECONDS);
  }

  lemma RushIsGranted(key: Key, limits: Limits, limit: nat)
    requires limits.user >= 1 && limits.conversation >= 1 && limit == LimitOf(limits, key)
    ensures Run(Rush(key, limit), limits).granted == Rush(key, limit)
  {
    var w := WINDOW_SECONDS;
    var full := [] + [CallOf(key, 0, 0)] + Burst(key, 1, limit - 1, w - 1);
    FirstWindowIsGranted(limits, key, limit, full);
    WindowIsGranted(full, Rush(key, limit), limits, key, limit, limit, w, w, Run(full, limits));
  }

  // Calls that end by a time, and calls from that time on.
  lemma InTurn(a: seq<Call>, b: seq<Call>, m: int, until: int)
    requires InTimeOrder(a) && forall k | 0 <= k < |a| :: a[k].at <= m
    requires InTimeOrder(b) && (forall k | 0 <= k < |b| :: m <= b[k].at <= until) && m <= until
    ensures InTimeOrder(a + b) && forall k | 0 <= k < |a + b| :: (a + b)[k].at <= until
  {
  }

  lemma RushIsInOrder(key: Key, limit: nat)
    requires limit >= 1
    ensures InTimeOrder(Rush(key, limit))
  {
    var w := WINDOW_SECONDS;
    var one := [] + [CallOf(key, 0, 0)];
    InTurn(one, Burst(key, 1, limit - 1, w - 1), 0, w - 1);
    var full := one + Burst(key, 1, limit - 1, w - 1);
    InTurn(full, [CallOf(key, limit, w)], w - 1, w);
    InTurn(full + [CallOf(key, limit, w)], Burst(key, limit + 1, limit - 1, w), w, w);
  }

  lemma RushCounts(key: Key, limit: nat, from: int)
    requires limit >= 1 && from == WINDOW_SECONDS - 1
    ensures Count(Rush(key, limit), key, from, from + WINDOW_SECONDS) == 2 * limit - 1
  {
    var w := WINDOW_SECONDS;
    var none: seq<Call> := [];
    CountAppend(none, CallOf(key, 0, 0), key, from, from + w);
    var one := none + [CallOf(key, 0, 0)];
    BurstCounts(one, key, 1, limit - 1, from, from, from + w);
    var full := one + Burst(key, 1, limit - 1, from);
    CountAppend(full, CallOf(key, limit, w), key, from, from + w);
    BurstCounts(full + [CallOf(key, limit, w)], key, limit + 1, limit - 1, w, from, from + w);
  }

  // The bound is tight for every limit: some run has 2*limit-1 calls of the key
  // allowed within an hour.
  lemma TheBoundIsReached(limits: Limits, key: Key)
    requires limits.user >= 1 && limits.conversation >= 1
    ensures var calls, from := Rush(key, LimitOf(limits, key)), WINDOW_SECONDS - 1;
            && InTimeOrder(calls)
            && Count(Run(calls, limits).granted, key, from, from + WINDOW_SECONDS) == 2 * LimitOf(limits, key) - 1
  {
    RushIsInOrder(key, LimitOf(limits, key));
    RushIsGranted(key, limits, LimitOf(limits, key));
    RushCounts(key, LimitOf(limits, key), WINDOW_SECONDS - 1);
  }
}
