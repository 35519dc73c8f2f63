/** The automatic IP block-list (src/app/ip_blocklist.rs), as a class that refines a plain
    log of events, and what that log says about who is blocked. Times are microseconds. */
module IpBlocklist {
  import opened Prelude

  const MICROS := 1_000_000
  const WINDOW_SECS := 15
  const HARD_FAIL_THRESHOLD := 5
  const SOFT_FAIL_THRESHOLD := 30
  const BLOCK_SECS := 300
  const U16_MAX := 65535

  type Ip = string

  datatype Severity = Hard | Soft

  function Threshold(severity: Severity): (r: nat)
  {
    if severity.Hard? then HARD_FAIL_THRESHOLD else SOFT_FAIL_THRESHOLD
  }

  datatype Entry = Entry(hard: nat, soft: nat, windowStart: int, blockedUntil: Option<int>) {
    function CountOf(severity: Severity): (r: nat) { if severity.Hard? then hard else soft }

    predicate BlockedAt(now: int) { blockedUntil.Some? && blockedUntil.value > now }

    /** Whole seconds since the window opened, rounded toward zero. */
    function Age(now: int): (r: int)
    {
      if now >= windowStart then (now - windowStart) / MICROS else -((windowStart - now) / MICROS)
    }

    predicate Stale(now: int) { Age(now) > WINDOW_SECS }
  }

  /** A counter step; `cap` is the largest value of the counter's type, if it has one. */
  function Bump(n: nat, cap: Option<nat>): (r: nat)
  {
    if cap.Some? && n >= cap.value then n else n + 1
  }

  /** The entry after one more failure. */
  function Failed(entry: Option<Entry>, now: int, severity: Severity, cap: Option<nat>): (r: Entry)
  {
    var e := if entry.Some? then entry.value else Entry(0, 0, now, None);
    var e := if e.Stale(now) then e.(hard := 0, soft := 0, windowStart := now) else e;
    var e := if severity.Hard? then e.(hard := Bump(e.hard, cap)) else e.(soft := Bump(e.soft, cap));
    if e.hard >= HARD_FAIL_THRESHOLD || e.soft >= SOFT_FAIL_THRESHOLD then e.(blockedUntil := Some(now + BLOCK_SECS * MICROS)) else e
  }

  predicate Keeps(e: Entry, now: int) { e.BlockedAt(now) || !e.Stale(now) }

  /** `Clear` is a success or an explicit unblock. */
  datatype Event = Failure(at: int, ip: Ip, severity: Severity) | Clear(at: int, ip: Ip) | Cleanup(at: int)

  function Apply(entry: Option<Entry>, ev: Event, ip: Ip, cap: Option<nat>): (r: Option<Entry>)
  {
    match ev
    case Failure(at, who, severity) => if who == ip then Some(Failed(entry, at, severity, cap)) else entry
    case Clear(_, who) => if who == ip then None else entry
    case Cleanup(at) => if entry.Some? && !Keeps(entry.value, at) then None else entry
  }

  /** What the block-list holds about `ip` after a log of events. */
  function Replay(log: seq<Event>, ip: Ip, cap: Option<nat>): (r: Option<Entry>)
  {
    if log == [] then None else Apply(Replay(log[..|log| - 1], ip, cap), log[|log| - 1], ip, cap)
  }

  predicate Blocked(entry: Option<Entry>, now: int) { entry.Some? && entry.value.BlockedAt(now) }

  const U16: Option<nat> := Some(U16_MAX)

  function Lookup(entries: map<Ip, Entry>, ip: Ip): (r: Option<Entry>)
  {
    if ip in entries then Some(entries[ip]) else None
  }

  lemma ReplayNext(log: seq<Event>, ev: Event, ip: Ip, cap: Option<nat>)
    ensures Replay(log + [ev], ip, cap) == Apply(Replay(log, ip, cap), ev, ip, cap)
  {
    assert (log + [ev])[..|log|] == log;
  }

  /** The map holds exactly what the log says about every address. */
  ghost predicate Agrees(entries: map<Ip, Entry>, log: seq<Event>)
  {
    forall ip :: Lookup(entries, ip) == Replay(log, ip, U16)
  }

  /** The map changes about every address as the event says. */
  ghost predicate Follows(before: map<Ip, Entry>, ev: Event, after: map<Ip, Entry>)
  {
    forall ip :: Lookup(after, ip) == Apply(Lookup(before, ip), ev, ip, U16)
  }

  lemma AgreesNext(before: map<Ip, Entry>, log: seq<Event>, ev: Event, after: map<Ip, Entry>)
    requires Agrees(before, log) && Follows(before, ev, after)
    ensures Agrees(after, log + [ev])
  {
    forall ip ensures Lookup(after, ip) == Replay(log + [ev], ip, U16) {
      assert Lookup(before, ip) == Replay(log, ip, U16);
      ReplayNext(log, ev, ip, U16);
    }
  }

  class Blocklist {
    var entries: map<Ip, Entry>
    /** Addresses that are never blocked and whose failures are not counted. */
    var whiteList: set<Ip>
    ghost var log: seq<Event>

    ghost predicate Valid()
      reads this
    {
      Agrees(entries, log)
    }

    constructor ()
      ensures Valid() && log == [] && whiteList == {}
    {
      entries, whiteList, log := map[], {}, [];
    }

    method IsBlocked(ip: Ip, now: int) returns (blocked: bool)
      requires Valid()
      ensures blocked <==> ip !in whiteList && Blocked(Replay(log, ip, U16), now)
    {
      assert Lookup(entries, ip) == Replay(log, ip, U16);
      if ip in whiteList { return false; }
      if ip !in entries { return false; }
      if entries[ip].blockedUntil.None? { return false; }
      blocked := entries[ip].blockedUntil.value > now;
    }

    method RegisterSuccess(ip: Ip, ghost now: int)
      requires Valid()
      modifies `entries, `log
      ensures Valid() && log == old(log) + [Clear(now, ip)]
    {
      ghost var before := entries;
      entries := entries - {ip};
      assert Follows(before, Clear(now, ip), entries);
      AgreesNext(before, log, Clear(now, ip), entries);
      log := log + [Clear(now, ip)];
    }

    method Unblock(ip: Ip, ghost now: int) returns (removed: bool)
      requires Valid()
      modifies `entries, `log
      ensures Valid() && log == old(log) + [Clear(now, ip)]
      ensures removed <==> Replay(old(log), ip, U16).Some?
    {
      ghost var before := entries;
      assert Lookup(entries, ip) == Replay(log, ip, U16);
      removed := ip in entries;
      entries := entries - {ip};
      assert Follows(before, Clear(now, ip), entries);
      AgreesNext(before, log, Clear(now, ip), entries);
      log := log + [Clear(now, ip)];
    }

    method RegisterFailure(ip: Ip, severity: Severity, now: int) returns (newlyBlocked: bool)
      requires Valid()
      modifies `entries, `log
      ensures Valid()
      ensures log == if ip in whiteList then old(log) else old(log) + [Failure(now, ip, severity)]
      ensures newlyBlocked <==>
                ip !in whiteList && !Blocked(Replay(old(log), ip, U16), now) && Blocked(Lookup(entries, ip), now)
    {
      if ip in whiteList { return false; }
      ghost var before := entries;
      assert Lookup(entries, ip) == Replay(log, ip, U16);
      var entry := if ip in entries then entries[ip] else Entry(0, 0, now, None);
      if entry.Age(now) > WINDOW_SECS {
        entry := entry.(hard := 0, soft := 0, windowStart := now);
      }
      var wasBlocked := entry.BlockedAt(now);
      match severity {
        case Hard => entry := entry.(hard := if entry.hard >= U16_MAX then entry.hard else entry.hard + 1);
        case Soft => entry := entry.(soft := if entry.soft >= U16_MAX then entry.soft else entry.soft + 1);
      }
      if entry.hard >= HARD_FAIL_THRESHOLD || entry.soft >= SOFT_FAIL_THRESHOLD {
        entry := entry.(blockedUntil := Some(now + BLOCK_SECS * MICROS));
      }
      entries := entries[ip := entry];
      newlyBlocked := entry.BlockedAt(now) && !wasBlocked;
      assert Follows(before, Failure(now, ip, severity), entries);
      AgreesNext(before, log, Failure(now, ip, severity), entries);
      log := log + [Failure(now, ip, severity)];
    }

    /** Drops what no later answer depends on and counts the addresses still blocked. */
    method CleanUp(now: int) returns (blocked: nat)
      requires Valid()
      modifies `entries, `log
      ensures Valid() && log == old(log) + [Cleanup(now)]
      ensures forall ip :: Blocked(Replay(old(log), ip, U16), now) <==> Blocked(Lookup(entries, ip), now)
      ensures blocked == |set ip | ip in entries && entries[ip].BlockedAt(now)|
    {
      ghost var before := entries;
      entries := map ip | ip in entries && Keeps(entries[ip], now) :: entries[ip];
      assert Follows(before, Cleanup(now), entries);
      AgreesNext(before, log, Cleanup(now), entries);
      forall ip ensures Blocked(Replay(old(log), ip, U16), now) <==> Blocked(Lookup(entries, ip), now) {
        assert Lookup(before, ip) == Replay(log, ip, U16);
      }
      log := log + [Cleanup(now)];
      var held := set ip | ip in entries && entries[ip].BlockedAt(now);
      blocked := |held|;
    }
  }

  // ----- what the log says

  ghost predicate Monotone(log: seq<Event>)
  {
    forall i, j :: 0 <= i <= j < |log| ==> log[i].at <= log[j].at
  }

  predicate IsFailure(ev: Event, ip: Ip) { ev.Failure? && ev.ip == ip }

  predicate IsClear(ev: Event, ip: Ip) { ev.Clear? && ev.ip == ip }

  ghost predicate NoClear(log: seq<Event>, ip: Ip, from: nat)
  {
    forall k :: from <= k < |log| ==> !IsClear(log[k], ip)
  }

  /** Failures of one severity at or after a position of the log. */
  function Count(log: seq<Event>, ip: Ip, severity: Severity, from: nat): (r: nat)
  {
    if |log| <= from then 0
    else Count(log[..|log| - 1], ip, severity, from)
         + (if IsFailure(log[|log| - 1], ip) && log[|log| - 1].severity == severity then 1 else 0)
  }

  lemma CountNext(log: seq<Event>, ev: Event, ip: Ip, severity: Severity, from: nat)
    requires from <= |log|
    ensures Count(log + [ev], ip, severity, from)
         == Count(log, ip, severity, from) + (if IsFailure(ev, ip) && ev.severity == severity then 1 else 0)
  {
    assert (log + [ev])[..|log|] == log;
  }

  lemma {:induction false} CountCut(log: seq<Event>, ip: Ip, severity: Severity, from: nat)
    requires |log| <= from
    ensures Count(log, ip, severity, from) == 0
  {
  }

  lemma Unroll(log: seq<Event>) returns (before: seq<Event>, ev: Event)
    requires log != []
    ensures log == before + [ev] && before == log[..|log| - 1]
    ensures Monotone(log) ==> Monotone(before) && forall k :: 0 <= k < |before| ==> before[k].at <= ev.at
  {
    before, ev := log[..|log| - 1], log[|log| - 1];
    assert Monotone(log) ==> forall k :: 0 <= k < |before| ==> log[k].at <= log[|log| - 1].at;
  }

  // ----- a block has a cause

  /** The counters of `e` are the failures since position `w`, where its window opened. */
  ghost predicate OpenedAt(log: seq<Event>, ip: Ip, w: nat, e: Entry)
  {
    && w < |log| && IsFailure(log[w], ip) && log[w].at == e.windowStart && NoClear(log, ip, w)
    && e.hard == Min(U16_MAX, Count(log, ip, Hard, w)) && e.soft == Min(U16_MAX, Count(log, ip, Soft, w))
  }

  /** Failures `i` to `j` reach a threshold within a span under sixteen seconds, with no
      success or unblock since, and block until `until`. */
  ghost predicate Cause(log: seq<Event>, ip: Ip, i: nat, j: nat, until: int)
  {
    && i <= j < |log| && IsFailure(log[i], ip) && IsFailure(log[j], ip) && NoClear(log, ip, i)
    && log[j].at - log[i].at < (WINDOW_SECS + 1) * MICROS
    && (exists severity :: Count(log[..j + 1], ip, severity, i) >= Threshold(severity))
    && until == log[j].at + BLOCK_SECS * MICROS
  }

  lemma CauseGrows(log: seq<Event>, ev: Event, ip: Ip, i: nat, j: nat, until: int)
    requires Cause(log, ip, i, j, until) && !IsClear(ev, ip)
    ensures Cause(log + [ev], ip, i, j, until)
  {
    assert (log + [ev])[..j + 1] == log[..j + 1];
  }

  lemma OpenedGrows(log: seq<Event>, ev: Event, ip: Ip, w: nat, e: Entry)
    requires OpenedAt(log, ip, w, e) && !IsClear(ev, ip) && !IsFailure(ev, ip)
    ensures OpenedAt(log + [ev], ip, w, e)
  {
    CountNext(log, ev, ip, Hard, w);
    CountNext(log, ev, ip, Soft, w);
  }

  lemma OpenedBumps(log: seq<Event>, ev: Event, ip: Ip, w: nat, e: Entry, e': Entry)
    requires OpenedAt(log, ip, w, e) && IsFailure(ev, ip)
    requires e'.windowStart == e.windowStart
    requires e'.hard == (if ev.severity.Hard? then Bump(e.hard, U16) else e.hard)
    requires e'.soft == (if ev.severity.Soft? then Bump(e.soft, U16) else e.soft)
    ensures OpenedAt(log + [ev], ip, w, e')
  {
    CountNext(log, ev, ip, Hard, w);
    CountNext(log, ev, ip, Soft, w);
  }

  lemma OpenedFresh(log: seq<Event>, ev: Event, ip: Ip, e: Entry)
    requires IsFailure(ev, ip) && e.windowStart == ev.at
    requires e.hard == (if ev.severity.Hard? then 1 else 0) && e.soft == (if ev.severity.Soft? then 1 else 0)
    ensures OpenedAt(log + [ev], ip, |log|, e)
  {
    CountNext(log, ev, ip, Hard, |log|);
    CountNext(log, ev, ip, Soft, |log|);
  }

  /** An entry's counters are those of its window; the window opened with a failure. */
  lemma {:induction false} WindowOf(log: seq<Event>, ip: Ip) returns (w: nat)
    requires Replay(log, ip, U16).Some?
    ensures OpenedAt(log, ip, w, Replay(log, ip, U16).value)
    decreases |log|
  {
    var before, ev := Unroll(log);
    ReplayNext(before, ev, ip, U16);
    var prior, e := Replay(before, ip, U16), Replay(log, ip, U16).value;
    if IsFailure(ev, ip) {
      if prior.Some? && !prior.value.Stale(ev.at) {
        w := WindowOf(before, ip);
        OpenedBumps(before, ev, ip, w, prior.value, e);
      } else {
        w := |before|;
        OpenedFresh(before, ev, ip, e);
      }
    } else {
      w := WindowOf(before, ip);
      OpenedGrows(before, ev, ip, w, e);
    }
  }

  lemma AgeBound(e: Entry, now: int)
    requires e.windowStart <= now
    ensures e.Stale(now) <==> now - e.windowStart >= (WINDOW_SECS + 1) * MICROS
  {
  }

  /** A failure blocks from now when a counter reaches its threshold, and else leaves an
      earlier block as it was. */
  lemma FailedBlocks(entry: Option<Entry>, now: int, severity: Severity)
    requires entry.Some? ==> entry.value.windowStart <= now
    ensures var e := Failed(entry, now, severity, U16);
            && e.windowStart <= now && now - e.windowStart < (WINDOW_SECS + 1) * MICROS
            && e.blockedUntil == if e.hard >= HARD_FAIL_THRESHOLD || e.soft >= SOFT_FAIL_THRESHOLD then Some(now + BLOCK_SECS * MICROS)
                                 else if entry.Some? then entry.value.blockedUntil else None
  {
    if entry.Some? { AgeBound(entry.value, now); }
  }

  lemma NewCause(log: seq<Event>, ip: Ip, w: nat, e: Entry)
    requires OpenedAt(log, ip, w, e) && IsFailure(log[|log| - 1], ip)
    requires log[|log| - 1].at - e.windowStart < (WINDOW_SECS + 1) * MICROS
    requires e.hard >= HARD_FAIL_THRESHOLD || e.soft >= SOFT_FAIL_THRESHOLD
    ensures Cause(log, ip, w, |log| - 1, log[|log| - 1].at + BLOCK_SECS * MICROS)
  {
    assert log[..|log|] == log;
    var severity := if e.hard >= HARD_FAIL_THRESHOLD then Hard else Soft;
    assert Count(log[..|log|], ip, severity, w) >= Threshold(severity);
  }

  /** Every block in the log has its cause in the log. */
  lemma {:induction false} CauseOf(log: seq<Event>, ip: Ip) returns (i: nat, j: nat)
    requires Monotone(log) && Replay(log, ip, U16).Some? && Replay(log, ip, U16).value.blockedUntil.Some?
    ensures Cause(log, ip, i, j, Replay(log, ip, U16).value.blockedUntil.value)
    decreases |log|
  {
    var before, ev := Unroll(log);
    ReplayNext(before, ev, ip, U16);
    var prior, e := Replay(before, ip, U16), Replay(log, ip, U16).value;
    if IsFailure(ev, ip) {
      if prior.Some? { WindowInPast(before, ip, ev.at); }
      FailedBlocks(prior, ev.at, ev.severity);
    }
    if IsFailure(ev, ip) && (e.hard >= HARD_FAIL_THRESHOLD || e.soft >= SOFT_FAIL_THRESHOLD) {
      i := WindowOf(log, ip);
      j := |before|;
      NewCause(log, ip, i, e);
    } else {
      i, j := CauseOf(before, ip);
      CauseGrows(before, ev, ip, i, j, e.blockedUntil.value);
    }
  }

  lemma {:induction false} WindowInPast(log: seq<Event>, ip: Ip, now: int)
    requires Monotone(log) && (log != [] ==> log[|log| - 1].at <= now) && Replay(log, ip, U16).Some?
    ensures Replay(log, ip, U16).value.windowStart <= now
  {
    var w := WindowOf(log, ip);
    assert log[w].at <= log[|log| - 1].at;
  }

  /** A blocked address reached 5 hard or 30 soft failures within a span under sixteen
      seconds, less than five minutes ago, and has had no success or unblock since. */
  lemma BlockHasCause(log: seq<Event>, ip: Ip, now: int) returns (i: nat, j: nat)
    requires Monotone(log) && Blocked(Replay(log, ip, U16), now)
    ensures i <= j < |log| && IsFailure(log[i], ip) && IsFailure(log[j], ip) && NoClear(log, ip, i)
    ensures log[j].at - log[i].at < (WINDOW_SECS + 1) * MICROS
    ensures Count(log[..j + 1], ip, Hard, i) >= 5 || Count(log[..j + 1], ip, Soft, i) >= 30
    ensures now < log[j].at + BLOCK_SECS * MICROS
  {
    i, j := CauseOf(log, ip);
    var severity :| Count(log[..j + 1], ip, severity, i) >= Threshold(severity);
  }

  // ----- enough failures always block

  /** What holds about the failures since position `i`, up to sixteen seconds after it:
      either they already caused a block, or the window was renewed at most once and both
      windows stayed below the threshold. */
  ghost predicate Budget(entry: Option<Entry>, start: int, severity: Severity, n: nat)
  {
    || (entry.Some? && entry.value.blockedUntil.Some? && entry.value.blockedUntil.value >= start + BLOCK_SECS * MICROS)
    || n == 0
    || (entry.None? && n < Threshold(severity))
    || (entry.Some? && entry.value.CountOf(severity) < Threshold(severity)
        && n <= entry.value.CountOf(severity) + (if entry.value.windowStart >= start then Threshold(severity) - 1 else 0))
  }

  lemma BudgetFailure(entry: Option<Entry>, start: int, severity: Severity, n: nat, now: int, s: Severity)
    requires Budget(entry, start, severity, n) && start <= now < start + (WINDOW_SECS + 1) * MICROS
    requires entry.Some? ==> entry.value.windowStart <= now
    ensures Budget(Some(Failed(entry, now, s, U16)), start, severity, n + (if s == severity then 1 else 0))
  {
    if entry.Some? { AgeBound(entry.value, now); }
  }

  lemma BudgetCleanup(entry: Option<Entry>, start: int, severity: Severity, n: nat, ip: Ip, now: int)
    requires Budget(entry, start, severity, n) && start <= now < start + (WINDOW_SECS + 1) * MICROS
    requires entry.Some? ==> entry.value.windowStart <= now
    ensures Budget(Apply(entry, Cleanup(now), ip, U16), start, severity, n)
  {
    if entry.Some? { AgeBound(entry.value, now); }
  }

  lemma BudgetStep(entry: Option<Entry>, start: int, severity: Severity, n: nat, ev: Event, ip: Ip)
    requires Budget(entry, start, severity, n) && start <= ev.at < start + (WINDOW_SECS + 1) * MICROS && !IsClear(ev, ip)
    requires entry.Some? ==> entry.value.windowStart <= ev.at
    ensures Budget(Apply(entry, ev, ip, U16), start, severity, n + (if IsFailure(ev, ip) && ev.severity == severity then 1 else 0))
  {
    if IsFailure(ev, ip) {
      BudgetFailure(entry, start, severity, n, ev.at, ev.severity);
    } else if ev.Cleanup? {
      BudgetCleanup(entry, start, severity, n, ip, ev.at);
    }
  }

  lemma {:induction false} BudgetNext(before: seq<Event>, ev: Event, ip: Ip, i: nat, severity: Severity, start: int)
    requires i <= |before| && Budget(Replay(before, ip, U16), start, severity, Count(before, ip, severity, i))
    requires start <= ev.at < start + (WINDOW_SECS + 1) * MICROS && !IsClear(ev, ip)
    requires Replay(before, ip, U16).Some? ==> Replay(before, ip, U16).value.windowStart <= ev.at
    ensures Budget(Replay(before + [ev], ip, U16), start, severity, Count(before + [ev], ip, severity, i))
  {
    BudgetStep(Replay(before, ip, U16), start, severity, Count(before, ip, severity, i), ev, ip);
    ReplayNext(before, ev, ip, U16);
    CountNext(before, ev, ip, severity, i);
  }

  lemma {:induction false} BudgetHolds(log: seq<Event>, ip: Ip, i: nat, severity: Severity)
    requires Monotone(log) && i < |log| && NoClear(log, ip, i)
    requires log[|log| - 1].at - log[i].at < (WINDOW_SECS + 1) * MICROS
    ensures Budget(Replay(log, ip, U16), log[i].at, severity, Count(log, ip, severity, i))
    decreases |log|
  {
    var before, ev := Unroll(log);
    if i < |before| {
      BudgetHolds(before, ip, i, severity);
    } else {
      CountCut(before, ip, severity, i);
    }
    if Replay(before, ip, U16).Some? { WindowInPast(before, ip, ev.at); }
    BudgetNext(before, ev, ip, i, severity, log[i].at);
  }

  // ----- a block lasts

  ghost predicate BlockedTo(entry: Option<Entry>, until: int)
  {
    entry.Some? && entry.value.blockedUntil.Some? && entry.value.blockedUntil.value >= until
  }

  lemma StepKeepsBlock(entry: Option<Entry>, ev: Event, ip: Ip, until: int)
    requires BlockedTo(entry, until) && !IsClear(ev, ip) && ev.at < until <= ev.at + BLOCK_SECS * MICROS
    ensures BlockedTo(Apply(entry, ev, ip, U16), until)
  {
  }

  lemma {:induction false} ReachingBlocks(log: seq<Event>, ip: Ip, j: nat)
    requires j < |log| && IsFailure(log[j], ip) && Replay(log[..j + 1], ip, U16).Some?
    requires var e := Replay(log[..j + 1], ip, U16).value; e.hard >= 5 || e.soft >= 30
    ensures BlockedTo(Replay(log[..j + 1], ip, U16), log[j].at + BLOCK_SECS * MICROS)
  {
    assert log[..j + 1] == log[..j] + [log[j]];
    ReplayNext(log[..j], log[j], ip, U16);
  }

  lemma {:induction false} BlockKept(log: seq<Event>, ip: Ip, j: nat, until: int)
    requires Monotone(log) && j < |log| && NoClear(log, ip, j) && BlockedTo(Replay(log[..j + 1], ip, U16), until)
    requires log[|log| - 1].at < until <= log[j].at + BLOCK_SECS * MICROS
    ensures BlockedTo(Replay(log, ip, U16), until)
    decreases |log|
  {
    if j + 1 == |log| {
      assert log[..j + 1] == log;
    } else {
      var before, ev := Unroll(log);
      assert before[..j + 1] == log[..j + 1];
      assert before[j] == log[j];
      BlockKept(before, ip, j, until);
      ReplayNext(before, ev, ip, U16);
      StepKeepsBlock(Replay(before, ip, U16), ev, ip, until);
    }
  }

  /** From a failure that reaches 5 hard or 30 soft ones in its window, the address stays
      blocked for five minutes, whatever else happens, unless a success or an unblock comes. */
  lemma {:induction false} BlockLasts(log: seq<Event>, ip: Ip, j: nat, now: int)
    requires Monotone(log) && j < |log| && IsFailure(log[j], ip) && NoClear(log, ip, j) && Replay(log[..j + 1], ip, U16).Some?
    requires var e := Replay(log[..j + 1], ip, U16).value; e.hard >= 5 || e.soft >= 30
    requires log[|log| - 1].at <= now < log[j].at + 300 * MICROS
    ensures Blocked(Replay(log, ip, U16), now)
  {
    ReachingBlocks(log, ip, j);
    BlockKept(log, ip, j, log[j].at + BLOCK_SECS * MICROS);
  }

  /** Any 9 hard, or any 59 soft, failures within a span under sixteen seconds block the
      address until five minutes after the first of them, whatever else happens, unless a
      success or an unblock comes. */
  lemma {:induction false} EnoughFailuresBlock(log: seq<Event>, ip: Ip, i: nat, j: nat, severity: Severity, now: int)
    requires Monotone(log) && i <= j < |log| && NoClear(log, ip, i)
    requires log[j].at - log[i].at < (WINDOW_SECS + 1) * MICROS
    requires Count(log[..j + 1], ip, severity, i) >= if severity.Hard? then 9 else 59
    requires log[|log| - 1].at <= now < log[i].at + 300 * MICROS
    ensures Blocked(Replay(log, ip, U16), now)
  {
    var part := log[..j + 1];
    assert part[i] == log[i] && part[|part| - 1] == log[j];
    BudgetHolds(part, ip, i, severity);
    BlockKept(log, ip, j, log[i].at + BLOCK_SECS * MICROS);
  }

  // ----- one fewer need not

  function Burst(at: int, ip: Ip, severity: Severity, n: nat): (r: seq<Event>)
  {
    if n == 0 then [] else Burst(at, ip, severity, n - 1) + [Failure(at, ip, severity)]
  }

  lemma {:induction false} BurstCountNext(log: seq<Event>, burst: seq<Event>, at: int, ip: Ip, severity: Severity, from: nat)
    requires from <= |log|
    ensures Count(log + (burst + [Failure(at, ip, severity)]), ip, severity, from) == Count(log + burst, ip, severity, from) + 1
  {
    Associates(log, burst, [Failure(at, ip, severity)]);
    CountNext(log + burst, Failure(at, ip, severity), ip, severity, from);
  }

  lemma {:induction false} BurstCounts(log: seq<Event>, at: int, ip: Ip, severity: Severity, n: nat, from: nat)
    requires from <= |log|
    ensures |Burst(at, ip, severity, n)| == n
    ensures Count(log + Burst(at, ip, severity, n), ip, severity, from) == Count(log, ip, severity, from) + n
  {
    if n == 0 {
      assert log + [] == log;
    } else {
      BurstCounts(log, at, ip, severity, n - 1, from);
      BurstCountNext(log, Burst(at, ip, severity, n - 1), at, ip, severity, from);
    }
  }

  /** An unblocked entry with room for `n` more failures of a kind. */
  predicate HasRoom(e: Entry, at: int, severity: Severity, n: nat)
  {
    && e.blockedUntil.None? && e.windowStart <= at && !e.Stale(at) && e.hard < HARD_FAIL_THRESHOLD && e.soft < SOFT_FAIL_THRESHOLD
    && e.CountOf(severity) + n < Threshold(severity)
  }

  function More(e: Entry, severity: Severity, n: nat): (r: Entry)
  {
    if severity.Hard? then e.(hard := e.hard + n) else e.(soft := e.soft + n)
  }

  lemma FailedWithRoom(e: Entry, at: int, severity: Severity)
    requires HasRoom(e, at, severity, 1)
    ensures Failed(Some(e), at, severity, U16) == More(e, severity, 1)
  {
  }

  lemma {:induction false} ReplayWithRoom(log: seq<Event>, at: int, ip: Ip, severity: Severity, e: Entry)
    requires Replay(log, ip, U16) == Some(e) && HasRoom(e, at, severity, 1)
    ensures Replay(log + [Failure(at, ip, severity)], ip, U16) == Some(More(e, severity, 1))
  {
    ReplayNext(log, Failure(at, ip, severity), ip, U16);
    FailedWithRoom(e, at, severity);
  }

  lemma BurstNext(log: seq<Event>, at: int, ip: Ip, severity: Severity, n: nat)
    requires n > 0
    ensures log + Burst(at, ip, severity, n) == log + Burst(at, ip, severity, n - 1) + [Failure(at, ip, severity)]
  {
  }

  lemma RoomForOneMore(e: Entry, at: int, severity: Severity, n: nat)
    requires HasRoom(e, at, severity, n) && n > 0
    ensures HasRoom(e, at, severity, n - 1) && HasRoom(More(e, severity, n - 1), at, severity, 1)
    ensures More(More(e, severity, n - 1), severity, 1) == More(e, severity, n)
  {
    var e' := More(e, severity, n - 1);
    assert e'.windowStart == e.windowStart;
  }

  lemma {:induction false} BurstBelowThreshold(log: seq<Event>, at: int, ip: Ip, severity: Severity, n: nat, e: Entry)
    requires Replay(log, ip, U16) == Some(e) && HasRoom(e, at, severity, n)
    ensures Replay(log + Burst(at, ip, severity, n), ip, U16) == Some(More(e, severity, n))
  {
    if n == 0 {
      assert log + [] == log;
    } else {
      RoomForOneMore(e, at, severity, n);
      BurstBelowThreshold(log, at, ip, severity, n - 1, e);
      ReplayWithRoom(log + Burst(at, ip, severity, n - 1), at, ip, severity, More(e, severity, n - 1));
      BurstNext(log, at, ip, severity, n);
    }
  }

  /** Only failures, in the order of their times, none later than `last`. */
  ghost predicate Steady(log: seq<Event>, last: int)
  {
    Monotone(log) && forall k :: 0 <= k < |log| ==> log[k].Failure? && log[k].at <= last
  }

  lemma SteadyNext(log: seq<Event>, last: int, at: int, ip: Ip, severity: Severity)
    requires Steady(log, last) && last <= at
    ensures Steady(log + [Failure(at, ip, severity)], at)
  {
  }

  lemma {:induction false} SteadyBurst(log: seq<Event>, last: int, at: int, ip: Ip, severity: Severity, n: nat)
    requires Steady(log, last) && last <= at
    ensures Steady(log + Burst(at, ip, severity, n), at)
  {
    if n == 0 {
      assert log + [] == log;
    } else {
      SteadyBurst(log, last, at, ip, severity, n - 1);
      Associates(log, Burst(at, ip, severity, n - 1), [Failure(at, ip, severity)]);
      SteadyNext(log + Burst(at, ip, severity, n - 1), at, at, ip, severity);
    }
  }

  lemma {:induction false} SharpIsSteady(ip: Ip, severity: Severity, other: Severity, n: nat)
    requires n >= 1
    ensures Steady([Failure(0, ip, other)] + Burst(15_900_000, ip, severity, n) + [Failure(16_100_000, ip, severity)]
                   + Burst(16_100_000, ip, severity, n - 1), 16_100_000)
  {
    var first := [Failure(0, ip, other)];
    SteadyBurst(first, 0, 15_900_000, ip, severity, n);
    SteadyNext(first + Burst(15_900_000, ip, severity, n), 15_900_000, 16_100_000, ip, severity);
    SteadyBurst(first + Burst(15_900_000, ip, severity, n) + [Failure(16_100_000, ip, severity)], 16_100_000, 16_100_000, ip, severity, n - 1);
  }

  /** The bound of 9 and 59 is sharp: one failure of the other kind opens the window
      early, and twice the threshold less two then pass in a fifth of a second. */
  lemma OneFewerNeedNotBlock(ip: Ip, severity: Severity) returns (log: seq<Event>)
    ensures Monotone(log) && NoClear(log, ip, 1)
    ensures Count(log, ip, severity, 1) == if severity.Hard? then 8 else 58
    ensures |log| >= 2 && log[|log| - 1].at - log[1].at < (WINDOW_SECS + 1) * MICROS
    ensures Replay(log, ip, U16).Some? && Replay(log, ip, U16).value.blockedUntil.None?
  {
    var other := if severity.Hard? then Soft else Hard;
    var n := Threshold(severity) - 1;
    var first := [Failure(0, ip, other)];
    var t1, t2 := 15_900_000, 16_100_000;
    ReplayNext([], first[0], ip, U16);
    assert [] + first == first;
    var e := Failed(None, 0, other, U16);
    var a := first + Burst(t1, ip, severity, n);
    BurstBelowThreshold(first, t1, ip, severity, n, e);
    BurstCounts(first, t1, ip, severity, n, 1);
    CountCut(first, ip, severity, 1);
    var b := a + [Failure(t2, ip, severity)];
    ReplayNext(a, Failure(t2, ip, severity), ip, U16);
    CountNext(a, Failure(t2, ip, severity), ip, severity, 1);
    log := b + Burst(t2, ip, severity, n - 1);
    BurstBelowThreshold(b, t2, ip, severity, n - 1, Replay(b, ip, U16).value);
    BurstCounts(b, t2, ip, severity, n - 1, 1);
    BurstTimes(t1, ip, severity, n);
    BurstTimes(t2, ip, severity, n - 1);
    SharpIsSteady(ip, severity, other, n);
  }

  lemma {:induction false} BurstTimes(at: int, ip: Ip, severity: Severity, n: nat)
    ensures |Burst(at, ip, severity, n)| == n
    ensures forall k :: 0 <= k < n ==> Burst(at, ip, severity, n)[k].at == at
  {
    if n > 0 { BurstTimes(at, ip, severity, n - 1); }
  }

  // ----- the width of the counters never shows

  ghost predicate SameButForWidth(a: Option<Entry>, b: Option<Entry>)
  {
    || (a.None? && b.None?)
    || (a.Some? && b.Some? && a.value.hard == Min(U16_MAX, b.value.hard) && a.value.soft == Min(U16_MAX, b.value.soft)
        && a.value.windowStart == b.value.windowStart && a.value.blockedUntil == b.value.blockedUntil)
  }

  lemma {:induction false} WidthStep(a: Option<Entry>, b: Option<Entry>, ev: Event, ip: Ip)
    requires SameButForWidth(a, b)
    ensures SameButForWidth(Apply(a, ev, ip, U16), Apply(b, ev, ip, None))
  {
  }

  /** Saturating 16-bit counters give the answers unbounded ones would. */
  lemma {:induction false} SaturationNeverShows(log: seq<Event>, ip: Ip, now: int)
    ensures SameButForWidth(Replay(log, ip, U16), Replay(log, ip, None))
    ensures Blocked(Replay(log, ip, U16), now) <==> Blocked(Replay(log, ip, None), now)
    decreases |log|
  {
    if log != [] {
      var before, ev := Unroll(log);
      SaturationNeverShows(before, ip, now);
      WidthStep(Replay(before, ip, U16), Replay(before, ip, None), ev, ip);
      ReplayNext(before, ev, ip, U16);
      ReplayNext(before, ev, ip, None);
    }
  }

  // ----- cleanup is invisible

  function WithoutCleanup(log: seq<Event>): (r: seq<Event>)
  {
    if log == [] then []
    else
      var front := WithoutCleanup(log[..|log| - 1]);
      if log[|log| - 1].Cleanup? then front else front + [log[|log| - 1]]
  }

  /** Entries that give the same answers from `now` on. */
  ghost predicate Alike(a: Option<Entry>, b: Option<Entry>, now: int)
  {
    || (a.None? && b.None?)
    || (a.None? && b.Some? && b.value.windowStart <= now && b.value.Stale(now) && !b.value.BlockedAt(now))
    || (a.Some? && b.Some? && a.value.windowStart <= now && a.value.(blockedUntil := None) == b.value.(blockedUntil := None)
        && (a.value.blockedUntil == b.value.blockedUntil || (!a.value.BlockedAt(now) && !b.value.BlockedAt(now))))
  }

  lemma {:induction false} AlikeLater(a: Option<Entry>, b: Option<Entry>, now: int, later: int)
    requires Alike(a, b, now) && now <= later
    ensures Alike(a, b, later)
  {
    if b.Some? {
      AgeBound(b.value, now);
      AgeBound(b.value, later);
    }
  }

  lemma {:induction false} AlikeStep(a: Option<Entry>, b: Option<Entry>, ev: Event, ip: Ip)
    requires Alike(a, b, ev.at)
    ensures Alike(Apply(a, ev, ip, U16), if ev.Cleanup? then b else Apply(b, ev, ip, U16), ev.at)
  {
  }

  lemma {:induction false} AlikeWithoutCleanup(log: seq<Event>, ip: Ip, now: int)
    requires Monotone(log) && (log != [] ==> log[|log| - 1].at <= now)
    ensures Alike(Replay(log, ip, U16), Replay(WithoutCleanup(log), ip, U16), now)
    decreases |log|
  {
    if log != [] {
      var before, ev := Unroll(log);
      AlikeWithoutCleanup(before, ip, ev.at);
      AlikeStep(Replay(before, ip, U16), Replay(WithoutCleanup(before), ip, U16), ev, ip);
      ReplayNext(before, ev, ip, U16);
      if !ev.Cleanup? { ReplayNext(WithoutCleanup(before), ev, ip, U16); }
      AlikeLater(Replay(log, ip, U16), Replay(WithoutCleanup(log), ip, U16), ev.at, now);
    }
  }

  /** Two runs that differ only in where `cleanup` is called, or how often, block the same
      addresses at every later moment. */
  lemma CleanupIsInvisible(a: seq<Event>, b: seq<Event>, ip: Ip, now: int)
    requires Monotone(a) && Monotone(b) && WithoutCleanup(a) == WithoutCleanup(b)
    requires (a != [] ==> a[|a| - 1].at <= now) && (b != [] ==> b[|b| - 1].at <= now)
    ensures Blocked(Replay(a, ip, U16), now) <==> Blocked(Replay(b, ip, U16), now)
  {
    AlikeWithoutCleanup(a, ip, now);
    AlikeWithoutCleanup(b, ip, now);
  }
}
