/** The global thread table: filled by `main` while it starts the units, walked
    up to its first zero by the signal handler. */
module ThreadTable {
  import opened CStrings

  const MAX_UNIT_NUM := 32

  type ThreadId = int

  /** A configured unit; `thread` is the id that `pthread_create` gives it, and
      `createResult` what it returns. */
  datatype ConfiguredUnit = ConfiguredUnit(enabled: bool, thread: ThreadId, createResult: int)

  function Enabled(units: seq<ConfiguredUnit>): (r: seq<ConfiguredUnit>)
    ensures |r| <= |units|
  {
    if units == [] then []
    else
      var last := units[|units| - 1];
      Enabled(units[..|units| - 1]) + if last.enabled then [last] else []
  }

  function Threads(units: seq<ConfiguredUnit>): (r: seq<ThreadId>)
    ensures |r| == |units|
    ensures forall i :: 0 <= i < |units| ==> r[i] == units[i].thread
  {
    seq(|units|, i requires 0 <= i < |units| => units[i].thread)
  }

  /** The table while exactly the units of `started` run. */
  function Table(started: seq<ConfiguredUnit>): (r: seq<ThreadId>)
    requires |started| <= MAX_UNIT_NUM
    ensures |r| == MAX_UNIT_NUM
  {
    Threads(started) + seq(MAX_UNIT_NUM - |started|, _ => 0)
  }

  /** What `handle_signal` sends SIGUSR1 to, from slot `i` on; `None` when it
      runs off the table. */
  function Walk(table: seq<ThreadId>, i: nat): Option<seq<ThreadId>>
    requires i <= |table|
    decreases |table| - i
  {
    if i == |table| then None
    else if table[i] == 0 then Some([])
    else match Walk(table, i + 1)
      case None => None
      case Some(rest) => Some([table[i]] + rest)
  }

  method HandleSigint(threads: array<ThreadId>) returns (signalled: seq<ThreadId>)
    requires Walk(threads[..], 0).Some?
    ensures Walk(threads[..], 0) == Some(signalled)
  {
    signalled := [];
    var i := 0;
    assert forall s: seq<ThreadId> :: [] + s == s && s + [] == s;
    while threads[i] != 0
      invariant 0 <= i < threads.Length
      invariant Walk(threads[..], i).Some?
      invariant Walk(threads[..], 0) == Some(signalled + Walk(threads[..], i).value)
      decreases threads.Length - i
    {
      ghost var rest := Walk(threads[..], i + 1).value;
      assert signalled + ([threads[i]] + rest) == signalled + [threads[i]] + rest;
      signalled := signalled + [threads[i]];
      i := i + 1;
    }
  }

  lemma {:induction false} WalkFrom(table: seq<ThreadId>, n: nat, i: nat)
    requires i <= n <= |table|
    requires forall j :: 0 <= j < n ==> table[j] != 0
    requires n < |table| ==> table[n] == 0
    ensures Walk(table, i) == if n < |table| then Some(table[i..n]) else None
    decreases n - i
  {
    if i < n {
      WalkFrom(table, n, i + 1);
      if n < |table| {
        assert table[i..n] == [table[i]] + table[i + 1..n];
      }
    } else if n < |table| {
      assert table[i..n] == [];
    }
  }

  ghost predicate RealThreads(units: seq<ConfiguredUnit>) {
    forall i :: 0 <= i < |units| ==> units[i].thread != 0
  }

  /** With any number of units started, the walk signals each of their threads
      once, in order, and nothing else, exactly when the table is not full. */
  lemma WalkSignalsStarted(started: seq<ConfiguredUnit>)
    requires |started| <= MAX_UNIT_NUM && RealThreads(started)
    ensures |started| < 32 <==> Walk(Table(started), 0).Some?
    ensures |started| < 32 ==> Walk(Table(started), 0) == Some(Threads(started))
  {
    var table := Table(started);
    var n := |started|;
    WalkFrom(table, n, 0);
    assert table[0..n] == Threads(started);
  }

  // ----- start-up

  datatype Outcome = ConfigError | NoUnits | TooMany | CreateFailed | Started

  /** A count as the configuration reader returns it: -1 beyond the array. */
  function Count(units: seq<ConfiguredUnit>): int { if |units| > MAX_UNIT_NUM then -1 else |units| }

  /** Every table a signal may find: one for each number of units started. */
  ghost predicate IsHistory(moments: seq<seq<ThreadId>>, order: seq<ConfiguredUnit>) {
    && 0 < |moments| <= |order| + 1 <= MAX_UNIT_NUM + 1
    && forall k :: 0 <= k < |moments| ==> moments[k] == Table(order[..k])
  }

  lemma {:induction false} EnabledPrefix(units: seq<ConfiguredUnit>, k: nat)
    requires k <= |units|
    ensures Enabled(units[..k]) <= Enabled(units)
    decreases |units|
  {
    if k == |units| {
      assert units[..k] == units;
    } else {
      var prev := units[..|units| - 1];
      EnabledPrefix(prev, k);
      assert prev[..k] == units[..k];
    }
  }

  /** A unit's place among the enabled ones is their number before it. */
  lemma EnabledPlace(units: seq<ConfiguredUnit>, k: nat)
    requires k < |units|
    ensures |Enabled(units[..k + 1])| == |Enabled(units[..k])| + if units[k].enabled then 1 else 0
    ensures units[k].enabled ==>
      |Enabled(units[..k])| < |Enabled(units)| && Enabled(units)[|Enabled(units[..k])|] == units[k]
  {
    assert units[..k + 1][..k] == units[..k];
    EnabledPrefix(units, k + 1);
  }

  lemma TableOfNext(order: seq<ConfiguredUnit>, k: nat)
    requires k < |order| <= MAX_UNIT_NUM
    ensures Table(order[..k + 1]) == Table(order[..k])[k := order[k].thread]
  {}

  /** A created thread goes into the next slot. */
  method Store(threads: array<ThreadId>, thread: ThreadId, counter: nat,
               ghost order: seq<ConfiguredUnit>, ghost moments: seq<seq<ThreadId>>)
    returns (ghost more: seq<seq<ThreadId>>)
    requires threads.Length == MAX_UNIT_NUM && counter < |order| && order[counter].thread == thread
    requires IsHistory(moments, order) && |moments| == counter + 1
    requires threads[..] == Table(order[..counter])
    modifies threads
    ensures IsHistory(more, order) && |more| == counter + 2
    ensures threads[..] == Table(order[..counter + 1])
  {
    TableOfNext(order, counter);
    threads[counter] := thread;
    more := moments + [threads[..]];
  }

  /** One start-up loop: a thread for each enabled unit of `units`, which are the
      units of `order` from place `counter0` on. */
  method StartList(threads: array<ThreadId>, units: seq<ConfiguredUnit>, counter0: nat,
                   ghost order: seq<ConfiguredUnit>, ghost moments0: seq<seq<ThreadId>>)
    returns (ok: bool, counter: nat, ghost moments: seq<seq<ThreadId>>)
    requires threads.Length == MAX_UNIT_NUM
    requires counter0 <= |order| && Enabled(units) <= order[counter0..]
    requires IsHistory(moments0, order) && |moments0| == counter0 + 1
    requires threads[..] == Table(order[..counter0])
    modifies threads
    ensures IsHistory(moments, order)
    ensures ok ==> counter == counter0 + |Enabled(units)| && |moments| == counter + 1
    ensures ok ==> threads[..] == Table(order[..counter])
    ensures !ok ==> |moments| <= |order| && order[|moments| - 1].createResult != 0
    ensures forall k :: counter0 <= k < |moments| - 1 ==> order[k].createResult == 0
  {
    counter, moments := counter0, moments0;
    for i := 0 to |units|
      invariant counter == counter0 + |Enabled(units[..i])| <= |order|
      invariant IsHistory(moments, order) && |moments| == counter + 1
      invariant threads[..] == Table(order[..counter])
      invariant forall k :: counter0 <= k < counter ==> order[k].createResult == 0
    {
      EnabledPlace(units, i);
      if !units[i].enabled {
        continue;
      }
      assert order[counter] == order[counter0..][counter - counter0] == units[i];
      if units[i].createResult != 0 {
        return false, counter, moments;
      }
      moments := Store(threads, units[i].thread, counter, order, moments);
      counter := counter + 1;
    }
    assert units[..|units|] == units;
    ok := true;
  }

  /** Start-up, with the table all zero before it.  The units run in the order
      mqtt2rest first, then rest2mqtt, each in configuration order. */
  method StartUnits(threads: array<ThreadId>, mqtt2rest: seq<ConfiguredUnit>, rest2mqtt: seq<ConfiguredUnit>)
    returns (outcome: Outcome, ghost moments: seq<seq<ThreadId>>)
    requires threads.Length == MAX_UNIT_NUM && threads[..] == Table([])
    modifies threads
    ensures outcome.ConfigError? <==> |mqtt2rest| > 32 || |rest2mqtt| > 32
    ensures outcome.NoUnits? <==> mqtt2rest == [] && rest2mqtt == []
    ensures outcome.TooMany? <==> !outcome.ConfigError? && |mqtt2rest| + |rest2mqtt| > 32
    ensures var order := Enabled(mqtt2rest) + Enabled(rest2mqtt);
      && (outcome.Started? || outcome.CreateFailed? ==> IsHistory(moments, order))
      && (forall k :: 0 <= k < |moments| - 1 && k < |order| ==> order[k].createResult == 0)
      && (outcome.Started? ==> |moments| == |order| + 1 && threads[..] == Table(order))
      && (outcome.CreateFailed? ==> |moments| <= |order| && order[|moments| - 1].createResult != 0)
  {
    moments := [threads[..]];
    var count1, count2 := Count(mqtt2rest), Count(rest2mqtt);
    if count1 < 0 || count2 < 0 {
      return ConfigError, moments;
    }
    if count1 + count2 == 0 {
      return NoUnits, moments;
    } else if count1 + count2 > MAX_UNIT_NUM {
      return TooMany, moments;
    }
    ghost var first := Enabled(mqtt2rest);
    ghost var order := first + Enabled(rest2mqtt);
    assert order[0..] == order && order[..0] == [];
    var ok, counter;
    ok, counter, moments := StartList(threads, mqtt2rest, 0, order, moments);
    if !ok {
      return CreateFailed, moments;
    }
    assert order[counter..] == Enabled(rest2mqtt);
    ok, counter, moments := StartList(threads, rest2mqtt, counter, order, moments);
    if !ok {
      return CreateFailed, moments;
    }
    assert order[..counter] == order;
    return Started, moments;
  }

  /** A signal at any moment of start-up reaches exactly the threads started so
      far, each once, and the walk ends in the table exactly when fewer than 32
      were started. */
  lemma SignalAtAnyMoment(moments: seq<seq<ThreadId>>, order: seq<ConfiguredUnit>, k: nat)
    requires IsHistory(moments, order) && RealThreads(order) && k < |moments|
    ensures Walk(moments[k], 0) == if k < 32 then Some(Threads(order[..k])) else None
  {
    WalkSignalsStarted(order[..k]);
  }
}
