/** The endless loops of the two kinds of unit, over any finite sequence of
    what the outside world does in each turn. */
module UnitLoop {
  import opened CStrings
  import opened PollSet
  import opened MqttClient
  import opened Requests
  import Rest2Mqtt
  import Mqtt2Rest
  import IntParsing

  const POLL_SLOTS := 64

  /** A message handed to the callback. */
  datatype Delivery = Delivery(topic: CString, payload: Option<string>)

  /** One turn of the loop.  `got` are the descriptor sets of the HTTP library;
      `revents` is what poll reports for each slot, and `eventAfter` when it has
      something to report; `callbacks` are those made by the HTTP library, and
      `messages` what the MQTT client delivers when it reads.  `before`, `between` and `after` are the times, in
      milliseconds, spent before poll, between poll and the misc call, and from
      that call to the end of the turn. */
  datatype Round = Round(
    got: Option<FdSets>, sock: int, wantWrite: bool,
    pollFailed: bool, revents: nat -> bv16, eventAfter: nat,
    callbacks: seq<Callback>, messages: seq<Delivery>,
    readRes: int, writeRes: int,
    before: nat, between: nat, after: nat)
  {
    /** The result that decides the connection when MQTT is polled in `slot`. */
    function DecidingIn(slot: nat): int { DecidingOn(revents(slot)) }

    function DecidingOn(reported: bv16): int {
      Deciding(reported & POLLIN != 0, reported & POLLOUT != 0, readRes, writeRes)
    }

    /** The MQTT slot of a rest2mqtt unit comes after the HTTP ones. */
    function HttpSlots(): nat { if got.None? then 0 else |got.value.Watched()| }

    /** A fatal exit: no descriptor sets, or too many descriptors. */
    predicate IsFatal() { got.None? || HttpSlots() >= POLL_SLOTS }
  }

  // ----- poll

  /** Fills the poll array of a rest2mqtt unit; `None` is the fatal exit. */
  method FillPollArray(h: Handle, pfd: array<PollFd>, round: Round) returns (count: Option<nat>)
    requires pfd.Length == POLL_SLOTS
    modifies pfd
    ensures count.None? <==> round.got.None? || |round.got.value.Watched()| >= 64
    ensures count.Some? ==> 0 < count.value <= POLL_SLOTS && count.value - 1 == round.HttpSlots()
    ensures count.Some? ==> AsksFor(pfd[..], round.got.value.Packed(round.got.value.Bound()))
    ensures count.Some? ==> var p := pfd[count.value - 1].want;
      p.fd == round.sock && p.events & POLLIN != 0 && (p.events & POLLOUT != 0 <==> round.wantWrite)
  {
    var packed := GetMhdPollFds(pfd, round.got, POLL_SLOTS);
    if packed.None? {
      return None;
    }
    PackedLength(round.got.value);
    var pfdCount := packed.value;
    var mqttPfd := h.GetPollFd(round.sock, round.wantWrite, 0);
    pfd[pfdCount] := mqttPfd;
    pfdCount := pfdCount + 1;
    return Some(pfdCount);
  }

  /** How long poll waits; a negative timeout is none. */
  function Wait(timeout: int, eventAfter: nat): (w: nat)
    ensures w <= eventAfter && (0 <= timeout ==> w <= timeout) && (w == eventAfter || w == timeout)
  {
    if 0 <= timeout < eventAfter then timeout else eventAfter
  }

  /** poll: reports on the first `count` slots, changes nothing else, and returns
      when it has something to report or at the timeout. */
  method Poll(pfd: array<PollFd>, count: nat, round: Round, timeout: int, now: nat) returns (later: nat)
    requires count <= pfd.Length
    modifies pfd
    ensures forall i :: 0 <= i < count ==> pfd[i] == old(pfd[i]).(revents := round.revents(i))
    ensures forall i :: count <= i < pfd.Length ==> pfd[i] == old(pfd[i])
    ensures later == now + Wait(timeout, round.eventAfter)
  {
    for n := 0 to count
      invariant forall i :: 0 <= i < n ==> pfd[i] == old(pfd[i]).(revents := round.revents(i))
      invariant forall i :: n <= i < pfd.Length ==> pfd[i] == old(pfd[i])
    {
      pfd[n] := pfd[n].(revents := round.revents(n));
    }
    later := now + Wait(timeout, round.eventAfter);
  }

  // ----- what a run should have done

  datatype Exit = Fatal | PollFailed | OutOfRounds

  datatype Kind = Rest2MqttKind | Mqtt2RestKind

  /** Where a unit polls MQTT: after the HTTP slots, or alone. */
  function MqttSlot(kind: Kind, round: Round): nat {
    if kind.Rest2MqttKind? then round.HttpSlots() else 0
  }

  /** How a turn ends the loop, if it does. */
  function StopOf(kind: Kind, round: Round): Option<Exit> {
    if kind.Rest2MqttKind? && round.IsFatal() then Some(Fatal)
    else if round.pollFailed then Some(PollFailed) else None
  }

  /** The number of turns made before one that ends the loop. */
  function TurnsMade(kind: Kind, rounds: seq<Round>): (n: nat)
    ensures n <= |rounds|
    ensures forall k :: 0 <= k < n ==> StopOf(kind, rounds[k]).None?
    ensures n < |rounds| ==> StopOf(kind, rounds[n]).Some?
  {
    if rounds == [] || StopOf(kind, rounds[0]).Some? then 0
    else
      assert forall k :: 0 < k < |rounds| ==> rounds[k] == rounds[1..][k - 1];
      1 + TurnsMade(kind, rounds[1..])
  }

  function ExitOf(kind: Kind, rounds: seq<Round>): Exit {
    var n := TurnsMade(kind, rounds);
    if n == |rounds| then OutOfRounds else StopOf(kind, rounds[n]).value
  }

  /** The flag after `k` rounds: connected within three tries, and no round so
      far was decided by a loss. */
  ghost predicate FlagAfter(results: seq<int>, rounds: seq<Round>, kind: Kind, k: nat)
    requires k <= |rounds|
  {
    ConnectedInTime(results) && forall i :: 0 <= i < k ==> !IsLoss(rounds[i].DecidingIn(MqttSlot(kind, rounds[i])))
  }

  /** Once lost, the connection is never reported again. */
  lemma FlagNeverReturns(results: seq<int>, rounds: seq<Round>, kind: Kind, j: nat, k: nat)
    requires j <= k <= |rounds| && !FlagAfter(results, rounds, kind, j)
    ensures !FlagAfter(results, rounds, kind, k)
  {}

  /** The flag turn by turn: what poll reports in the MQTT slot selects the result
      that counts, and 7 (lost) or 4 (none) in it drops the flag. */
  lemma FlagsTurnByTurn(results: seq<int>, rounds: seq<Round>, kind: Kind, flags: seq<bool>)
    requires |results| >= 3 && FlagsRecorded(results, rounds, kind, flags)
    ensures flags[0] <==> results[0] == 0 || results[1] == 0 || results[2] == 0
    ensures forall k :: 0 <= k < |flags| - 1 ==>
      var r := rounds[k];
      var reported := r.revents(if kind.Rest2MqttKind? && r.got.Some? then |r.got.value.Watched()| else 0);
      var lost :=
        if reported & 1 != 0 then r.readRes == 7 || r.readRes == 4
        else reported & 4 != 0 && (r.writeRes == 7 || r.writeRes == 4);
      flags[k + 1] == (flags[k] && !lost)
  {
    assert flags[0] == ConnectedInTime(results);
    assert ConnectedInTime(results) <==> results[0] == 0 || results[1] == 0 || results[2] == 0;
    forall k | 0 <= k < |flags| - 1
      ensures flags[k + 1] == (flags[k] && !IsLoss(rounds[k].DecidingIn(MqttSlot(kind, rounds[k]))))
    {
      assert flags[k] == FlagAfter(results, rounds, kind, k);
      assert flags[k + 1] == FlagAfter(results, rounds, kind, k + 1);
    }
  }

  /** Where a run of a rest2mqtt unit ends. */
  lemma Rest2MqttEnds(rounds: seq<Round>)
    ensures var n := TurnsMade(Rest2MqttKind, rounds);
      && (forall k :: 0 <= k < n ==>
            rounds[k].got.Some? && |rounds[k].got.value.Watched()| < 64 && !rounds[k].pollFailed)
      && ExitOf(Rest2MqttKind, rounds) == (
           if n == |rounds| then OutOfRounds
           else if rounds[n].got.None? || |rounds[n].got.value.Watched()| >= 64 then Fatal
           else PollFailed)
      && (ExitOf(Rest2MqttKind, rounds) == PollFailed ==> rounds[n].pollFailed)
  {
    assert forall k :: 0 <= k < TurnsMade(Rest2MqttKind, rounds) ==> StopOf(Rest2MqttKind, rounds[k]).None?;
  }

  /** Where a run of an mqtt2rest unit ends. */
  lemma Mqtt2RestEnds(rounds: seq<Round>)
    ensures var n := TurnsMade(Mqtt2RestKind, rounds);
      && (forall k :: 0 <= k < n ==> !rounds[k].pollFailed) && (n < |rounds| ==> rounds[n].pollFailed)
      && ExitOf(Mqtt2RestKind, rounds) == if n == |rounds| then OutOfRounds else PollFailed
  {
    assert forall k :: 0 <= k < TurnsMade(Mqtt2RestKind, rounds) ==> StopOf(Mqtt2RestKind, rounds[k]).None?;
  }

  /** When turn `k` starts: when the turn before it ends. */
  function TurnStart(rounds: seq<Round>, misc: seq<nat>, k: nat): nat
    requires k <= |misc| && k <= |rounds|
  {
    if k == 0 then 0 else misc[k - 1] + rounds[k - 1].after
  }

  /** When the misc call of a turn is made. */
  function MiscTime(round: Round, start: nat, timeout: int): nat {
    start + round.before + Wait(timeout, round.eventAfter) + round.between
  }

  ghost predicate FlagsRecorded(results: seq<int>, rounds: seq<Round>, kind: Kind, flags: seq<bool>) {
    && 0 < |flags| <= |rounds| + 1
    && forall k :: 0 <= k < |flags| ==> flags[k] == FlagAfter(results, rounds, kind, k)
  }

  ghost predicate MiscRecorded(rounds: seq<Round>, timeout: int, misc: seq<nat>) {
    && |misc| <= |rounds|
    && forall k :: 0 <= k < |misc| ==> IsMiscOf(rounds, timeout, misc, k)
  }

  /** Misc call `k` is that of turn `k`. */
  ghost predicate IsMiscOf(rounds: seq<Round>, timeout: int, misc: seq<nat>, k: nat)
    requires k < |misc| <= |rounds|
  {
    misc[k] == MiscTime(rounds[k], TurnStart(rounds, misc, k), timeout)
  }

  /** The flags and the misc calls of the first `n` turns. */
  ghost predicate Recorded(results: seq<int>, rounds: seq<Round>, kind: Kind, timeout: int,
                           n: nat, flags: seq<bool>, misc: seq<nat>)
  {
    && |flags| == n + 1 && FlagsRecorded(results, rounds, kind, flags)
    && |misc| == n && MiscRecorded(rounds, timeout, misc)
  }

  lemma FlagsNext(results: seq<int>, rounds: seq<Round>, kind: Kind, flags: seq<bool>, flag: bool)
    requires FlagsRecorded(results, rounds, kind, flags) && |flags| <= |rounds|
    requires var n := |flags| - 1;
      flag == (flags[n] && !IsLoss(rounds[n].DecidingIn(MqttSlot(kind, rounds[n]))))
    ensures FlagsRecorded(results, rounds, kind, flags + [flag])
  {
    assert flags[|flags| - 1] == FlagAfter(results, rounds, kind, |flags| - 1);
    assert flag == FlagAfter(results, rounds, kind, |flags|);
  }

  lemma MiscNext(rounds: seq<Round>, timeout: int, misc: seq<nat>)
    requires MiscRecorded(rounds, timeout, misc) && |misc| < |rounds|
    ensures MiscRecorded(rounds, timeout,
                         misc + [MiscTime(rounds[|misc|], TurnStart(rounds, misc, |misc|), timeout)])
  {
    var more := misc + [MiscTime(rounds[|misc|], TurnStart(rounds, misc, |misc|), timeout)];
    forall k | 0 <= k < |more|
      ensures IsMiscOf(rounds, timeout, more, k)
    {
      assert TurnStart(rounds, more, k) == TurnStart(rounds, misc, k);
      if k < |misc| {
        assert IsMiscOf(rounds, timeout, misc, k);
      }
    }
  }

  lemma RecordedNext(results: seq<int>, rounds: seq<Round>, kind: Kind, timeout: int,
                     n: nat, flags: seq<bool>, misc: seq<nat>, flag: bool)
    requires Recorded(results, rounds, kind, timeout, n, flags, misc) && n < |rounds|
    requires flag == (flags[n] && !IsLoss(rounds[n].DecidingIn(MqttSlot(kind, rounds[n]))))
    ensures Recorded(results, rounds, kind, timeout, n + 1, flags + [flag],
                     misc + [MiscTime(rounds[n], TurnStart(rounds, misc, n), timeout)])
  {
    FlagsNext(results, rounds, kind, flags, flag);
    MiscNext(rounds, timeout, misc);
  }

  /** What is known of the client when turn `n` starts. */
  ghost predicate AtTurn(results: seq<int>, rounds: seq<Round>, kind: Kind, timeout: int,
                         n: nat, flags: seq<bool>, misc: seq<nat>, connected: bool, now: nat)
  {
    && n <= TurnsMade(kind, rounds) && Recorded(results, rounds, kind, timeout, n, flags, misc)
    && flags[n] == connected && now == TurnStart(rounds, misc, n)
  }

  /** A turn that does not end the loop takes the record on. */
  lemma AtNextTurn(results: seq<int>, rounds: seq<Round>, kind: Kind, timeout: int,
                   n: nat, flags: seq<bool>, misc: seq<nat>, connected: bool, now: nat)
    requires AtTurn(results, rounds, kind, timeout, n, flags, misc, connected, now)
    requires n < TurnsMade(kind, rounds)
    ensures var flag := connected && !IsLoss(rounds[n].DecidingIn(MqttSlot(kind, rounds[n])));
      var time := MiscTime(rounds[n], now, timeout);
      AtTurn(results, rounds, kind, timeout, n + 1, flags + [flag], misc + [time], flag, time + rounds[n].after)
  {
    var flag := connected && !IsLoss(rounds[n].DecidingIn(MqttSlot(kind, rounds[n])));
    RecordedNext(results, rounds, kind, timeout, n, flags, misc, flag);
  }

  // ----- keepalive

  /** `keepalive / 2 * 1000`, where C divides towards zero. */
  function PollTimeout(keepalive: int): int {
    (if keepalive >= 0 then keepalive / 2 else -((-keepalive) / 2)) * 1000
  }

  /** The configured number is not checked; the product is an `int` exactly in
      this range, which contains every keepalive of the protocol. */
  lemma TimeoutIsIntIff(keepalive: int)
    ensures IntParsing.INT_MIN <= PollTimeout(keepalive) <= IntParsing.INT_MAX <==> -4294967 <= keepalive <= 4294967
    ensures 0 <= keepalive ==>
      && 0 <= PollTimeout(keepalive) <= keepalive * 500 < PollTimeout(keepalive) + 1000
      && PollTimeout(keepalive) % 1000 == 0
    ensures PollTimeout(-keepalive) == -PollTimeout(keepalive)
  {}

  /** Each turn takes at most `d` ms outside poll, at most `a` of them after its
      misc call. */
  ghost predicate TurnsWithin(rounds: seq<Round>, d: nat, a: nat) {
    forall i :: 0 <= i < |rounds| ==>
      rounds[i].before + rounds[i].between + rounds[i].after <= d && rounds[i].after <= a
  }

  /** No two consecutive misc calls, nor the start and the first, are further
      apart than `gap`. */
  ghost predicate GapsWithin(misc: seq<nat>, gap: int) {
    forall k :: 0 <= k < |misc| ==> misc[k] - (if k == 0 then 0 else misc[k - 1]) <= gap
  }

  /** Two consecutive misc calls are apart by the end of one turn and the next turn
      up to its own call, in which poll waits for its first event or the timeout. */
  lemma MiscGap(rounds: seq<Round>, timeout: int, misc: seq<nat>, k: nat)
    requires MiscRecorded(rounds, timeout, misc) && k < |misc|
    ensures var waited := if 0 <= timeout <= rounds[k].eventAfter then timeout else rounds[k].eventAfter;
      var ended := if k == 0 then 0 else misc[k - 1] + rounds[k - 1].after;
      misc[k] == ended + rounds[k].before + waited + rounds[k].between
  {
    assert IsMiscOf(rounds, timeout, misc, k);
  }

  /** A gap spans the end of one turn and most of the next. */
  lemma MiscCallsInTime(rounds: seq<Round>, keepalive: int, misc: seq<nat>, d: nat, a: nat)
    requires MiscRecorded(rounds, PollTimeout(keepalive), misc)
    requires 0 <= keepalive && TurnsWithin(rounds[..|misc|], d, a)
    ensures GapsWithin(misc, PollTimeout(keepalive) + d + a)
    ensures d + a <= keepalive * 500 ==> GapsWithin(misc, keepalive * 1000)
  {
    TimeoutIsIntIff(keepalive);
    forall k | 0 <= k < |misc|
      ensures misc[k] - (if k == 0 then 0 else misc[k - 1]) <= PollTimeout(keepalive) + d + a
    {
      assert IsMiscOf(rounds, PollTimeout(keepalive), misc, k);
      assert rounds[k] == rounds[..|misc|][k];
      assert k > 0 ==> rounds[k - 1] == rounds[..|misc|][k - 1];
    }
  }

  /** That gap does occur. */
  lemma MiscGapAttained(keepalive: int, d: nat, a: nat) returns (rounds: seq<Round>, misc: seq<nat>)
    requires 0 <= keepalive && a <= d
    ensures TurnsWithin(rounds, d, a) && |misc| == |rounds| == 2
    ensures forall kind :: TurnsMade(kind, rounds) == |rounds|
    ensures MiscRecorded(rounds, PollTimeout(keepalive), misc)
    ensures misc[1] == misc[0] + PollTimeout(keepalive) + d + a
  {
    var t: nat := PollTimeout(keepalive);
    var idle := Round(Some(FdSets({}, {}, {}, -1)), 0, false, false, _ => 0, t, [], [], 0, 0, 0, 0, 0);
    rounds, misc := [idle.(after := a), idle.(before := d)], [t, t + a + d + t];
    assert IsMiscOf(rounds, t, misc, 0) && IsMiscOf(rounds, t, misc, 1);
    assert rounds[0].got.value.Watched() == {} && rounds[1].got.value.Watched() == {};
  }

  /** All runs of a unit of either kind keep misc calls within half the keepalive
      and one turn of `d` ms, if and only if the part of a turn after its misc call
      fits what rounding the timeout down leaves: nothing, or half a second for an
      odd keepalive. */
  lemma HalfKeepaliveIff(kind: Kind, keepalive: int, d: nat, a: nat)
    requires 0 <= keepalive && a <= d
    ensures (forall rounds: seq<Round>, misc: seq<nat> ::
               TurnsWithin(rounds, d, a) && MiscRecorded(rounds, PollTimeout(keepalive), misc)
               && |misc| <= TurnsMade(kind, rounds)
               ==> GapsWithin(misc, keepalive * 500 + d))
            <==> a <= if keepalive % 2 == 0 then 0 else 500
  {
    assert keepalive * 500 - PollTimeout(keepalive) == if keepalive % 2 == 0 then 0 else 500;
    if PollTimeout(keepalive) + a <= keepalive * 500 {
      forall rounds: seq<Round>, misc: seq<nat>
        | TurnsWithin(rounds, d, a) && MiscRecorded(rounds, PollTimeout(keepalive), misc)
          && |misc| <= TurnsMade(kind, rounds)
        ensures GapsWithin(misc, keepalive * 500 + d)
      {
        MiscCallsInTime(rounds, keepalive, misc, d, a);
      }
    } else {
      var rounds, misc := MiscGapAttained(keepalive, d, a);
      assert TurnsMade(kind, rounds) == |rounds|;
      assert misc[1] - misc[0] > keepalive * 500 + d;
    }
  }

  // ----- a rest2mqtt unit

  /** The callbacks of a sequence of turns. */
  function Calls(rounds: seq<Round>): seq<Callback> {
    if rounds == [] then [] else Calls(rounds[..|rounds| - 1]) + rounds[|rounds| - 1].callbacks
  }

  lemma CallsNext(rounds: seq<Round>, k: nat)
    requires k < |rounds|
    ensures Calls(rounds[..k + 1]) == Calls(rounds[..k]) + rounds[k].callbacks
  {
    assert rounds[..k + 1][..k] == rounds[..k];
  }

  lemma {:induction false} CallsPrefix(rounds: seq<Round>, k: nat)
    requires k <= |rounds|
    ensures Calls(rounds[..k]) <= Calls(rounds)
    decreases |rounds|
  {
    if k == |rounds| {
      assert rounds[..k] == rounds;
    } else {
      var prev := rounds[..|rounds| - 1];
      CallsPrefix(prev, k);
      assert prev[..k] == rounds[..k];
    }
  }

  /** What the callbacks of the turns made need. */
  ghost predicate CallsKeepContract(rounds: seq<Round>, spare: nat) {
    var made := rounds[..TurnsMade(Rest2MqttKind, rounds)];
    AllWellFormed(Calls(made)) && Rest2Mqtt.AllHaveRoom(Calls(made), spare)
  }

  lemma ContractUpTo(rounds: seq<Round>, spare: nat, k: nat)
    requires CallsKeepContract(rounds, spare) && k <= TurnsMade(Rest2MqttKind, rounds)
    ensures var part := Calls(rounds[..k]);
      AllWellFormed(part) && Rest2Mqtt.AllHaveRoom(part, spare) && Run(part).Running?
  {
    var made := rounds[..TurnsMade(Rest2MqttKind, rounds)];
    assert made[..k] == rounds[..k];
    var all, part := Calls(made), Calls(rounds[..k]);
    CallsPrefix(made, k);
    assert part == all[..|part|];
    NoFaultIff(all);
    Rest2Mqtt.RunningBefore(all, |part|);
    NoFaultIff(part);
    Rest2Mqtt.RoomBefore(all, |part|, spare);
  }

  /** The first half of a turn, up to poll: what it reports in the MQTT slot. */
  method PollAll(h: Handle, round: Round, timeout: int, now: nat)
    returns (exit: Option<Exit>, revents: bv16, later: nat)
    ensures exit == StopOf(Rest2MqttKind, round)
    ensures exit.None? <==> round.got.Some? && |round.got.value.Watched()| < 64 && !round.pollFailed
    ensures exit == Some(Fatal) <==> round.got.None? || |round.got.value.Watched()| >= 64
    ensures exit.None? ==> revents == round.revents(round.HttpSlots())
    ensures exit.None? ==> later == now + round.before + Wait(timeout, round.eventAfter)
  {
    if !h.connected {
      var _ := h.Reconnect();
    }
    later, revents := now, 0;
    var pfd := new PollFd[POLL_SLOTS];
    var count := FillPollArray(h, pfd, round);
    if count.None? {
      return Some(Fatal), revents, later;
    }
    later := Poll(pfd, count.value, round, timeout, later + round.before);
    if round.pollFailed {
      return Some(PollFailed), revents, later;
    }
    return None, pfd[count.value - 1].revents, later;
  }

  /** Polling leaves the requests alone. */
  method PollBeside(h: Handle, u: Rest2Mqtt.Unit, round: Round, timeout: int, now: nat)
    returns (exit: Option<Exit>, revents: bv16, later: nat)
    requires u.Valid()
    ensures u.Valid() && u.Abstract() == old(u.Abstract())
    ensures exit == StopOf(Rest2MqttKind, round)
    ensures exit.None? ==> revents == round.revents(round.HttpSlots())
    ensures exit.None? ==> later == now + round.before + Wait(timeout, round.eventAfter)
  {
    exit, revents, later := PollAll(h, round, timeout, now);
  }

  /** One turn; `None` when the loop goes on. */
  method Rest2MqttRound(h: Handle, u: Rest2Mqtt.Unit, round: Round, timeout: int, now: nat, ghost past: seq<Callback>)
    returns (exit: Option<Exit>, later: nat)
    requires u.Valid() && u.Abstract() == Run(past)
    requires StopOf(Rest2MqttKind, round).None? ==>
      Run(past + round.callbacks).Running? && Rest2Mqtt.AllHaveRoom(past + round.callbacks, u.spare)
    modifies h, u, u.conCls.Values
    ensures exit == StopOf(Rest2MqttKind, round)
    ensures exit.None? <==> round.got.Some? && |round.got.value.Watched()| < 64 && !round.pollFailed
    ensures exit.None? ==> h.connected == (old(h.connected) && !IsLoss(round.DecidingIn(round.HttpSlots())))
    ensures exit.None? ==> h.misc == old(h.misc) + [MiscTime(round, now, timeout)]
    ensures exit.None? ==> later == MiscTime(round, now, timeout) + round.after
    ensures exit.Some? ==> h.connected == old(h.connected) && h.misc == old(h.misc)
    ensures exit.None? ==> u.Valid() && u.Abstract() == Run(past + round.callbacks)
    ensures exit.None? ==> forall o :: o in u.conCls.Values ==> o in old(u.conCls.Values) || fresh(o)
    ensures exit.Some? ==> u.Abstract() == Run(past)
  {
    var revents;
    exit, revents, later := PollBeside(h, u, round, timeout, now);
    if exit.None? {
      later := later + round.between;
      CallbacksThenLoop(h, u, revents, round, later, past);
      later := later + round.after;
    }
  }

  /** The second half of a turn: the HTTP library, then the MQTT client. */
  method CallbacksThenLoop(h: Handle, u: Rest2Mqtt.Unit, revents: bv16, round: Round, now: nat,
                           ghost past: seq<Callback>)
    requires u.Valid() && u.Abstract() == Run(past)
    requires Run(past + round.callbacks).Running? && Rest2Mqtt.AllHaveRoom(past + round.callbacks, u.spare)
    modifies h, u, u.conCls.Values
    ensures h.connected == (old(h.connected) && !IsLoss(round.DecidingOn(revents)))
    ensures h.misc == old(h.misc) + [now]
    ensures u.Valid() && u.Abstract() == Run(past + round.callbacks)
    ensures forall o :: o in u.conCls.Values ==> o in old(u.conCls.Values) || fresh(o)
  {
    Rest2Mqtt.RunCallbacks(u, round.callbacks, past);
    LoopBeside(h, u, revents, round, now);
  }

  /** The client loop leaves the requests alone. */
  method LoopBeside(h: Handle, u: Rest2Mqtt.Unit, revents: bv16, round: Round, now: nat)
    requires u.Valid()
    modifies h
    ensures u.Valid() && u.Abstract() == old(u.Abstract())
    ensures h.connected == (old(h.connected) && !IsLoss(round.DecidingOn(revents)))
    ensures h.misc == old(h.misc) + [now]
  {
    h.Loop(revents & POLLIN != 0, revents & POLLOUT != 0, round.readRes, round.writeRes, now);
  }

  /** A rest2mqtt unit from connect to its last turn `n`.  `flags[k]` is the
      connection flag after `k` turns and `misc[k]` the time of the misc call of
      turn `k`; the published log is that of the callbacks of the turns made. */
  method RunRest2Mqtt(results: seq<int>, keepalive: int, rounds: seq<Round>, spare: nat, ghost d: nat, ghost a: nat)
    returns (exit: Exit, n: nat, flags: seq<bool>, misc: seq<nat>, published: seq<Publish>)
    requires |results| >= CONNECT_TRIES && CallsKeepContract(rounds, spare)
    ensures n == TurnsMade(Rest2MqttKind, rounds) && exit == ExitOf(Rest2MqttKind, rounds)
    ensures forall k :: 0 <= k < n ==>
      rounds[k].got.Some? && |rounds[k].got.value.Watched()| < 64 && !rounds[k].pollFailed
    ensures n == |rounds| ==> exit == OutOfRounds
    ensures n < |rounds| && (rounds[n].got.None? || |rounds[n].got.value.Watched()| >= 64) ==> exit == Fatal
    ensures n < |rounds| && exit != Fatal ==> exit == PollFailed && rounds[n].pollFailed
    ensures Recorded(results, rounds, Rest2MqttKind, PollTimeout(keepalive), n, flags, misc)
    ensures 0 <= keepalive && TurnsWithin(rounds[..n], d, a) ==> GapsWithin(misc, PollTimeout(keepalive) + d + a)
    ensures published == AloneLogs(Calls(rounds[..n]), FinishOrder(Calls(rounds[..n])))
  {
    var h := new Handle();
    var u := new Rest2Mqtt.Unit(spare);
    var _, _ := h.Connect(results);
    exit, n, flags := Rest2MqttTurns(h, u, results, PollTimeout(keepalive), rounds);
    misc, published := h.misc, u.published;
    if 0 <= keepalive && TurnsWithin(rounds[..n], d, a) {
      MiscCallsInTime(rounds, keepalive, misc, d, a);
    }
    Rest2MqttEnds(rounds);
    ContractUpTo(rounds, spare, n);
    RunRefinesIndependent(Calls(rounds[..n]));
  }

  /** Turn `n` of a run, with what is known before and after it. */
  method NextTurn(h: Handle, u: Rest2Mqtt.Unit, ghost results: seq<int>, timeout: int, rounds: seq<Round>,
                  n: nat, flags: seq<bool>, now: nat)
    returns (exit: Option<Exit>, later: nat)
    requires n < |rounds| && AtTurn(results, rounds, Rest2MqttKind, timeout, n, flags, h.misc, h.connected, now)
    requires u.Valid() && u.Abstract() == Run(Calls(rounds[..n])) && CallsKeepContract(rounds, u.spare)
    modifies h, u, u.conCls.Values
    ensures exit == StopOf(Rest2MqttKind, rounds[n])
    ensures exit.None? ==>
      AtTurn(results, rounds, Rest2MqttKind, timeout, n + 1, flags + [h.connected], h.misc, h.connected, later)
    ensures exit.None? ==> u.Valid() && u.Abstract() == Run(Calls(rounds[..n + 1]))
    ensures exit.None? ==> forall o :: o in u.conCls.Values ==> o in old(u.conCls.Values) || fresh(o)
    ensures exit.Some? ==> h.misc == old(h.misc) && u.Abstract() == old(u.Abstract())
  {
    ghost var past := Calls(rounds[..n]);
    if n < TurnsMade(Rest2MqttKind, rounds) {
      CallsNext(rounds, n);
      ContractUpTo(rounds, u.spare, n + 1);
      AtNextTurn(results, rounds, Rest2MqttKind, timeout, n, flags, h.misc, h.connected, now);
    }
    exit, later := Rest2MqttRound(h, u, rounds[n], timeout, now, past);
  }

  method Rest2MqttTurns(h: Handle, u: Rest2Mqtt.Unit, ghost results: seq<int>, timeout: int, rounds: seq<Round>)
    returns (exit: Exit, n: nat, flags: seq<bool>)
    requires AtTurn(results, rounds, Rest2MqttKind, timeout, 0, [h.connected], h.misc, h.connected, 0)
    requires u.Valid() && u.Abstract() == INITIAL && u.conCls == map[] && CallsKeepContract(rounds, u.spare)
    modifies h, u
    ensures n == TurnsMade(Rest2MqttKind, rounds) && exit == ExitOf(Rest2MqttKind, rounds)
    ensures Recorded(results, rounds, Rest2MqttKind, timeout, n, flags, h.misc)
    ensures u.Abstract() == Run(Calls(rounds[..n]))
  {
    flags, n := [h.connected], 0;
    var now := 0;
    while n < |rounds|
      invariant n <= |rounds|
      invariant AtTurn(results, rounds, Rest2MqttKind, timeout, n, flags, h.misc, h.connected, now)
      invariant u.Valid() && u.Abstract() == Run(Calls(rounds[..n]))
      invariant forall o :: o in u.conCls.Values ==> fresh(o)
    {
      var stop, later := NextTurn(h, u, results, timeout, rounds, n, flags, now);
      if stop.Some? {
        return stop.value, n, flags;
      }
      flags, n, now := flags + [h.connected], n + 1, later;
    }
    exit := OutOfRounds;
  }

  // ----- an mqtt2rest unit

  /** The messages handed over in a sequence of turns: those of the turns in which
      the client reads. */
  function Delivered(rounds: seq<Round>): seq<Delivery> {
    if rounds == [] then [] else Delivered(rounds[..|rounds| - 1]) + Handed(rounds[|rounds| - 1])
  }

  function Handed(round: Round): seq<Delivery> {
    if round.revents(0) & POLLIN != 0 then round.messages else []
  }

  lemma DeliveredNext(rounds: seq<Round>, k: nat)
    requires k < |rounds|
    ensures Delivered(rounds[..k + 1]) == Delivered(rounds[..k]) + Handed(rounds[k])
    ensures Handed(rounds[k]) == if rounds[k].revents(0) & 1 != 0 then rounds[k].messages else []
  {
    assert rounds[..k + 1][..k] == rounds[..k];
  }

  /** The topic is longer than `T`, and its URL stays inside the buffer. */
  predicate CanForward(t: string, base: string, m: Delivery) {
    |t| < |m.topic| && Mqtt2Rest.StaysInside(base, Mqtt2Rest.Rest(t, m.topic))
  }

  ghost predicate CanForwardAll(t: string, base: string, ms: seq<Delivery>) {
    forall i :: 0 <= i < |ms| ==> CanForward(t, base, ms[i])
  }

  /** The POSTs made of messages, in order. */
  ghost function PostsOf(t: CString, base: CString, ms: seq<Delivery>): (ps: seq<Mqtt2Rest.Post>)
    requires CanForwardAll(t, base, ms)
    ensures |ps| == |ms|
  {
    seq(|ms|, i requires 0 <= i < |ms| =>
      assert CanForward(t, base, ms[i]);
      Mqtt2Rest.PostOf(base, Mqtt2Rest.Rest(t, ms[i].topic), ms[i].payload))
  }

  lemma PostsOfSum(t: CString, base: CString, a: seq<Delivery>, b: seq<Delivery>)
    requires CanForwardAll(t, base, a) && CanForwardAll(t, base, b)
    ensures CanForwardAll(t, base, a + b)
    ensures PostsOf(t, base, a + b) == PostsOf(t, base, a) + PostsOf(t, base, b)
  {}

  /** A POST has a payload exactly when its message has, and it is that up to its
      first NUL or its end. */
  lemma PostsCarry(t: CString, base: CString, ms: seq<Delivery>)
    requires CanForwardAll(t, base, ms)
    ensures forall i :: 0 <= i < |ms| ==> Carries(PostsOf(t, base, ms)[i].payload, ms[i].payload)
  {}

  predicate Carries(payload: Option<CString>, msg: Option<string>) {
    if msg.None? then payload.None?
    else
      && payload.Some? && payload.value <= msg.value
      && (|payload.value| < |msg.value| ==> msg.value[|payload.value|] == '\0')
  }

  /** The message callback, for each message that the client reads. */
  method Forward(t: CString, base: CString, ms: seq<Delivery>) returns (posts: seq<Mqtt2Rest.Post>)
    requires CanForwardAll(t, base, ms)
    ensures posts == PostsOf(t, base, ms)
  {
    posts := [];
    for i := 0 to |ms|
      invariant |posts| == i && forall k :: 0 <= k < i ==> posts[k] == PostsOf(t, base, ms)[k]
    {
      assert CanForward(t, base, ms[i]);
      var p := Mqtt2Rest.OnMqttMsg(t, base, ms[i].topic, ms[i].payload);
      posts := posts + [p];
    }
  }

  /** One turn, which polls MQTT alone. */
  method Mqtt2RestRound(h: Handle, pfd: array<PollFd>, t: CString, base: CString, round: Round, timeout: int, now: nat)
    returns (failed: bool, later: nat, posts: seq<Mqtt2Rest.Post>)
    requires pfd.Length == 1 && (!round.pollFailed ==> CanForwardAll(t, base, Handed(round)))
    modifies h, pfd
    ensures failed == round.pollFailed
    ensures !failed ==> h.connected == (old(h.connected) && !IsLoss(round.DecidingIn(0)))
    ensures !failed ==> h.misc == old(h.misc) + [MiscTime(round, now, timeout)]
    ensures !failed ==> later == MiscTime(round, now, timeout) + round.after
    ensures failed ==> h.connected == old(h.connected) && h.misc == old(h.misc)
    ensures !failed ==> posts == PostsOf(t, base, Handed(round))
    ensures !failed && round.revents(0) & 1 != 0 ==>
      && |posts| == |round.messages|
      && forall i :: 0 <= i < |posts| ==> Carries(posts[i].payload, round.messages[i].payload)
    ensures failed || round.revents(0) & 1 == 0 ==> posts == []
  {
    posts := [];
    if !h.connected {
      var _ := h.Reconnect();
    }
    pfd[0] := h.GetPollFd(round.sock, round.wantWrite, pfd[0].revents);
    later := Poll(pfd, 1, round, timeout, now + round.before);
    if round.pollFailed {
      return true, later, posts;
    }
    var read, write := pfd[0].revents & POLLIN != 0, pfd[0].revents & POLLOUT != 0;
    if read {
      posts := Forward(t, base, round.messages);
      PostsCarry(t, base, round.messages);
    }
    later := later + round.between;
    h.Loop(read, write, round.readRes, round.writeRes, later);
    return false, later + round.after, posts;
  }

  /** What an mqtt2rest unit needs of the messages handed over in the turns made. */
  ghost predicate AllCanForward(t: string, base: string, rounds: seq<Round>) {
    forall k :: 0 <= k < TurnsMade(Mqtt2RestKind, rounds) ==> CanForwardAll(t, base, Handed(rounds[k]))
  }

  /** The POSTs are those of the messages of the first `n` turns. */
  ghost predicate PostedUpTo(t: CString, base: CString, rounds: seq<Round>, n: nat, posts: seq<Mqtt2Rest.Post>) {
    && n <= |rounds| && CanForwardAll(t, base, Delivered(rounds[..n]))
    && posts == PostsOf(t, base, Delivered(rounds[..n]))
  }

  lemma PostedNext(t: CString, base: CString, rounds: seq<Round>, n: nat, posts: seq<Mqtt2Rest.Post>)
    requires PostedUpTo(t, base, rounds, n, posts) && n < |rounds| && CanForwardAll(t, base, Handed(rounds[n]))
    ensures PostedUpTo(t, base, rounds, n + 1, posts + PostsOf(t, base, Handed(rounds[n])))
  {
    DeliveredNext(rounds, n);
    PostsOfSum(t, base, Delivered(rounds[..n]), Handed(rounds[n]));
  }

  /** Turn `n` of a run, with what is known before and after it. */
  method NextMqtt2RestTurn(h: Handle, pfd: array<PollFd>, t: CString, base: CString, ghost results: seq<int>,
                           timeout: int, rounds: seq<Round>, n: nat, ghost flags: seq<bool>, now: nat,
                           posts: seq<Mqtt2Rest.Post>)
    returns (failed: bool, later: nat, more: seq<Mqtt2Rest.Post>)
    requires pfd.Length == 1 && n < |rounds| && AllCanForward(t, base, rounds)
    requires AtTurn(results, rounds, Mqtt2RestKind, timeout, n, flags, h.misc, h.connected, now)
    requires PostedUpTo(t, base, rounds, n, posts)
    modifies h, pfd
    ensures failed == StopOf(Mqtt2RestKind, rounds[n]).Some?
    ensures !failed ==>
      AtTurn(results, rounds, Mqtt2RestKind, timeout, n + 1, flags + [h.connected], h.misc, h.connected, later)
    ensures !failed ==> PostedUpTo(t, base, rounds, n + 1, more)
    ensures failed ==> h.misc == old(h.misc)
  {
    if n < TurnsMade(Mqtt2RestKind, rounds) {
      assert CanForwardAll(t, base, Handed(rounds[n]));
      AtNextTurn(results, rounds, Mqtt2RestKind, timeout, n, flags, h.misc, h.connected, now);
      PostedNext(t, base, rounds, n, posts);
    }
    failed, later, more := Mqtt2RestRound(h, pfd, t, base, rounds[n], timeout, now);
    more := posts + more;
  }

  method Mqtt2RestTurns(h: Handle, t: CString, base: CString, ghost results: seq<int>, timeout: int, rounds: seq<Round>)
    returns (exit: Exit, n: nat, flags: seq<bool>, posts: seq<Mqtt2Rest.Post>)
    requires AtTurn(results, rounds, Mqtt2RestKind, timeout, 0, [h.connected], h.misc, h.connected, 0)
    requires AllCanForward(t, base, rounds)
    modifies h
    ensures n == TurnsMade(Mqtt2RestKind, rounds) && exit == ExitOf(Mqtt2RestKind, rounds)
    ensures Recorded(results, rounds, Mqtt2RestKind, timeout, n, flags, h.misc)
    ensures PostedUpTo(t, base, rounds, n, posts)
  {
    flags, n, posts := [h.connected], 0, [];
    var now, pfd := 0, new PollFd[1];
    while n < |rounds|
      invariant n <= |rounds|
      invariant AtTurn(results, rounds, Mqtt2RestKind, timeout, n, flags, h.misc, h.connected, now)
      invariant PostedUpTo(t, base, rounds, n, posts)
    {
      var failed, later, more := NextMqtt2RestTurn(h, pfd, t, base, results, timeout, rounds, n, flags, now, posts);
      if failed {
        return PollFailed, n, flags, posts;
      }
      flags, n, now, posts := flags + [h.connected], n + 1, later, more;
    }
    exit := OutOfRounds;
  }

  /** An mqtt2rest unit from connect to its last turn; the POSTs it makes are those
      of the messages delivered, in order. */
  method RunMqtt2Rest(t: CString, base: CString, results: seq<int>, keepalive: int, rounds: seq<Round>,
                      ghost d: nat, ghost a: nat)
    returns (exit: Exit, n: nat, flags: seq<bool>, misc: seq<nat>, posts: seq<Mqtt2Rest.Post>)
    requires |results| >= CONNECT_TRIES && AllCanForward(t, base, rounds)
    ensures n == TurnsMade(Mqtt2RestKind, rounds) && exit == ExitOf(Mqtt2RestKind, rounds)
    ensures forall k :: 0 <= k < n ==> !rounds[k].pollFailed
    ensures if n == |rounds| then exit == OutOfRounds else n < |rounds| && rounds[n].pollFailed && exit == PollFailed
    ensures Recorded(results, rounds, Mqtt2RestKind, PollTimeout(keepalive), n, flags, misc)
    ensures 0 <= keepalive && TurnsWithin(rounds[..n], d, a) ==> GapsWithin(misc, PollTimeout(keepalive) + d + a)
    ensures PostedUpTo(t, base, rounds, n, posts) && |posts| == |Delivered(rounds[..n])|
    ensures forall i :: 0 <= i < |posts| ==> Carries(posts[i].payload, Delivered(rounds[..n])[i].payload)
  {
    var h := new Handle();
    var _, _ := h.Connect(results);
    exit, n, flags, posts := Mqtt2RestTurns(h, t, base, results, PollTimeout(keepalive), rounds);
    misc := h.misc;
    Mqtt2RestEnds(rounds);
    PostsCarry(t, base, Delivered(rounds[..n]));
    if 0 <= keepalive && TurnsWithin(rounds[..n], d, a) {
      MiscCallsInTime(rounds, keepalive, misc, d, a);
    }
  }
}
