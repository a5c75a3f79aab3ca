/** The connection state of an MQTT client handle.  What libmosquitto returns
    is an argument of each call. */
module MqttClient {
  import opened PollSet

  const MOSQ_ERR_SUCCESS := 0
  const MOSQ_ERR_NO_CONN := 4
  const MOSQ_ERR_CONN_LOST := 7

  const CONNECT_TRIES := 3

  predicate IsLoss(ret: int) { ret == MOSQ_ERR_CONN_LOST || ret == MOSQ_ERR_NO_CONN }

  /** The result that decides: of the read if there was one, else of the write. */
  function Deciding(read: bool, write: bool, readRes: int, writeRes: int): int {
    if read then readRes else if write then writeRes else MOSQ_ERR_SUCCESS
  }

  ghost predicate ConnectedInTime(results: seq<int>) {
    exists i :: 0 <= i < CONNECT_TRIES && i < |results| && results[i] == MOSQ_ERR_SUCCESS
  }

  class Handle {
    var connected: bool
    /** When `mosquitto_loop_misc` was called. */
    var misc: seq<nat>

    constructor ()
      ensures !connected && misc == []
    {
      connected := false;
      misc := [];
    }

    /** At most three tries; `results` are those of `mosquitto_connect`. */
    method Connect(results: seq<int>) returns (ok: bool, tries: nat)
      requires |results| >= CONNECT_TRIES
      modifies this`connected
      ensures ok == connected == (old(connected) || ConnectedInTime(results))
      ensures ok <==> old(connected) || results[0] == 0 || results[1] == 0 || results[2] == 0
      ensures tries <= 3
      ensures !ConnectedInTime(results) ==> tries == 3
      ensures forall i :: 0 <= i < tries - 1 ==> results[i] != MOSQ_ERR_SUCCESS
      ensures ConnectedInTime(results) <==> 0 < tries && results[tries - 1] == MOSQ_ERR_SUCCESS
    {
      var count := CONNECT_TRIES;
      tries := 0;
      while count > 0
        invariant tries == CONNECT_TRIES - count && 0 <= count
        invariant connected == old(connected)
        invariant forall i :: 0 <= i < tries ==> results[i] != MOSQ_ERR_SUCCESS
      {
        count := count - 1;
        var ret := results[tries];
        tries := tries + 1;
        if ret == MOSQ_ERR_SUCCESS {
          connected := true;
          break;
        }
      }
      ok := connected;
    }

    /** Claims success and changes nothing. */
    method Reconnect() returns (ok: bool)
      ensures ok
    {
      ok := true;
    }

    /** The slot that `mqtt_client_get_pollfds` fills. */
    method GetPollFd(sock: int, wantWrite: bool, junk: bv16) returns (p: PollFd)
      ensures p.want == Interest(sock, p.want.events)
      ensures p.want.events & POLLIN != 0 && p.want.events & POLLPRI == 0
      ensures p.want.events & POLLOUT != 0 <==> wantWrite
      ensures p.want.fd == sock && p.want.events == if wantWrite then 5 else 1
    {
      var events := POLLIN;
      if wantWrite {
        events := events | POLLOUT;
      }
      p := PollFd(Interest(sock, events), junk);
    }

    /** One pass: write, then read, then the test of the last result, and in any
        case the misc call, at time `now`. */
    method Loop(read: bool, write: bool, readRes: int, writeRes: int, now: nat)
      modifies this
      ensures connected == (old(connected) && !IsLoss(Deciding(read, write, readRes, writeRes)))
      ensures read ==> (connected <==> old(connected) && readRes != 7 && readRes != 4)
      ensures !read && write ==> (connected <==> old(connected) && writeRes != 7 && writeRes != 4)
      ensures !read && !write ==> connected == old(connected)
      ensures misc == old(misc) + [now]
    {
      var ret := MOSQ_ERR_SUCCESS;
      if write {
        ret := writeRes;
      }
      if read {
        ret := readRes;
      }
      if ret == MOSQ_ERR_CONN_LOST || ret == MOSQ_ERR_NO_CONN {
        connected := false;
      }
      misc := misc + [now];
    }
  }
}
