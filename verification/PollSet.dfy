/** `get_mhd_pollfds`: the three descriptor sets of the HTTP library packed into
    a poll array of limited size, and the MQTT slot put after them. */
module PollSet {
  import opened CStrings

  const POLLIN: bv16 := 1
  const POLLPRI: bv16 := 2
  const POLLOUT: bv16 := 4

  datatype Interest = Interest(fd: int, events: bv16)

  datatype PollFd = PollFd(want: Interest, revents: bv16)

  /** What `MHD_get_fdset` fills in. */
  datatype FdSets = FdSets(rs: set<int>, ws: set<int>, es: set<int>, max: int)
  {
    function All(): set<int> { rs + ws + es }

    function Mask(fd: int): bv16 {
      (if fd in rs then POLLIN else 0) | (if fd in ws then POLLOUT else 0) | (if fd in es then POLLPRI else 0)
    }

    /** The descriptors below `n`, in order. */
    function Packed(n: nat): seq<Interest> {
      if n == 0 then []
      else Packed(n - 1) + if n - 1 in All() then [Interest(n - 1, Mask(n - 1))] else []
    }

    function Bound(): nat { if max < 0 then 0 else max + 1 }

    /** The descriptors that packing looks at. */
    function Watched(): set<int> { set fd | fd in All() && 0 <= fd <= max }
  }

  // ----- what the packed list says

  lemma {:induction false} PackedShape(s: FdSets, n: nat)
    ensures forall i :: 0 <= i < |s.Packed(n)| ==>
      var p := s.Packed(n)[i]; 0 <= p.fd < n && p.fd in s.All() && p.events == s.Mask(p.fd)
    ensures forall i, j :: 0 <= i < j < |s.Packed(n)| ==> s.Packed(n)[i].fd < s.Packed(n)[j].fd
  {
    if n > 0 {
      PackedShape(s, n - 1);
    }
  }

  lemma {:induction false} PackedHasAll(s: FdSets, n: nat, fd: int)
    requires 0 <= fd < n && fd in s.All()
    ensures exists i :: 0 <= i < |s.Packed(n)| && s.Packed(n)[i] == Interest(fd, s.Mask(fd))
  {
    var before := s.Packed(n - 1);
    if fd == n - 1 {
      assert s.Packed(n)[|before|] == Interest(fd, s.Mask(fd));
    } else {
      PackedHasAll(s, n - 1, fd);
      var i :| 0 <= i < |before| && before[i] == Interest(fd, s.Mask(fd));
      assert s.Packed(n)[i] == before[i];
    }
  }

  /** The descriptors of a poll list that ask for `event`. */
  ghost function Asking(list: seq<Interest>, event: bv16): set<int> {
    set i | 0 <= i < |list| && list[i].events & event != 0 :: list[i].fd
  }

  lemma MaskBits(s: FdSets, fd: int)
    ensures s.Mask(fd) & POLLIN != 0 <==> fd in s.rs
    ensures s.Mask(fd) & POLLOUT != 0 <==> fd in s.ws
    ensures s.Mask(fd) & POLLPRI != 0 <==> fd in s.es
  {}

  lemma AskingExactly(s: FdSets, event: bv16, asked: set<int>)
    requires forall fd :: s.Mask(fd) & event != 0 <==> fd in asked
    requires asked <= s.All()
    ensures Asking(s.Packed(s.Bound()), event) == set fd | fd in asked && 0 <= fd <= s.max
  {
    var list := s.Packed(s.Bound());
    PackedShape(s, s.Bound());
    forall fd | fd in asked && 0 <= fd <= s.max
      ensures fd in Asking(list, event)
    {
      PackedHasAll(s, s.Bound(), fd);
      var i :| 0 <= i < |list| && list[i] == Interest(fd, s.Mask(fd));
      assert list[i].fd in Asking(list, event);
    }
  }

  /** Packing is lossless: it lists each watched descriptor once, ascending, and
      its event masks give the three sets back. */
  lemma PackingLossless(s: FdSets)
    ensures var list := s.Packed(s.Bound());
      && (forall i, j :: 0 <= i < j < |list| ==> list[i].fd < list[j].fd)
      && Asking(list, POLLIN) == (set fd | fd in s.rs && 0 <= fd <= s.max)
      && Asking(list, POLLOUT) == (set fd | fd in s.ws && 0 <= fd <= s.max)
      && Asking(list, POLLPRI) == (set fd | fd in s.es && 0 <= fd <= s.max)
  {
    PackedShape(s, s.Bound());
    forall fd
      ensures s.Mask(fd) & POLLIN != 0 <==> fd in s.rs
      ensures s.Mask(fd) & POLLOUT != 0 <==> fd in s.ws
      ensures s.Mask(fd) & POLLPRI != 0 <==> fd in s.es
    {
      MaskBits(s, fd);
    }
    AskingExactly(s, POLLIN, s.rs);
    AskingExactly(s, POLLOUT, s.ws);
    AskingExactly(s, POLLPRI, s.es);
  }

  lemma {:induction false} PackedSize(s: FdSets, n: nat)
    ensures |s.Packed(n)| == |set fd | fd in s.All() && 0 <= fd < n|
  {
    var upto := set fd | fd in s.All() && 0 <= fd < n;
    if n == 0 {
      assert upto == {};
    } else {
      PackedSize(s, n - 1);
      var below := set fd | fd in s.All() && 0 <= fd < n - 1;
      assert upto == if n - 1 in s.All() then below + {n - 1} else below;
    }
  }

  lemma PackedLength(s: FdSets)
    ensures |s.Packed(s.Bound())| == |s.Watched()|
  {
    PackedSize(s, s.Bound());
    assert s.Watched() == set fd | fd in s.All() && 0 <= fd < s.Bound();
  }

  lemma {:induction false} PackedGrows(s: FdSets, m: nat, n: nat)
    requires m <= n
    ensures s.Packed(m) <= s.Packed(n)
  {
    if m < n {
      PackedGrows(s, m, n - 1);
    }
  }

  // ----- packing in place

  ghost predicate AsksFor(pfds: seq<PollFd>, list: seq<Interest>) {
    |list| <= |pfds| && forall i :: 0 <= i < |list| ==> pfds[i].want == list[i]
  }

  /** `None` is the fatal exit.  It is taken exactly when the watched descriptors
      are at least as many as the capacity; otherwise their number is returned,
      the list is in the array, and the slots after it are untouched. */
  method Pack(pfds: array<PollFd>, s: FdSets, capacity: nat) returns (count: Option<nat>)
    requires 0 < capacity <= pfds.Length
    modifies pfds
    ensures count.None? <==> |s.Watched()| >= capacity
    ensures count.Some? ==> count.value == |s.Watched()|
    ensures count.Some? ==> AsksFor(pfds[..], s.Packed(s.Bound()))
    ensures count.Some? ==> forall i :: count.value <= i < pfds.Length ==> pfds[i] == old(pfds[i])
  {
    PackedLength(s);
    var counter, fd := 0, 0;
    while fd <= s.max
      invariant 0 <= fd <= s.Bound()
      invariant counter == |s.Packed(fd)| < capacity
      invariant AsksFor(pfds[..], s.Packed(fd))
      invariant forall i :: counter <= i < pfds.Length ==> pfds[i] == old(pfds[i])
    {
      var r, w, e := fd in s.rs, fd in s.ws, fd in s.es;
      if r || w || e {
        var events: bv16 := 0;
        if r { events := events | POLLIN; }
        if w { events := events | POLLOUT; }
        if e { events := events | POLLPRI; }
        assert events == s.Mask(fd);
        pfds[counter] := pfds[counter].(want := Interest(fd, events));
        counter := counter + 1;
        if counter >= capacity {
          PackedGrows(s, fd + 1, s.Bound());
          return None;
        }
      }
      fd := fd + 1;
    }
    return Some(counter);
  }

  /** `get_mhd_pollfds`: `got` is what `MHD_get_fdset` fills in, if it succeeds; its
      failure is the other fatal exit. */
  method GetMhdPollFds(pfds: array<PollFd>, got: Option<FdSets>, capacity: nat) returns (count: Option<nat>)
    requires 0 < capacity <= pfds.Length
    modifies pfds
    ensures count.None? <==> got.None? || |got.value.Watched()| >= capacity
    ensures count.Some? ==> count.value == |got.value.Watched()|
    ensures count.Some? ==> AsksFor(pfds[..], got.value.Packed(got.value.Bound()))
    ensures count.Some? ==> forall i :: count.value <= i < pfds.Length ==> pfds[i] == old(pfds[i])
  {
    if got.None? {
      return None;
    }
    count := Pack(pfds, got.value, capacity);
  }
}
