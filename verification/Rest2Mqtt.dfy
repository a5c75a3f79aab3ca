/** The accumulators of `answer_to_connection` in the heap: the buffer grown in
    place by realloc and strncat, and the object behind each `*con_cls`. */
module Rest2Mqtt {
  import opened CStrings
  import opened Requests
  import IntParsing

  // ----- one buffer, as a value

  /** One continuation callback on the buffer.  `kept` is what realloc preserves,
      the bytes asked for so far; `junk` is whatever fills the rest of the new
      block.  `None` when strncat leaves the block. */
  function Grow(kept: string, chunk: string, junk: string): (r: Option<string>)
    requires |junk| > 0
  {
    Strncat(kept + ([NUL] + junk[1..]), |kept|, chunk, |chunk|)
  }

  /** The block reads as the upload does, and is terminated. */
  ghost predicate ReadsAs(block: string, body: string) {
    |body| <= |block| && |CStr(body)| < |block| && CStr(block) == CStr(body)
  }

  /** The terminator finds room: there is a byte beyond those asked for, or the
      chunk contains a NUL. */
  predicate HasRoom(chunk: string, spare: nat) {
    spare > 0 || !NulFree(chunk)
  }

  lemma Associative(a: string, b: string, c: string)
    ensures a + b + [NUL] + c == a + (b + [NUL] + c)
  {}

  lemma GrowWrites(kept: string, chunk: string, junk: string)
    requires |junk| > 0
    ensures Grow(kept, chunk, junk).Some? <==> |CStr(chunk)| < |junk|
    ensures Grow(kept, chunk, junk).Some? ==>
      Grow(kept, chunk, junk).value == kept + CStr(chunk) + [NUL] + junk[|CStr(chunk)| + 1..]
  {}

  /** With `spare` bytes beyond those asked for, the step stays in the block
      exactly when the terminator has room. */
  lemma GrowStaysInsideIff(kept: string, chunk: string, junk: string, spare: nat)
    requires chunk != "" && |junk| == |chunk| + spare
    ensures Grow(kept, chunk, junk).Some? <==> HasRoom(chunk, spare)
  {
    GrowWrites(kept, chunk, junk);
    if NulFree(chunk) {
      CStrUnique(chunk, chunk);
    }
  }

  /** Whenever the step stays in the block, the block reads as the longest
      NUL-free prefix of the bytes uploaded, whatever realloc leaves in it. */
  lemma GrowReads(kept: string, body: string, chunk: string, junk: string)
    requires |kept| == |body| && CStr(kept) == CStr(body)
    requires |chunk| <= |junk| && |junk| > 0 && Grow(kept, chunk, junk).Some?
    ensures var block := Grow(kept, chunk, junk).value;
      |block| == |kept| + |junk| && ReadsAs(block, body + chunk)
  {
    GrowWrites(kept, chunk, junk);
    var rest := junk[|CStr(chunk)| + 1..];
    Associative(kept, CStr(chunk), rest);
    CStrUnique(CStr(chunk) + [NUL] + rest, CStr(chunk));
    CStrConcat(kept, CStr(chunk) + [NUL] + rest);
    CStrConcat(body, chunk);
    SameReadingSameNuls(kept, body);
  }

  lemma SameReadingSameNuls(a: string, b: string)
    requires |a| == |b| && CStr(a) == CStr(b)
    ensures NulFree(a) <==> NulFree(b)
    ensures NulFree(a) ==> a == b
  {}

  lemma KeptReads(block: string, body: string)
    requires ReadsAs(block, body)
    ensures CStr(block[..|body|]) == CStr(body)
  {
    CStrUnique(block[..|body|], CStr(body));
  }

  /** What the allocator leaves in each grown block beyond the bytes preserved. */
  ghost predicate IsJunk(junks: seq<string>, chunks: seq<string>, spare: nat) {
    && |chunks| == |junks|
    && forall i :: 0 <= i < |chunks| ==> chunks[i] != "" && |junks[i]| == |chunks[i]| + spare
  }

  /** The buffer after a sequence of continuation callbacks, with blocks `spare`
      bytes longer than asked for (0 for the size in the code). */
  ghost function Buffer(chunks: seq<string>, junks: seq<string>, spare: nat): (block: Option<string>)
    requires IsJunk(junks, chunks, spare)
    decreases |chunks|
  {
    if chunks == [] then Some("")
    else
      var n := |chunks| - 1;
      var before, length := Buffer(chunks[..n], junks[..n], spare), |Flatten(chunks[..n])|;
      if before.None? || |before.value| < length then None
      else Grow(before.value[..length], chunks[n], junks[n])
  }

  ghost predicate Kept(block: string, body: string) {
    |body| <= |block| && CStr(block[..|body|]) == CStr(body)
  }

  lemma GrowStep(block: string, body: string, chunk: string, junk: string, spare: nat)
    requires Kept(block, body) && chunk != "" && |junk| == |chunk| + spare
    ensures var r := Grow(block[..|body|], chunk, junk);
      (r.Some? <==> HasRoom(chunk, spare)) &&
      (r.Some? ==> ReadsAs(r.value, body + chunk) && Kept(r.value, body + chunk))
  {
    var kept := block[..|body|];
    GrowStaysInsideIff(kept, chunk, junk, spare);
    if HasRoom(chunk, spare) {
      GrowReads(kept, body, chunk, junk);
      KeptReads(Grow(kept, chunk, junk).value, body + chunk);
    }
  }

  ghost predicate AllChunksHaveRoom(chunks: seq<string>, spare: nat) {
    forall i :: 0 <= i < |chunks| ==> HasRoom(chunks[i], spare)
  }

  lemma RoomOfNext(chunks: seq<string>, spare: nat)
    requires chunks != []
    ensures var n := |chunks| - 1;
      AllChunksHaveRoom(chunks, spare) <==> AllChunksHaveRoom(chunks[..n], spare) && HasRoom(chunks[n], spare)
  {}

  /** Every write of the run is inside its block exactly when there is a spare
      byte or every chunk contains a NUL; and then the buffer reads as the
      longest NUL-free prefix of the whole upload. */
  lemma {:induction false} BufferReadsAsUpload(chunks: seq<string>, junks: seq<string>, spare: nat)
    requires IsJunk(junks, chunks, spare)
    ensures var block := Buffer(chunks, junks, spare);
      && (block.Some? <==> AllChunksHaveRoom(chunks, spare))
      && (block.Some? ==> Kept(block.value, Flatten(chunks)))
      && (block.Some? && chunks != [] ==> ReadsAs(block.value, Flatten(chunks)))
    decreases |chunks|
  {
    if chunks != [] {
      var n := |chunks| - 1;
      var before := Buffer(chunks[..n], junks[..n], spare);
      BufferReadsAsUpload(chunks[..n], junks[..n], spare);
      RoomOfNext(chunks, spare);
      if before.Some? {
        GrowStep(before.value, Flatten(chunks[..n]), chunks[n], junks[n], spare);
      }
    }
  }

  // ----- one accumulator in the heap

  /** realloc: keeps the first `keep` bytes; the rest of the block is arbitrary. */
  method Realloc(block: array?<char>, keep: nat, size: nat) returns (r: array<char>)
    requires keep <= size && (block == null ==> keep == 0) && (block != null ==> keep <= block.Length)
    ensures fresh(r) && r.Length == size
    ensures block != null ==> r[..keep] == block[..keep]
  {
    r := new char[size];
    for i := 0 to keep
      invariant block != null ==> r[..i] == block[..i]
    {
      r[i] := block[i];
      assert r[..i + 1] == r[..i] + [r[i]] && block[..i + 1] == block[..i] + [block[i]];
    }
  }

  /** The grown block with the old length marked as its end. */
  method ReallocMarked(data: array?<char>, length: nat, more: nat) returns (block: array<char>, ghost junk: string)
    requires more > 0
    requires data == null ==> length == 0
    requires data != null ==> length <= data.Length
    ensures fresh(block) && |junk| == more
    ensures block[..] == (if data == null then "" else data[..length]) + ([NUL] + junk[1..])
  {
    block := Realloc(data, length, length + more);
    junk := block[length..];
    ghost var kept := block[..length];
    block[length] := NUL;
    assert block[..length] == kept && block[length + 1..] == junk[1..];
    assert block[..] == block[..length] + ([block[length]] + block[length + 1..]);
    assert data == null ==> kept == "";
  }

  /** The continuation branch on the block itself. */
  method GrowBlock(data: array?<char>, length: nat, chunk: string, spare: nat, ghost body: string)
    returns (block: array<char>)
    requires chunk != "" && HasRoom(chunk, spare)
    requires length == |body| && (data == null ==> body == "")
    requires data != null ==> length <= data.Length && CStr(data[..length]) == CStr(body)
    ensures fresh(block) && block.Length == length + |chunk| + spare && ReadsAs(block[..], body + chunk)
  {
    ghost var kept := if data == null then "" else data[..length];
    ghost var junk;
    block, junk := ReallocMarked(data, length, |chunk| + spare);
    GrowStaysInsideIff(kept, chunk, junk, spare);
    GrowReads(kept, body, chunk, junk);
    StrncatAt(block, length, chunk, |chunk|);
  }

  /** A block from the allocator, and the request it was allocated for. */
  class Block {
    const bytes: array<char>
    ghost const owner: ReqId

    constructor (bytes: array<char>, ghost owner: ReqId)
      ensures this.bytes == bytes && this.owner == owner
    {
      this.bytes := bytes;
      this.owner := owner;
    }
  }

  class IncomingData {
    var length: nat
    var data: Block?
    /** How many bytes a block has beyond those asked for. */
    const spare: nat
    ghost const owner: ReqId
    /** Everything uploaded so far. */
    ghost var uploaded: string

    ghost function Memory(): set<object>
      reads this
    {
      if data == null then {} else {data.bytes}
    }

    ghost predicate Valid()
      reads this, Memory()
    {
      && length == |uploaded|
      && (data == null <==> uploaded == "")
      && (data != null ==>
            data.owner == owner && data.bytes.Length == length + spare && ReadsAs(data.bytes[..], uploaded))
    }

    constructor (ghost owner: ReqId, spare: nat)
      ensures Valid() && uploaded == "" && this.owner == owner && this.spare == spare
    {
      this.owner := owner;
      this.spare := spare;
      length := 0;
      data := null;
      uploaded := "";
    }

    method Append(chunk: string)
      requires Valid() && chunk != "" && HasRoom(chunk, spare)
      modifies this
      ensures Valid() && uploaded == old(uploaded) + chunk && fresh(data) && fresh(Memory())
    {
      if data != null {
        KeptReads(data.bytes[..], uploaded);
        assert data.bytes[..][..length] == data.bytes[..length];
      }
      var bytes := GrowBlock(if data == null then null else data.bytes, length, chunk, spare, uploaded);
      data := new Block(bytes, owner);
      length := length + |chunk|;
      uploaded := uploaded + chunk;
    }

    /** The C string behind `incoming->data`: what `strlen` and publish see. */
    method Text() returns (text: CString)
      requires Valid() && data != null
      ensures text == CStr(uploaded)
    {
      text := ReadString(data.bytes);
    }
  }

  // ----- all accumulators of a unit

  /** What the callback returns to the HTTP library: refuse; continue, with the
      bytes left unconsumed; or a queued response. */
  datatype Reply = No | Yes(unconsumed: nat) | Responded

  /** What there is to know about the requests of a unit: what each is for the
      request machine, how often its accumulator was passed to `free`, and which
      data block was passed to `free` before it. */
  datatype Ledger = Ledger(requests: map<ReqId, Request>, freed: multiset<ReqId>, freedData: map<ReqId, Block?>)
  {
    ghost function Freed(r: ReqId, data: Block?): Ledger {
      Ledger(requests[r := Finished], freed + multiset{r}, freedData[r := data])
    }

    /** Freed at most once, block and accumulator together, when finished. */
    ghost predicate Lists(r: ReqId) {
      && r in requests && freed[r] <= 1 && (r in freedData <==> r in freed)
      && (r in freed ==> requests[r] == Finished)
    }
  }

  class Unit {
    /** `*con_cls` of each request; it keeps pointing at its accumulator after
        that is freed. */
    var conCls: map<ReqId, IncomingData>
    var published: seq<Publish>
    const spare: nat
    ghost var ledger: Ledger

    ghost predicate Live(r: ReqId)
      reads this
    {
      r in conCls && r !in ledger.freed
    }

    ghost function Blocks(): set<object>
      reads this, conCls.Values
    {
      set r | r in conCls && conCls[r].data != null :: conCls[r].data.bytes
    }

    /** A request's accumulator is its own; it and its data block are freed at most
        once, and together; and until then it holds the upload. */
    ghost predicate Sound(r: ReqId)
      requires r in conCls
      reads this, conCls.Values, Blocks()
    {
      var incoming := conCls[r];
      && incoming.owner == r && incoming.spare == spare
      && ledger.Lists(r)
      && if r in ledger.freed
         then ledger.freedData[r] == incoming.data && incoming.data != null && incoming.data.owner == r
         else ledger.requests[r] == Collecting(incoming.uploaded) && incoming.Valid()
    }

    ghost predicate Valid()
      reads this, conCls.Values, Blocks()
    {
      && (forall r :: r in conCls ==> Sound(r))
      && (forall r :: r in ledger.requests || r in ledger.freed || r in ledger.freedData ==> r in conCls)
    }

    /** The state this heap stands for. */
    ghost function Abstract(): State
      reads this
    {
      Running(ledger.requests, published)
    }

    constructor (spare: nat)
      ensures Valid() && Abstract() == INITIAL && conCls == map[] && this.spare == spare
    {
      conCls := map[];
      published := [];
      this.spare := spare;
      ledger := Ledger(map[], multiset{}, map[]);
    }

    /** Every read through `*con_cls` passes here, so only live objects are read. */
    function Deref(r: ReqId): IncomingData
      requires Live(r)
      reads this
    {
      conCls[r]
    }

    /** First callback: a new accumulator goes behind `*con_cls`. */
    method Open(r: ReqId)
      requires Valid() && r !in conCls
      modifies this`conCls, this`ledger
      ensures Valid() && r in conCls && conCls == old(conCls)[r := conCls[r]]
      ensures forall o :: o in conCls.Values ==> o in old(conCls.Values) || fresh(o)
      ensures ledger == old(ledger).(requests := old(ledger).requests[r := Collecting("")])
    {
      var incoming := new IncomingData(r, spare);
      conCls := conCls[r := incoming];
      ledger := ledger.(requests := ledger.requests[r := Collecting("")]);
      forall q | q in conCls
        ensures Sound(q)
      {
        if q != r { assert old(Sound(q)); }
      }
    }

    /** Continuation: one accumulator grows. */
    method Continue(r: ReqId, chunk: string)
      requires Valid() && Live(r) && chunk != "" && HasRoom(chunk, spare)
      modifies conCls[r], this`ledger
      ensures Valid()
      ensures var upload := old(conCls[r].uploaded) + chunk;
        ledger == old(ledger).(requests := old(ledger).requests[r := Collecting(upload)])
    {
      assert Sound(r);
      Deref(r).Append(chunk);
      ledger := ledger.(requests := ledger.requests[r := Collecting(conCls[r].uploaded)]);
      assert Sound(r);
      forall q | q in conCls && q != r
        ensures Sound(q)
      {
        assert old(Sound(q));
      }
    }

    /** The arguments of `mqtt_client_publish`, as it hands them on. */
    method Compose(r: ReqId, url: CString, qos: CString) returns (m: Publish)
      requires Valid() && Live(r) && conCls[r].data != null && url != ""
      ensures m == Message(conCls[r].uploaded, url, qos)
    {
      assert Sound(r);
      var text := Deref(r).Text();
      // the target is uninitialised in the code; its old value does not matter
      var _, level := IntParsing.RunParseInt(qos, 0);
      m := Publish(url[1..], text, level);
    }

    method LogPublish(m: Publish)
      requires Valid()
      modifies this`published
      ensures Valid() && published == old(published) + [m]
    {
      published := published + [m];
      forall q | q in conCls
        ensures Sound(q)
      {
        assert old(Sound(q));
      }
    }

    /** `free(incoming->data)`, then `free(incoming)`. */
    method Release(r: ReqId)
      requires Valid() && Live(r) && conCls[r].data != null
      modifies this`ledger
      ensures Valid() && ledger == old(ledger).Freed(r, conCls[r].data)
    {
      assert Sound(r);
      ledger := ledger.Freed(r, conCls[r].data);
      assert Sound(r);
      forall q | q in conCls && q != r
        ensures Sound(q)
      {
        assert old(Sound(q));
      }
    }

    /** Final callback: publish, then free the data block and the accumulator. */
    method Finish(r: ReqId, url: CString, qos: CString)
      requires Valid() && Live(r) && conCls[r].data != null && url != ""
      modifies this`published, this`ledger
      ensures Valid() && ledger == old(ledger).Freed(r, conCls[r].data)
      ensures published == old(published) + [Message(conCls[r].uploaded, url, qos)]
    {
      var message := Compose(r, url, qos);
      LogPublish(message);
      Release(r);
    }

    /** A continuation chunk leaves room for its terminator. */
    predicate MayWrite(cb: Callback)
      reads this
    {
      cb.Posts() && cb.req in conCls && cb.upload != "" ==> HasRoom(cb.upload, spare)
    }

    /** A callback of an opened request that does not fault finds it live, with its
        upload, and if final with something to publish. */
    lemma FindsLive(cb: Callback)
      requires Valid() && Step(Abstract(), cb).Running? && cb.Posts() && cb.req in conCls
      ensures Live(cb.req)
      ensures cb.upload != "" ==>
        Step(Abstract(), cb)
        == Running(ledger.requests[cb.req := Collecting(conCls[cb.req].uploaded + cb.upload)], published)
      ensures cb.upload == "" ==>
        && conCls[cb.req].data != null && cb.url != "" && cb.qos.Some?
        && Step(Abstract(), cb) == Running(ledger.requests[cb.req := Finished],
             published + [Message(conCls[cb.req].uploaded, cb.url, cb.qos.value)])
    {
      assert Sound(cb.req);
    }

    /** A callback of an opened request: the second and third branches. */
    method AnswerAgain(cb: Callback) returns (reply: Reply)
      requires Valid() && Step(Abstract(), cb).Running? && MayWrite(cb) && cb.Posts() && cb.req in conCls
      modifies this`published, this`ledger, conCls[cb.req]
      ensures Valid() && Abstract() == Step(old(Abstract()), cb) && old(Live(cb.req))
      ensures reply == if cb.upload != "" then Yes(0) else Responded
      ensures cb.upload != "" ==>
        && published == old(published) && ledger.freed == old(ledger).freed
        && ledger.requests == old(ledger).requests[cb.req := Collecting(old(conCls[cb.req].uploaded) + cb.upload)]
      ensures cb.upload == "" ==>
        && ledger.freed == old(ledger).freed + multiset{cb.req}
        && |published| == |old(published)| + 1 && old(published) <= published
        && Describes(published[|old(published)|], old(conCls[cb.req].uploaded), cb.url, cb.qos)
    {
      FindsLive(cb);
      if cb.upload == "" {
        MessageDescribed(conCls[cb.req].uploaded, cb.url, cb.qos.value);
      }
      if |cb.upload| != 0 {
        Continue(cb.req, cb.upload);
        return Yes(0);
      }
      Finish(cb.req, cb.url, cb.qos.value);
      return Responded;
    }

    /** The callback refines one step of the request machine; what each branch
        publishes, keeps, frees and answers; and it reads only live accumulators. */
    method AnswerToConnection(cb: Callback) returns (reply: Reply)
      requires Valid() && Step(Abstract(), cb).Running? && MayWrite(cb)
      modifies this, conCls.Values
      ensures Valid() && Abstract() == Step(old(Abstract()), cb)
      ensures forall o :: o in conCls.Values ==> o in old(conCls.Values) || fresh(o)
      ensures cb.verb != "POST" ==> Abstract() == old(Abstract()) && conCls == old(conCls) && ledger == old(ledger)
      ensures cb.verb == "POST" && cb.req !in old(conCls) ==>
        && published == old(published) && ledger.freed == old(ledger).freed
        && ledger.requests == old(ledger).requests[cb.req := Collecting("")]
      ensures cb.verb == "POST" && cb.req in old(conCls) && cb.upload != "" ==>
        && published == old(published) && ledger.freed == old(ledger).freed && old(Live(cb.req))
        && ledger.requests == old(ledger).requests[cb.req := Collecting(old(conCls[cb.req].uploaded) + cb.upload)]
      ensures cb.verb == "POST" && cb.req in old(conCls) && cb.upload == "" ==>
        && old(Live(cb.req)) && ledger.freed == old(ledger).freed + multiset{cb.req}
        && |published| == |old(published)| + 1 && old(published) <= published
        && Describes(published[|old(published)|], old(conCls[cb.req].uploaded), cb.url, cb.qos)
      ensures reply == if cb.verb != "POST" then No
                       else if cb.req !in old(conCls) then Yes(|cb.upload|)
                       else if cb.upload != "" then Yes(0)
                       else Responded
    {
      if cb.verb != "POST" {
        return No;
      }
      if cb.req !in conCls {
        Open(cb.req);
        return Yes(|cb.upload|);
      }
      reply := AnswerAgain(cb);
    }
  }

  lemma {:induction false} RunningBefore(cbs: seq<Callback>, i: nat)
    requires Run(cbs).Running? && i <= |cbs|
    ensures Run(cbs[..i]).Running?
    decreases |cbs|
  {
    if i == |cbs| {
      assert cbs[..i] == cbs;
    } else {
      var prev := cbs[..|cbs| - 1];
      RunningBefore(prev, i);
      assert prev[..i] == cbs[..i];
    }
  }

  lemma RunOfNext(cbs: seq<Callback>, i: nat)
    requires i < |cbs|
    ensures Run(cbs[..i + 1]) == Step(Run(cbs[..i]), cbs[i])
  {
    assert cbs[..i + 1][..i] == cbs[..i];
  }

  /** If callback `i` is a continuation, its chunk leaves room for a terminator. */
  predicate RoomAt(cbs: seq<Callback>, i: nat, spare: nat)
    requires i < |cbs|
  {
    cbs[i].Posts() && Own(cbs[..i], cbs[i].req) != [] && cbs[i].upload != ""
    ==> HasRoom(cbs[i].upload, spare)
  }

  /** Every chunk of every request does. */
  ghost predicate AllHaveRoom(cbs: seq<Callback>, spare: nat) {
    forall i :: 0 <= i < |cbs| ==> RoomAt(cbs, i, spare)
  }

  lemma CallbackMayWrite(cbs: seq<Callback>, i: nat, spare: nat)
    requires i < |cbs| && Run(cbs[..i]).Running? && AllHaveRoom(cbs, spare)
    ensures cbs[i].Posts() && cbs[i].req in Run(cbs[..i]).requests && cbs[i].upload != ""
      ==> HasRoom(cbs[i].upload, spare)
  {
    assert RoomAt(cbs, i, spare);
    LiveAccumulators(cbs[..i], cbs[i].req);
  }

  lemma RoomBefore(cbs: seq<Callback>, i: nat, spare: nat)
    requires AllHaveRoom(cbs, spare) && i <= |cbs|
    ensures AllHaveRoom(cbs[..i], spare)
  {
    forall k | 0 <= k < i
      ensures RoomAt(cbs[..i], k, spare)
    {
      assert cbs[..i][k] == cbs[k] && cbs[..i][..k] == cbs[..k];
      assert RoomAt(cbs, k, spare);
    }
  }

  /** Callback `j` of a run. */
  method NextCallback(u: Unit, cb: Callback, ghost all: seq<Callback>, ghost j: nat)
    requires u.Valid() && j < |all| && cb == all[j] && u.Abstract() == Run(all[..j])
    requires Run(all).Running? && AllHaveRoom(all, u.spare)
    modifies u, u.conCls.Values
    ensures u.Valid() && u.Abstract() == Run(all[..j + 1])
    ensures forall o :: o in u.conCls.Values ==> o in old(u.conCls.Values) || fresh(o)
  {
    RunningBefore(all, j + 1);
    RunOfNext(all, j);
    CallbackMayWrite(all, j, u.spare);
    assert all[j].req in u.conCls ==> u.Sound(all[j].req);
    var _ := u.AnswerToConnection(cb);
  }

  lemma FirstOfRest(past: seq<Callback>, cbs: seq<Callback>)
    requires cbs != []
    ensures var all := past + cbs;
      && all[..|past|] == past && all[|past|] == cbs[0] && all[..|past| + 1] == past + [cbs[0]]
      && past + [cbs[0]] + cbs[1..] == all
  {}

  /** The callbacks that `MHD_run` makes, after those in `past`. */
  method RunCallbacks(u: Unit, cbs: seq<Callback>, ghost past: seq<Callback>)
    requires u.Valid() && u.Abstract() == Run(past)
    requires Run(past + cbs).Running? && AllHaveRoom(past + cbs, u.spare)
    modifies u, u.conCls.Values
    ensures u.Valid() && u.Abstract() == Run(past + cbs)
    ensures forall o :: o in u.conCls.Values ==> o in old(u.conCls.Values) || fresh(o)
    decreases |cbs|
  {
    if cbs != [] {
      FirstOfRest(past, cbs);
      NextCallback(u, cbs[0], past + cbs, |past|);
      RunCallbacks(u, cbs[1..], past + [cbs[0]]);
    } else {
      assert past + [] == past;
    }
  }

  /** A whole run, from start-up, of callbacks that keep the contract, with blocks
      `spare` bytes longer than asked for: what is published is what the requests
      publish on their own, in finishing order, and each data block and each
      accumulator is freed once if its request finished, else never. */
  method Serve(cbs: seq<Callback>, spare: nat) returns (u: Unit)
    requires AllWellFormed(cbs) && AllHaveRoom(cbs, spare)
    ensures fresh(u) && u.Valid() && u.Abstract() == Run(cbs)
    ensures u.published == AloneLogs(cbs, FinishOrder(cbs))
    ensures forall r :: u.ledger.freed[r] == if Complete(Own(cbs, r)) then 1 else 0
    ensures forall r :: r in u.ledger.freedData <==> Complete(Own(cbs, r))
    ensures forall r :: r in u.ledger.freedData ==> r in u.conCls && u.ledger.freedData[r] == u.conCls[r].data
    ensures forall r, q :: r in u.ledger.freedData && q in u.ledger.freedData && r != q ==>
      u.ledger.freedData[r] != u.ledger.freedData[q]
    ensures forall r :: u.Live(r) <==> Own(cbs, r) != [] && !Complete(Own(cbs, r))
  {
    RunRefinesIndependent(cbs);
    u := new Unit(spare);
    assert [] + cbs == cbs;
    RunCallbacks(u, cbs, []);
    FreedExactly(u, cbs);
  }

  lemma FreedExactly(u: Unit, cbs: seq<Callback>)
    requires u.Valid() && u.Abstract() == Run(cbs)
    ensures forall r :: u.ledger.freed[r] == if Complete(Own(cbs, r)) then 1 else 0
    ensures forall r :: u.Live(r) <==> Own(cbs, r) != [] && !Complete(Own(cbs, r))
  {
    forall r
      ensures u.ledger.freed[r] == if Complete(Own(cbs, r)) then 1 else 0
      ensures u.Live(r) <==> Own(cbs, r) != [] && !Complete(Own(cbs, r))
    {
      LiveAccumulators(cbs, r);
      if r in u.conCls {
        assert u.Sound(r);
      }
    }
  }
}
