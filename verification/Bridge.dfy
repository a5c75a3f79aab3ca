/** Both directions chained: a message forwarded by an mqtt2rest unit as a POST
    to a rest2mqtt unit, which publishes it again.  The hop between them follows
    RFC 3986: the path ends at `?` or `#`, dot segments are removed by the
    client, percent escapes are decoded by the server. */
module Bridge {
  import opened CStrings
  import opened TopicFilter
  import opened Mqtt2Rest
  import opened Requests
  import IntParsing

  // ----- the hop

  /** The index of the first character of `s` that is in `stops`. */
  function SkipTo(s: string, stops: string): (i: nat)
    ensures i <= |s|
  {
    if s == "" || s[0] in stops then 0 else 1 + SkipTo(s[1..], stops)
  }

  predicate Free(s: string, stops: string) {
    forall i :: 0 <= i < |s| ==> s[i] !in stops
  }

  /** What follows `scheme://host` in a URL. */
  function Target(url: string): string {
    var i := SkipTo(url, ":");
    var rest := if i + 3 <= |url| then url[i + 3..] else "";
    rest[SkipTo(rest, "/?#")..]
  }

  /** The path of `scheme://host/path?query#fragment`; an absent one is `/`. */
  function PathOf(url: string): string {
    var path := Target(url)[..SkipTo(Target(url), "?#")];
    if path == "" then "/" else path
  }

  /** The query in what follows `scheme://host`. */
  function QueryIn(tail: string): Option<string> {
    var i := SkipTo(tail, "?#");
    if i < |tail| && tail[i] == '?'
    then Some(tail[i + 1..][..SkipTo(tail[i + 1..], "#")])
    else None
  }

  /** Section 5.2.4 of RFC 3986, on segments: `out` is what is kept so far. */
  function Undot(segments: seq<string>, out: seq<string>): (r: seq<string>)
    requires out != []
    ensures r != []
  {
    if segments == [] then out
    else
      var more, last := segments[1..], |segments| == 1;
      match segments[0]
      case "." => Undot(more, if last then out + [""] else out)
      case ".." =>
        var popped := if |out| > 1 then out[..|out| - 1] else out;
        Undot(more, if last then popped + [""] else popped)
      case s => Undot(more, out + [s])
  }

  function RemoveDotSegments(path: string): string {
    Join(Undot(Levels(path)[1..], [""]))
  }

  function PercentDecode(s: string): string {
    if s == "" then ""
    else if |s| >= 3 && s[0] == '%' && IntParsing.DigitValue(s[1]) < 16 && IntParsing.DigitValue(s[2]) < 16
    then [(16 * IntParsing.DigitValue(s[1]) + IntParsing.DigitValue(s[2])) as char] + PercentDecode(s[3..])
    else [s[0]] + PercentDecode(s[1..])
  }

  /** The `url` that the request callback gets for a POST to `url`. */
  function RequestUrl(url: string): CString {
    CStr(PercentDecode(RemoveDotSegments(PathOf(url))))
  }

  function Lower(s: string): string {
    seq(|s|, i requires 0 <= i < |s| => if 'A' <= s[i] <= 'Z' then s[i] - 'A' + 'a' else s[i])
  }

  /** Names and values of query arguments: `+` is a space. */
  function DecodeArgument(s: string): CString {
    CStr(PercentDecode(seq(|s|, i requires 0 <= i < |s| => if s[i] == '+' then ' ' else s[i])))
  }

  /** The value of the first argument named `key`, in any case of letters; none
      without a `=`. */
  function Argument(query: string, key: string): Option<CString> {
    var n := SkipTo(query, "&");
    var arg := query[..n];
    var e := SkipTo(arg, "=");
    if Lower(DecodeArgument(arg[..e])) == key then
      if e < |arg| then Some(DecodeArgument(arg[e + 1..])) else None
    else if n < |query| then Argument(query[n + 1..], key)
    else None
  }

  /** The `qos` argument that the final callback looks up. */
  function QosOf(url: string): Option<CString> {
    match QueryIn(Target(url))
    case None => None
    case Some(query) => Argument(query, "qos")
  }

  // ----- paths that the hop leaves alone

  /** Characters that stand for themselves in a path: section 3.3 of RFC 3986
      without percent escapes. */
  predicate PathChar(c: char) {
    || 'a' <= c <= 'z' || 'A' <= c <= 'Z' || '0' <= c <= '9'
    || c == '-' || c == '.' || c == '_' || c == '~'
    || c == '!' || c == '$' || '&' <= c <= ',' || c == ';' || c == '='
    || c == ':' || c == '@' || c == '/'
  }

  predicate PathChars(s: string) {
    forall i :: 0 <= i < |s| ==> PathChar(s[i])
  }

  predicate NoDots(ls: seq<string>) {
    forall i :: 0 <= i < |ls| ==> ls[i] != "." && ls[i] != ".."
  }

  predicate PathSafe(s: string) { PathChars(s) && NoDots(Levels(s)) }

  lemma PathCharsSum(a: string, b: string)
    ensures PathChars(a + b) <==> PathChars(a) && PathChars(b)
  {
    assert forall i :: 0 <= i < |a| ==> (a + b)[i] == a[i];
    assert forall i :: 0 <= i < |b| ==> (a + b)[|a| + i] == b[i];
  }

  lemma {:induction false} SkipOver(a: string, b: string, stops: string)
    requires Free(a, stops) && (b != "" ==> b[0] in stops)
    ensures SkipTo(a + b, stops) == |a|
  {
    if a != "" {
      assert (a + b)[1..] == a[1..] + b;
      SkipOver(a[1..], b, stops);
    }
  }

  lemma TargetOfUrl(scheme: string, host: string, p: string)
    requires Free(scheme, ":") && Free(host, "/?#")
    ensures Target(scheme + "://" + host + "/" + p) == "/" + p
  {
    var url := scheme + "://" + host + "/" + p;
    var rest := host + ("/" + p);
    assert url == scheme + ("://" + rest);
    SkipOver(scheme, "://" + rest, ":");
    assert url[|scheme| + 3..] == rest;
    SkipOver(host, "/" + p, "/?#");
    assert rest[|host|..] == "/" + p;
  }

  lemma PathOfUrl(scheme: string, host: string, p: string)
    requires Free(scheme, ":") && Free(host, "/?#")
    ensures PathOf(scheme + "://" + host + "/" + p) == "/" + p[..SkipTo(p, "?#")]
    ensures SkipTo(p, "?#") == |p| ==> QosOf(scheme + "://" + host + "/" + p).None?
  {
    TargetOfUrl(scheme, host, p);
    SkipAfterSlash(p);
  }

  lemma SkipAfterSlash(p: string)
    ensures SkipTo("/" + p, "?#") == 1 + SkipTo(p, "?#")
    ensures ("/" + p)[..1 + SkipTo(p, "?#")] == "/" + p[..SkipTo(p, "?#")]
  {
    assert ("/" + p)[1..] == p;
  }

  lemma FreeToEnd(p: string, stops: string)
    requires Free(p, stops)
    ensures SkipTo(p, stops) == |p|
  {
    SkipOver(p, "", stops);
    assert p + "" == p;
  }

  lemma {:induction false} UndotPlain(segments: seq<string>, out: seq<string>)
    requires out != [] && NoDots(segments)
    ensures Undot(segments, out) == out + segments
  {
    if segments != [] {
      UndotPlain(segments[1..], out + [segments[0]]);
      assert out + [segments[0]] + segments[1..] == out + segments;
    }
  }

  lemma RemoveDotsPlain(p: string)
    requires NoDots(Levels(p))
    ensures RemoveDotSegments("/" + p) == "/" + p
  {
    var path := "/" + p;
    assert path[1..] == p;
    assert Levels(path) == [""] + Levels(p);
    assert Levels(path)[1..] == Levels(p);
    UndotPlain(Levels(p), [""]);
    JoinOfLevels(path);
  }

  lemma {:induction false} DecodePlain(s: string)
    requires '%' !in s
    ensures PercentDecode(s) == s
  {
    if s != "" {
      DecodePlain(s[1..]);
      assert s == [s[0]] + s[1..];
    }
  }

  lemma HopKeepsPath(scheme: string, host: string, p: string)
    requires Free(scheme, ":") && Free(host, "/?#") && PathSafe(p[..SkipTo(p, "?#")])
    ensures RequestUrl(scheme + "://" + host + "/" + p) == "/" + p[..SkipTo(p, "?#")]
  {
    var path := p[..SkipTo(p, "?#")];
    PathOfUrl(scheme, host, p);
    RemoveDotsPlain(path);
    PathCharsSum("/", path);
    DecodePlain("/" + path);
    CStrUnique("/" + path, "/" + path);
  }

  lemma HopKeepsWhole(scheme: string, host: string, p: string)
    requires Free(scheme, ":") && Free(host, "/?#") && PathSafe(p)
    ensures RequestUrl(scheme + "://" + host + "/" + p) == "/" + p
  {
    FreeToEnd(p, "?#");
    assert p[..|p|] == p;
    HopKeepsPath(scheme, host, p);
  }

  // ----- the hop never lengthens a path

  /** The length of the joined segments, with a slash before each. */
  function Size(ls: seq<string>): nat {
    if ls == [] then 0 else Size(ls[..|ls| - 1]) + 1 + |ls[|ls| - 1]|
  }

  lemma SizeOfNext(ls: seq<string>, l: string)
    ensures Size(ls + [l]) == Size(ls) + 1 + |l|
  {
    assert (ls + [l])[..|ls|] == ls;
  }

  lemma {:induction false} SizeOfSum(a: seq<string>, b: seq<string>)
    ensures Size(a + b) == Size(a) + Size(b)
  {
    if b == [] {
      assert a + b == a;
    } else {
      var k := |b| - 1;
      SizeOfSum(a, b[..k]);
      assert a + b == (a + b[..k]) + [b[k]];
      SizeOfNext(a + b[..k], b[k]);
    }
  }

  lemma {:induction false} JoinLength(ls: seq<string>)
    requires ls != []
    ensures |Join(ls)| + 1 == Size(ls)
  {
    assert ls == [ls[0]] + ls[1..];
    SizeOfSum([ls[0]], ls[1..]);
    SizeOfNext([], ls[0]);
    assert [] + [ls[0]] == [ls[0]];
    if |ls| > 1 {
      JoinLength(ls[1..]);
    }
  }

  lemma {:induction false} UndotShrinks(segments: seq<string>, out: seq<string>)
    requires out != [] && out[0] == ""
    ensures var r := Undot(segments, out);
      Size(r) <= Size(out) + Size(segments) && r[0] == "" && (segments != [] ==> |r| > 1)
    decreases |segments|
  {
    if segments != [] {
      var s, more, last := segments[0], segments[1..], |segments| == 1;
      assert segments == [s] + more;
      SizeOfSum([s], more);
      SizeOfNext([], s);
      assert [] + [s] == [s];
      var popped := if |out| > 1 then out[..|out| - 1] else out;
      SizeOfNext(out, "");
      SizeOfNext(popped, "");
      SizeOfNext(out, s);
      var next := if s == "." then (if last then out + [""] else out)
                  else if s == ".." then (if last then popped + [""] else popped)
                  else out + [s];
      assert Undot(segments, out) == Undot(more, next);
      UndotShrinks(more, next);
      assert last ==> more == [];
    }
  }

  lemma RemoveDotsShrinks(path: string)
    requires path != "" && path[0] == '/'
    ensures var r := RemoveDotSegments(path); 0 < |r| <= |path| && r[0] == '/'
  {
    var ls := Levels(path);
    assert ls == [""] + Levels(path[1..]) && ls[1..] == Levels(path[1..]);
    UndotShrinks(ls[1..], [""]);
    var out := Undot(ls[1..], [""]);
    SizeOfSum([""], ls[1..]);
    JoinLength(ls);
    JoinLength(out);
    JoinOfLevels(path);
  }

  lemma {:induction false} DecodeShrinks(s: string)
    ensures |PercentDecode(s)| <= |s|
    ensures s != "" && s[0] == '/' ==> PercentDecode(s) != "" && PercentDecode(s)[0] == '/'
    decreases |s|
  {
    if s != "" {
      DecodeShrinks(s[1..]);
      if |s| >= 3 {
        DecodeShrinks(s[3..]);
      }
    }
  }

  lemma RequestUrlShrinks(url: string)
    ensures var u := RequestUrl(url); 0 < |u| <= |PathOf(url)| && u[0] == '/'
  {
    PathBeginsWithSlash(url);
    RemoveDotsShrinks(PathOf(url));
    DecodeShrinks(RemoveDotSegments(PathOf(url)));
  }

  lemma PathBeginsWithSlash(url: string)
    ensures PathOf(url) != "" && PathOf(url)[0] == '/'
  {
    var i := SkipTo(url, ":");
    var rest := if i + 3 <= |url| then url[i + 3..] else "";
    SkipStops(rest, "/?#");
  }

  lemma {:induction false} SkipStops(s: string, stops: string)
    ensures SkipTo(s, stops) < |s| ==> s[SkipTo(s, stops)] in stops
  {
    if s != "" && s[0] !in stops {
      SkipStops(s[1..], stops);
    }
  }

  // ----- a POST as a request

  /** The text that a POST carries; a missing payload is an empty body. */
  function Text(p: Post): CString {
    if p.payload.None? then "" else p.payload.value
  }

  ghost predicate IsCut(chunks: seq<string>, text: string) {
    Flatten(chunks) == text && forall i :: 0 <= i < |chunks| ==> chunks[i] != ""
  }

  /** The opening callback and one for each chunk. */
  function Uploading(req: ReqId, url: CString, qos: Option<CString>, chunks: seq<string>): (cbs: seq<Callback>)
    ensures |cbs| == |chunks| + 1
    ensures cbs[0] == Callback(req, "POST", url, "", qos)
    ensures forall i :: 1 <= i <= |chunks| ==> cbs[i] == Callback(req, "POST", url, chunks[i - 1], qos)
  {
    [Callback(req, "POST", url, "", qos)]
    + seq(|chunks|, i requires 0 <= i < |chunks| => Callback(req, "POST", url, chunks[i], qos))
  }

  /** All callbacks of one upload. */
  function Callbacks(req: ReqId, url: CString, qos: Option<CString>, chunks: seq<string>): (cbs: seq<Callback>)
    ensures forall i :: 0 <= i < |cbs| ==> cbs[i].req == req && cbs[i].Posts()
  {
    Uploading(req, url, qos, chunks) + [Callback(req, "POST", url, "", qos)]
  }

  /** The callbacks that a POST causes, its text cut into `chunks`. */
  function CallbacksOf(req: ReqId, p: Post, chunks: seq<string>): seq<Callback> {
    Callbacks(req, RequestUrl(p.url), QosOf(p.url), chunks)
  }

  lemma {:induction false} UploadedBody(req: ReqId, url: CString, qos: Option<CString>, chunks: seq<string>)
    ensures Body(Uploading(req, url, qos, chunks)) == Flatten(chunks)
  {
    if chunks != [] {
      var n := |chunks| - 1;
      var before, last := Uploading(req, url, qos, chunks[..n]), Callback(req, "POST", url, chunks[n], qos);
      UploadedBody(req, url, qos, chunks[..n]);
      assert Uploading(req, url, qos, chunks) == before + [last];
      BodyOfNext(before, last);
    }
  }

  lemma CallbacksWellFormedIff(req: ReqId, url: CString, qos: Option<CString>, chunks: seq<string>)
    requires url != "" && forall i :: 0 <= i < |chunks| ==> chunks[i] != ""
    ensures Complete(Callbacks(req, url, qos, chunks))
    ensures WellFormed(Callbacks(req, url, qos, chunks)) <==> chunks != [] && qos.Some?
  {
    var own := Callbacks(req, url, qos, chunks);
    assert IsFinal(own, |own| - 1);
    forall i | 1 <= i < |own| - 1
      ensures !IsFinal(own, i)
    {
      assert own[i].upload == chunks[i - 1];
    }
  }

  lemma CutEmptyIff(chunks: seq<string>, text: string)
    requires IsCut(chunks, text)
    ensures chunks == [] <==> text == ""
  {
    if chunks != [] {
      assert chunks[|chunks| - 1] != "";
    }
  }

  lemma UploadPublished(req: ReqId, url: CString, qos: Option<CString>, chunks: seq<string>, text: CString)
    requires url != "" && IsCut(chunks, text)
    ensures Run(Callbacks(req, url, qos, chunks)).Running? <==> text != "" && qos.Some?
    ensures text != "" && qos.Some? ==>
      Run(Callbacks(req, url, qos, chunks)).published ==
      [Publish(url[1..], text, IntParsing.ParseInt(qos.value).val)]
  {
    var own := Callbacks(req, url, qos, chunks);
    CallbacksWellFormedIff(req, url, qos, chunks);
    CutEmptyIff(chunks, text);
    AloneFaultIff(own, req);
    if WellFormed(own) {
      AloneRun(own, req);
      UploadedBody(req, url, qos, chunks);
      BodyOfNext(Uploading(req, url, qos, chunks), Callback(req, "POST", url, "", qos));
      assert Body(own) == text + "" == text;
      CStrUnique(text, text);
    }
  }

  /** A forwarded message as a request to a rest2mqtt unit, its text cut into any
      chunks: it is served exactly when the text is not empty and the URL has a
      `qos` argument, and then it is published once, whole, on the decoded path
      without its first character. */
  lemma ChainedRun(req: ReqId, p: Post, chunks: seq<string>)
    requires IsCut(chunks, Text(p))
    ensures Run(CallbacksOf(req, p, chunks)).Running? <==> Text(p) != "" && QosOf(p.url).Some?
    ensures Run(CallbacksOf(req, p, chunks)).Running? ==>
      Run(CallbacksOf(req, p, chunks)).published ==
      [Publish(Republished(p.url), Text(p), IntParsing.ParseInt(QosOf(p.url).value).val)]
  {
    RequestUrlShrinks(p.url);
    UploadPublished(req, RequestUrl(p.url), QosOf(p.url), chunks, Text(p));
  }

  /** The same among any other requests: a run in which a forwarded message is one
      request has no fault only if that message can be served, and then what it
      publishes is in the log. */
  lemma ChainedInAnyRun(cbs: seq<Callback>, req: ReqId, p: Post, chunks: seq<string>)
    requires IsCut(chunks, Text(p)) && Own(cbs, req) == CallbacksOf(req, p, chunks)
    ensures Run(cbs).Running? ==>
      && Text(p) != "" && QosOf(p.url).Some?
      && Publish(Republished(p.url), Text(p), IntParsing.ParseInt(QosOf(p.url).value).val) in Run(cbs).published
  {
    if Run(cbs).Running? {
      var own := Own(cbs, req);
      RequestUrlShrinks(p.url);
      CallbacksWellFormedIff(req, RequestUrl(p.url), QosOf(p.url), chunks);
      CompleteIsPublished(cbs, req);
      AloneRun(own, req);
      ChainedRun(req, p, chunks);
    }
  }

  lemma AloneFaultIff(own: seq<Callback>, r: ReqId)
    requires forall i :: 0 <= i < |own| ==> own[i].req == r && own[i].Posts()
    ensures Run(own).Running? <==> WellFormed(own)
  {
    NoFaultIff(own);
    OwnOfOwn(own, r, r);
    if WellFormed(own) {
      AloneRun(own, r);
    }
  }

  // ----- round trip to the base `authority/T`

  function BaseOf(scheme: CString, host: CString, t: CString): CString {
    scheme + "://" + host + "/" + t
  }

  /** The posted URL of `T/r`, after `authority/`. */
  function PostedPath(t: string, r: string): string {
    if t == "" || EndsInSlash(t) then t + r else t + "/" + r
  }

  lemma PostedUrlOf(scheme: CString, host: CString, t: CString, r: CString)
    requires StaysInside(BaseOf(scheme, host, t), r)
    ensures var base := BaseOf(scheme, host, t);
      var k := Room(base, r);
      && PostedUrl(base, r) == scheme + "://" + host + "/" + PostedPath(t, r[..k])
      && (t != "" && !EndsInSlash(t) ==> k == |r|)
  {
    var base := BaseOf(scheme, host, t);
    var authority := scheme + "://" + host + "/";
    var cut := r[..Room(base, r)];
    assert EndsInSlash(base) <==> t == "" || EndsInSlash(t);
    if EndsInSlash(base) {
      assert base + cut == authority + (t + cut);
    } else {
      assert base + "/" + cut == authority + (t + "/" + cut);
    }
  }

  /** The topic on which a POST to `url` is published. */
  function Republished(url: string): string
  {
    RequestUrlShrinks(url);
    RequestUrl(url)[1..]
  }

  lemma RepublishedShrinks(scheme: string, host: string, p: string)
    requires Free(scheme, ":") && Free(host, "/?#")
    ensures var url := scheme + "://" + host + "/" + p;
      && |Republished(url)| <= |p|
      && (QosOf(url).Some? ==> |Republished(url)| < |p|)
  {
    PathOfUrl(scheme, host, p);
    RequestUrlShrinks(scheme + "://" + host + "/" + p);
  }

  /** A path-safe topic that stays inside the buffer comes back as itself exactly
      when `T` is not empty and does not end in a slash; otherwise the base URL
      already ends in a slash, and the one between `T` and the rest is lost. */
  lemma TopicRoundTripIff(scheme: CString, host: CString, t: CString, r: CString)
    requires Free(scheme, ":") && Free(host, "/?#") && PathSafe(t + "/" + r)
    requires StaysInside(BaseOf(scheme, host, t), r)
    ensures Republished(PostedUrl(BaseOf(scheme, host, t), r)) == t + "/" + r
            <==> t != "" && !EndsInSlash(t)
  {
    var cut := r[..Room(BaseOf(scheme, host, t), r)];
    PostedUrlOf(scheme, host, t, r);
    RepublishedShrinks(scheme, host, PostedPath(t, cut));
    if t != "" && !EndsInSlash(t) {
      assert cut == r;
      HopKeepsWhole(scheme, host, t + "/" + r);
    }
  }

  /** But no message returns on its own topic: a forwarded message of any topic
      that is served at all is published on a shorter one. */
  lemma NoMessageReturns(scheme: CString, host: CString, t: CString, r: CString,
                         msg: Option<string>, req: ReqId, chunks: seq<string>)
    requires Free(scheme, ":") && Free(host, "/?#")
    requires StaysInside(BaseOf(scheme, host, t), r)
    requires IsCut(chunks, Text(PostOf(BaseOf(scheme, host, t), r, msg)))
    ensures var s := Run(CallbacksOf(req, PostOf(BaseOf(scheme, host, t), r, msg), chunks));
      s.Running? ==> |s.published| == 1 && |s.published[0].topic| < |t + "/" + r|
  {
    var base := BaseOf(scheme, host, t);
    ChainedRun(req, PostOf(base, r, msg), chunks);
    PostedUrlOf(scheme, host, t, r);
    RepublishedShrinks(scheme, host, PostedPath(t, r[..Room(base, r)]));
  }

  /** A topic of path characters leaves no query: its message is never served. */
  lemma PathSafeNeverServed(scheme: CString, host: CString, t: CString, r: CString,
                            msg: Option<string>, req: ReqId, chunks: seq<string>)
    requires Free(scheme, ":") && Free(host, "/?#") && PathChars(t + "/" + r)
    requires StaysInside(BaseOf(scheme, host, t), r)
    requires IsCut(chunks, Text(PostOf(BaseOf(scheme, host, t), r, msg)))
    ensures Run(CallbacksOf(req, PostOf(BaseOf(scheme, host, t), r, msg), chunks)).Fault?
  {
    var base := BaseOf(scheme, host, t);
    ChainedRun(req, PostOf(base, r, msg), chunks);
    PostedUrlOf(scheme, host, t, r);
    PostedPathChars(t, r, Room(base, r));
    FreeToEnd(PostedPath(t, r[..Room(base, r)]), "?#");
    PathOfUrl(scheme, host, PostedPath(t, r[..Room(base, r)]));
  }

  lemma PostedPathChars(t: string, r: string, k: nat)
    requires PathChars(t + "/" + r) && k <= |r|
    ensures PathChars(PostedPath(t, r[..k])) && Free(PostedPath(t, r[..k]), "?#")
  {
    PathCharsSum(t + "/", r);
    PathCharsSum(t, "/");
    assert r == r[..k] + r[k..];
    PathCharsSum(r[..k], r[k..]);
    PathCharsSum(t, r[..k]);
    PathCharsSum(t + "/", r[..k]);
  }

  // ----- the topics that are served

  lemma DecodeArgumentPlain(s: CString)
    requires Free(s, "%+")
    ensures DecodeArgument(s) == s
  {
    assert seq(|s|, i requires 0 <= i < |s| => if s[i] == '+' then ' ' else s[i]) == s;
    DecodePlain(s);
    CStrUnique(s, s);
  }

  lemma KeyOfQos(key: CString)
    requires key == "qos"
    ensures Lower(DecodeArgument(key)) == key
  {
    DecodeArgumentPlain(key);
  }

  lemma SplitOfQos(key: string, text: CString, more: string)
    requires key == "qos" && Free(text, "&") && (more != "" ==> more[0] == '&')
    ensures var arg := key + ("=" + text);
      && SkipTo(arg + more, "&") == |arg| && SkipTo(arg, "=") == |key|
      && (arg + more)[..|arg|] == arg && arg[..|key|] == key && arg[|key| + 1..] == text
  {
    SkipOver(key + ("=" + text), more, "&");
    SkipOver(key, "=" + text, "=");
  }

  lemma FirstArgument(key: CString, text: CString, more: string)
    requires key == "qos" && Free(text, "&%+") && (more != "" ==> more[0] == '&')
    ensures Argument(key + ("=" + text) + more, key) == Some(text)
  {
    SplitOfQos(key, text, more);
    KeyOfQos(key);
    DecodeArgumentPlain(text);
  }

  lemma KeyThenEquals(text: string)
    ensures "qos=" + text == "qos" + ("=" + text)
  {}

  /** A query that starts with a `qos` argument. */
  lemma ArgumentOfQos(text: CString, more: string)
    requires Free(text, "&%+") && (more != "" ==> more[0] == '&')
    ensures Argument("qos=" + text + more, "qos") == Some(text)
  {
    KeyThenEquals(text);
    FirstArgument("qos", text, more);
  }

  lemma QueryAfterPath(path: string, query: string)
    requires Free(path, "?#") && Free(query, "#")
    ensures QueryIn(path + ("?" + query)) == Some(query)
    ensures SkipTo(path + ("?" + query), "?#") == |path|
  {
    var tail := path + ("?" + query);
    SkipOver(path, "?" + query, "?#");
    assert tail[|path| + 1..] == query;
    FreeToEnd(query, "#");
    assert query[..|query|] == query;
  }

  /** A path with a `qos` argument. */
  function WithQos(path: string, text: string): string { path + ("?" + ("qos=" + text)) }

  lemma QosOfQuery(scheme: string, host: string, path: string, text: CString)
    requires Free(scheme, ":") && Free(host, "/?#")
    requires Free(path, "?#") && Free(text, "&#%+")
    ensures QosOf(scheme + "://" + host + "/" + WithQos(path, text)) == Some(text)
  {
    QosOfUrl(scheme, host, path, "qos=" + text);
    ArgumentOfQos(text, "");
    assert "qos=" + text + "" == "qos=" + text;
  }

  lemma PathBeforeQos(scheme: string, host: string, path: string, text: CString)
    requires Free(scheme, ":") && Free(host, "/?#")
    requires PathSafe(path) && Free(text, "&#%+")
    ensures RequestUrl(scheme + "://" + host + "/" + WithQos(path, text)) == "/" + path
  {
    var p := WithQos(path, text);
    QueryAfterPath(path, "qos=" + text);
    assert p[..|path|] == path;
    HopKeepsPath(scheme, host, p);
  }

  lemma DecimalIsPlain(level: int)
    ensures Free(IntParsing.Decimal(level), "&#%+") && NulFree(IntParsing.Decimal(level))
  {
    var digits := IntParsing.Digits(IntParsing.Abs(level), 10);
    IntParsing.DigitsRead(IntParsing.Abs(level), 10);
    assert forall i :: 0 <= i < |digits| ==> IntParsing.DigitValue(digits[i]) < 10;
    assert forall i :: 0 <= i < |digits| ==> '0' <= digits[i] <= '9';
  }

  lemma UrlWithQos(scheme: CString, host: CString, t: CString, r: CString, text: CString)
    requires t != "" && !EndsInSlash(t)
    requires StaysInside(BaseOf(scheme, host, t), WithQos(r, text))
    ensures PostedUrl(BaseOf(scheme, host, t), WithQos(r, text))
            == scheme + "://" + host + "/" + WithQos(t + "/" + r, text)
  {
    WithQosAfter(t + "/", r, text);
    PostedUrlOf(scheme, host, t, WithQos(r, text));
    WholePrefix(WithQos(r, text));
  }

  lemma WholePrefix(s: string)
    ensures s[..|s|] == s
  {}

  lemma WithQosAfter(a: string, r: string, text: string)
    ensures a + WithQos(r, text) == WithQos(a + r, text)
  {}

  /** The remainder of a topic that asks for a level. */
  function QosRemainder(r: CString, level: int): CString {
    DecimalIsPlain(level);
    WithQos(r, IntParsing.Decimal(level))
  }

  /** The way to have a message served: a topic that ends in `?qos=` and a level
      is published again without that ending, at that level, with its text. */
  lemma QosTopicServed(scheme: CString, host: CString, t: CString, r: CString, level: int,
                       msg: string, req: ReqId, chunks: seq<string>)
    requires Free(scheme, ":") && Free(host, "/?#") && PathSafe(t + "/" + r)
    requires t != "" && !EndsInSlash(t) && CStr(msg) != ""
    requires IntParsing.INT_MIN <= level <= IntParsing.INT_MAX
    requires StaysInside(BaseOf(scheme, host, t), QosRemainder(r, level))
    requires IsCut(chunks, CStr(msg))
    ensures var p := PostOf(BaseOf(scheme, host, t), QosRemainder(r, level), Some(msg));
      && Run(CallbacksOf(req, p, chunks)).Running?
      && Run(CallbacksOf(req, p, chunks)).published == [Publish(t + "/" + r, CStr(msg), level)]
  {
    var text := IntParsing.Decimal(level);
    var path := t + "/" + r;
    DecimalIsPlain(level);
    UrlWithQos(scheme, host, t, r, text);
    QosOfQuery(scheme, host, path, text);
    PathBeforeQos(scheme, host, path, text);
    IntParsing.PrintedIsParsed(level);
    ChainedRun(req, PostOf(BaseOf(scheme, host, t), QosRemainder(r, level), Some(msg)), chunks);
    assert ("/" + path)[1..] == path;
  }

  // ----- other bases

  /** For any base, when a forwarded message returns on its own topic. */
  lemma MessageReturnsIff(base: CString, topic: string, rem: CString,
                          msg: Option<string>, req: ReqId, chunks: seq<string>)
    requires StaysInside(base, rem) && IsCut(chunks, Text(PostOf(base, rem, msg)))
    ensures var p := PostOf(base, rem, msg);
      var s := Run(CallbacksOf(req, p, chunks));
      (s.Running? && exists m :: m in s.published && m.topic == topic)
      <==> Text(p) != "" && QosOf(p.url).Some? && Republished(p.url) == topic
  {
    var p := PostOf(base, rem, msg);
    ChainedRun(req, p, chunks);
    var s := Run(CallbacksOf(req, p, chunks));
    if s.Running? {
      assert s.published[0] in s.published && s.published[0].topic == Republished(p.url);
    }
  }

  /** A base that already has a query. */
  function QueryBase(scheme: CString, host: CString, path: CString, query: CString): CString {
    scheme + "://" + host + "/" + (path + ("?" + query))
  }

  lemma PathBeforeQuery(scheme: string, host: string, path: string, query: string)
    requires Free(scheme, ":") && Free(host, "/?#") && Free(path, "?#")
    ensures PathOf(scheme + "://" + host + "/" + (path + ("?" + query))) == "/" + path
  {
    var p := path + ("?" + query);
    PathOfUrl(scheme, host, p);
    SkipOver(path, "?" + query, "?#");
    assert p[..|path|] == path;
  }

  lemma PostedToQueryBase(scheme: CString, host: CString, path: CString, query: CString, rem: CString)
    requires StaysInside(QueryBase(scheme, host, path, query), rem)
    ensures var base := QueryBase(scheme, host, path, query);
      var tail := (if EndsInSlash(base) then "" else "/") + rem[..Room(base, rem)];
      PostedUrl(base, rem) == scheme + "://" + host + "/" + (path + ("?" + (query + tail)))
  {
    var base := QueryBase(scheme, host, path, query);
    var cut := rem[..Room(base, rem)];
    var tail := (if EndsInSlash(base) then "" else "/") + cut;
    assert PostedUrl(base, rem) == base + tail;
    QueryExtended(scheme + "://" + host + "/", path, query, tail);
  }

  lemma QueryExtended(front: string, path: string, query: string, tail: string)
    ensures front + (path + ("?" + query)) + tail == front + (path + ("?" + (query + tail)))
  {}

  /** With such a base every topic is published again on one topic, that of the
      base; so a message returns exactly when its own topic is that one. */
  lemma QueryBaseFixesTopic(scheme: CString, host: CString, path: CString, query: CString, rem: CString)
    requires Free(scheme, ":") && Free(host, "/?#") && Free(path, "?#")
    requires StaysInside(QueryBase(scheme, host, path, query), rem)
    ensures var base := QueryBase(scheme, host, path, query);
      Republished(PostedUrl(base, rem)) == Republished(base)
  {
    var base := QueryBase(scheme, host, path, query);
    var tail := (if EndsInSlash(base) then "" else "/") + rem[..Room(base, rem)];
    PostedToQueryBase(scheme, host, path, query, rem);
    PathBeforeQuery(scheme, host, path, query);
    PathBeforeQuery(scheme, host, path, query + tail);
  }

  /** The query of a base that makes the messages of one topic return. */
  function ReturnQuery(level: int): CString {
    DecimalIsPlain(level);
    "qos=" + IntParsing.Decimal(level) + "&"
  }

  lemma QosOfUrl(scheme: string, host: string, path: string, query: string)
    requires Free(scheme, ":") && Free(host, "/?#") && Free(path, "?#") && Free(query, "#")
    ensures QosOf(scheme + "://" + host + "/" + (path + ("?" + query))) == Argument(query, "qos")
  {
    TargetOfUrl(scheme, host, path + ("?" + query));
    assert "/" + (path + ("?" + query)) == ("/" + path) + ("?" + query);
    QueryAfterPath("/" + path, query);
  }

  lemma FreeSum(a: string, b: string, stops: string)
    requires Free(a, stops) && Free(b, stops)
    ensures Free(a + b, stops)
  {}

  lemma ReturnQueryFree(level: int)
    ensures Free(ReturnQuery(level), "#")
  {
    var text := IntParsing.Decimal(level);
    DecimalIsPlain(level);
    assert Free(text, "#");
    FreeSum("qos=", text, "#");
    FreeSum("qos=" + text, "&", "#");
  }

  lemma ReturnQueryHasQos(level: int, tail: string)
    requires Free(tail, "#")
    ensures Free(ReturnQuery(level) + tail, "#")
    ensures Argument(ReturnQuery(level) + tail, "qos") == Some(IntParsing.Decimal(level))
  {
    var text := IntParsing.Decimal(level);
    DecimalIsPlain(level);
    assert ReturnQuery(level) + tail == "qos=" + text + ("&" + tail);
    ArgumentOfQos(text, "&" + tail);
    ReturnQueryFree(level);
    FreeSum(ReturnQuery(level), tail, "#");
  }

  lemma QosOfReturn(scheme: CString, host: CString, path: CString, level: int, rem: CString)
    requires Free(scheme, ":") && Free(host, "/?#") && Free(path, "?#") && Free(rem, "#")
    requires StaysInside(QueryBase(scheme, host, path, ReturnQuery(level)), rem)
    ensures NulFree(IntParsing.Decimal(level))
    ensures QosOf(PostedUrl(QueryBase(scheme, host, path, ReturnQuery(level)), rem)) == Some(IntParsing.Decimal(level))
  {
    var base := QueryBase(scheme, host, path, ReturnQuery(level));
    var tail := (if EndsInSlash(base) then "" else "/") + rem[..Room(base, rem)];
    PostedToQueryBase(scheme, host, path, ReturnQuery(level), rem);
    ReturnQueryHasQos(level, tail);
    QosOfUrl(scheme, host, path, ReturnQuery(level) + tail);
    DecimalIsPlain(level);
  }

  /** For every path-safe topic there is a base with which its messages return. */
  lemma MessageReturns(scheme: CString, host: CString, t: CString, r: CString, level: int,
                       msg: string, req: ReqId, chunks: seq<string>)
    requires Free(scheme, ":") && Free(host, "/?#") && PathSafe(t + "/" + r)
    requires IntParsing.INT_MIN <= level <= IntParsing.INT_MAX
    requires CStr(msg) != "" && IsCut(chunks, CStr(msg))
    requires StaysInside(QueryBase(scheme, host, t + "/" + r, ReturnQuery(level)), r)
    ensures var p := PostOf(QueryBase(scheme, host, t + "/" + r, ReturnQuery(level)), r, Some(msg));
      && Run(CallbacksOf(req, p, chunks)).Running?
      && Run(CallbacksOf(req, p, chunks)).published == [Publish(t + "/" + r, CStr(msg), level)]
  {
    var path := t + "/" + r;
    var base := QueryBase(scheme, host, path, ReturnQuery(level));
    PathCharsSum(t + "/", r);
    QosOfReturn(scheme, host, path, level, r);
    QueryBaseFixesTopic(scheme, host, path, ReturnQuery(level), r);
    ReturnPath(scheme, host, path, ReturnQuery(level));
    IntParsing.PrintedIsParsed(level);
    ChainedRun(req, PostOf(base, r, Some(msg)), chunks);
  }

  lemma ReturnPath(scheme: CString, host: CString, path: CString, query: CString)
    requires Free(scheme, ":") && Free(host, "/?#") && PathSafe(path)
    ensures Republished(QueryBase(scheme, host, path, query)) == path
  {
    var p := path + ("?" + query);
    SkipOver(path, "?" + query, "?#");
    assert p[..|path|] == path;
    HopKeepsPath(scheme, host, p);
    assert ("/" + path)[1..] == path;
  }
}
