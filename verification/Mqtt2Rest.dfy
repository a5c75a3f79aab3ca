/** From a delivered MQTT message to the POST it becomes: the URL joined in a
    fixed buffer by `rest_post`, and the topic chop of `on_mqtt_msg`. */
module Mqtt2Rest {
  import opened CStrings
  import opened TopicFilter

  const URL_MAX_SIZE := 2048

  /** An `int` used as a `size_t` of 64 bits. */
  function SizeT(n: int): nat
    requires -0x8000_0000 <= n
  {
    if n < 0 then n + 0x1_0000_0000_0000_0000 else n
  }

  predicate EndsInSlash(s: string) { s != "" && s[|s| - 1] == '/' }

  /** The steps on the buffer, whose bytes are arbitrary before them; `None`
      when a step touches a byte outside it. */
  function JoinSteps(init: string, base: CString, rem: CString): (r: Option<string>)
    requires |init| == URL_MAX_SIZE && |base| < 0x8000_0000
    ensures r.Some? ==> |r.value| == URL_MAX_SIZE
  {
    var len := |base|;
    var copied := Strncpy(init, base, URL_MAX_SIZE - 1);
    if !(0 <= len - 1 < URL_MAX_SIZE) then None
    else if copied[len - 1] == '/' then Strncat(copied, 0, rem, SizeT(URL_MAX_SIZE - len - 1))
    else if len + 1 < URL_MAX_SIZE then
      Strncat(copied[len := '/'][len + 1 := NUL], 0, rem, SizeT(URL_MAX_SIZE - len - 1))
    else None
  }

  /** The same steps in place. */
  method JoinUrl(fullUrl: array<char>, base: CString, rem: CString)
    requires fullUrl.Length == URL_MAX_SIZE && |base| < 0x8000_0000
    requires JoinSteps(fullUrl[..], base, rem).Some?
    modifies fullUrl
    ensures fullUrl[..] == JoinSteps(old(fullUrl[..]), base, rem).value
  {
    var len := |base|;
    StrncpyInto(fullUrl, base, URL_MAX_SIZE - 1);
    ghost var copied := fullUrl[..];
    assert copied[len - 1] == fullUrl[len - 1];
    if fullUrl[len - 1] != '/' {
      fullUrl[len] := '/';
      fullUrl[len + 1] := NUL;
      assert fullUrl[..] == copied[len := '/'][len + 1 := NUL];
    }
    StrncatAt(fullUrl, 0, rem, SizeT(URL_MAX_SIZE - len - 1));
  }

  /** The base with its slash. */
  function Stem(base: string): string { if EndsInSlash(base) then base else base + "/" }

  /** The URL that is meant. */
  function WholeUrl(base: string, rem: string): string { Stem(base) + rem }

  /** What the buffer can take.  A base of 2047 characters is too long even when
      nothing follows it, because its copy is left without a terminator. */
  predicate Fits(base: string, rem: string) {
    0 < |base| <= URL_MAX_SIZE - 2 && |WholeUrl(base, rem)| <= URL_MAX_SIZE - 1
  }

  /** The most characters that strncat is allowed to append. */
  function Limit(base: string): nat
    requires |base| < URL_MAX_SIZE
  {
    URL_MAX_SIZE - |base| - 1
  }

  /** How many of the remainder's characters are appended. */
  function Room(base: string, rem: string): nat
    requires |base| < URL_MAX_SIZE
  {
    Min(Limit(base), |rem|)
  }

  /** The URL that is posted: the remainder may be cut. */
  function PostedUrl(base: string, rem: string): string
    requires |base| < URL_MAX_SIZE
  {
    Stem(base) + rem[..Room(base, rem)]
  }

  /** The limit given to strncat does not count the slash, so this is not implied
      by the limit. */
  predicate StaysInside(base: string, rem: string) {
    0 < |base| <= URL_MAX_SIZE - 2 && |Stem(base)| + Room(base, rem) < URL_MAX_SIZE
  }

  /** The two conditions in numbers: a slash is added unless the base ends in one. */
  lemma UrlLimits(base: string, rem: string)
    requires base != ""
    ensures var slash := if base[|base| - 1] == '/' then 0 else 1;
      && (Fits(base, rem) <==> |base| <= 2046 && |base| + slash + |rem| <= 2047)
      && (StaysInside(base, rem) <==> |base| <= 2046 && (|base| + slash + |rem| <= 2047 || slash == 0))
  {}

  /** Before the append the buffer reads as the base and its slash. */
  lemma BaseInBuffer(init: string, base: CString)
    requires |init| == URL_MAX_SIZE && 0 < |base| <= URL_MAX_SIZE - 2
    ensures var copied := Strncpy(init, base, URL_MAX_SIZE - 1);
      && copied[|base| - 1] == base[|base| - 1]
      && (EndsInSlash(base) ==> CStr(copied) == base)
      && (!EndsInSlash(base) ==> CStr(copied[|base| := '/'][|base| + 1 := NUL]) == base + "/")
  {
    var copied := Strncpy(init, base, URL_MAX_SIZE - 1);
    assert base[..|base|] == base;
    assert copied[..|base|] == base && copied[|base|] == NUL;
    if EndsInSlash(base) {
      CStrUnique(copied, base);
    } else {
      var slashed := copied[|base| := '/'][|base| + 1 := NUL];
      assert slashed[..|base| + 1] == base + "/";
      CStrUnique(slashed, base + "/");
    }
  }

  lemma JoinOfShortBase(init: string, base: CString, rem: CString)
    requires |init| == URL_MAX_SIZE && 0 < |base| <= URL_MAX_SIZE - 2
    ensures JoinSteps(init, base, rem).Some? <==> StaysInside(base, rem)
    ensures StaysInside(base, rem) ==>
      CStr(JoinSteps(init, base, rem).value) == PostedUrl(base, rem)
  {
    BaseInBuffer(init, base);
    var copied := Strncpy(init, base, URL_MAX_SIZE - 1);
    var ready := if EndsInSlash(base) then copied else copied[|base| := '/'][|base| + 1 := NUL];
    var n := URL_MAX_SIZE - |base| - 1;
    assert JoinSteps(init, base, rem) == Strncat(ready, 0, rem, n);
    assert CStr(rem) == rem by { CStrUnique(rem, rem); }
    assert CStr(ready) == Stem(base);
    assert ready[0..] == ready;
    if Strncat(ready, 0, rem, n).Some? {
      StrncatAppends(ready, rem, n);
    }
  }

  /** Whenever it fits, every access is inside the buffer and the buffer reads
      as the whole URL, whatever it held before. */
  lemma JoinIsWhole(init: string, base: CString, rem: CString)
    requires |init| == URL_MAX_SIZE && Fits(base, rem)
    ensures JoinSteps(init, base, rem).Some?
    ensures CStr(JoinSteps(init, base, rem).value) == WholeUrl(base, rem)
  {
    JoinOfShortBase(init, base, rem);
    assert rem[..|rem|] == rem;
  }

  /** With a longer base some initial buffer leads outside. */
  lemma LongBaseLeavesBuffer(init: string, base: CString, rem: CString)
    requires |init| == URL_MAX_SIZE && NulFree(init)
    requires URL_MAX_SIZE - 1 <= |base| < 0x8000_0000
    ensures JoinSteps(init, base, rem).None?
  {}

  ghost predicate IsWhole(init: string, base: CString, rem: CString)
    requires |init| == URL_MAX_SIZE && |base| < 0x8000_0000
  {
    var r := JoinSteps(init, base, rem);
    r.Some? && CStr(r.value) == WholeUrl(base, rem)
  }

  lemma NotWhole(init: string, base: CString, rem: CString)
    requires |init| == URL_MAX_SIZE && NulFree(init)
    requires |base| < 0x8000_0000 && !Fits(base, rem)
    ensures !IsWhole(init, base, rem)
  {
    if |base| >= URL_MAX_SIZE - 1 {
      LongBaseLeavesBuffer(init, base, rem);
    } else if base != "" {
      JoinOfShortBase(init, base, rem);
    }
  }

  /** Exactly when every access is inside for every initial buffer. */
  lemma AlwaysInsideIff(base: CString, rem: CString)
    requires |base| < 0x8000_0000
    ensures (forall init: string | |init| == URL_MAX_SIZE :: JoinSteps(init, base, rem).Some?)
            <==> StaysInside(base, rem)
  {
    if 0 < |base| <= URL_MAX_SIZE - 2 {
      forall init: string | |init| == URL_MAX_SIZE
        ensures JoinSteps(init, base, rem).Some? <==> StaysInside(base, rem)
      {
        JoinOfShortBase(init, base, rem);
      }
      assert |seq(URL_MAX_SIZE, _ => 'a')| == URL_MAX_SIZE;
    } else {
      var init := seq(URL_MAX_SIZE, _ => 'a');
      if base != "" {
        LongBaseLeavesBuffer(init, base, rem);
      }
      assert JoinSteps(init, base, rem).None?;
    }
  }

  /** Exactly when the join is right for every initial content of the buffer. */
  lemma AlwaysWholeIff(base: CString, rem: CString)
    requires |base| < 0x8000_0000
    ensures (forall init: string | |init| == URL_MAX_SIZE :: IsWhole(init, base, rem)) <==> Fits(base, rem)
  {
    if Fits(base, rem) {
      forall init: string | |init| == URL_MAX_SIZE
        ensures IsWhole(init, base, rem)
      {
        JoinIsWhole(init, base, rem);
      }
    } else {
      var init := seq(URL_MAX_SIZE, _ => 'a');
      NotWhole(init, base, rem);
    }
  }

  /** A URL of 2047 characters need not fit: this one is all base. */
  lemma FullLengthBaseFails()
    ensures exists base: CString ::
              && |WholeUrl(base, "")| == URL_MAX_SIZE - 1
              && !(forall init: string | |init| == URL_MAX_SIZE :: IsWhole(init, base, ""))
  {
    var base := seq(URL_MAX_SIZE - 1, i => if i == URL_MAX_SIZE - 2 then '/' else 'a');
    assert NulFree(base);
    assert |WholeUrl(base, "")| == URL_MAX_SIZE - 1;
    AlwaysWholeIff(base, "");
  }

  // ----- one message

  /** One POST: the payload is read as a C string, and may be missing. */
  datatype Post = Post(url: CString, payload: Option<CString>)

  /** The remainder of a topic longer than `T`. */
  function Rest(t: string, topic: string): string
    requires |t| < |topic|
  {
    topic[|t| + 1..]
  }

  /** The POST made of a message with remainder `rem`. */
  function PostOf(base: CString, rem: CString, msg: Option<string>): (p: Post)
    requires StaysInside(base, rem)
  {
    Post(PostedUrl(base, rem), if msg.None? then None else Some(CStr(msg.value)))
  }

  /** The callback, wherever the code stays inside the topic and the buffer. */
  method OnMqttMsg(t: CString, base: CString, topic: CString, msg: Option<string>) returns (p: Post)
    requires |t| < |topic| && StaysInside(base, Rest(t, topic))
    ensures p == PostOf(base, Rest(t, topic), msg)
    ensures Fits(base, Rest(t, topic)) <==> p.url == WholeUrl(base, Rest(t, topic))
    ensures |p.url| <= 2047
    ensures p.payload.Some? <==> msg.Some?
    ensures msg.Some? ==> p.payload.value <= msg.value
    ensures msg.Some? && |p.payload.value| < |msg.value| ==> msg.value[|p.payload.value|] == '\0'
    ensures NoWildcard(t) && Matches(t + "/#", topic) ==> topic == t + "/" + Rest(t, topic)
  {
    if NoWildcard(t) && Matches(t + "/#", topic) {
      ChopOfDelivered(t, topic);
    }
    var url: CString := topic[|t| + 1..];
    var fullUrl := new char[URL_MAX_SIZE];
    JoinOfShortBase(fullUrl[..], base, url);
    JoinUrl(fullUrl, base, url);
    assert url[..|url|] == url;
    var text := ReadString(fullUrl);
    p := Post(text, if msg.None? then None else Some(CStr(msg.value)));
  }

  // ----- which topics share a URL

  /** Both remainders reach the limit and agree up to it. */
  predicate CutAlike(base: string, r1: string, r2: string)
    requires |base| < URL_MAX_SIZE
  {
    var n := Limit(base);
    |r1| >= n && |r2| >= n && r1[..n] == r2[..n]
  }

  lemma PostedEqualIff(base: string, r1: string, r2: string)
    requires StaysInside(base, r1) && StaysInside(base, r2)
    ensures PostedUrl(base, r1) == PostedUrl(base, r2) <==> r1 == r2 || CutAlike(base, r1, r2)
  {
    var stem, k1, k2 := Stem(base), Room(base, r1), Room(base, r2);
    assert (stem + r1[..k1])[|stem|..] == r1[..k1];
    assert (stem + r2[..k2])[|stem|..] == r2[..k2];
    assert r1[..|r1|] == r1 && r2[..|r2|] == r2;
  }

  /** Two delivered topics of a unit are posted to one URL exactly when they are
      the same topic or both are cut, at the same text. */
  lemma TopicsMeetIff(t: string, base: string, topic1: string, topic2: string)
    requires NoWildcard(t) && Matches(t + "/#", topic1) && Matches(t + "/#", topic2)
    requires |t| < |topic1| && StaysInside(base, Rest(t, topic1))
    requires |t| < |topic2| && StaysInside(base, Rest(t, topic2))
    ensures PostedUrl(base, Rest(t, topic1)) == PostedUrl(base, Rest(t, topic2))
            <==> topic1 == topic2 || CutAlike(base, Rest(t, topic1), Rest(t, topic2))
  {
    ChopOfDelivered(t, topic1);
    ChopOfDelivered(t, topic2);
    PostedEqualIff(base, Rest(t, topic1), Rest(t, topic2));
  }

  /** Topics whose URLs fit never meet. */
  lemma ForwardInjective(t: string, base: string, topic1: string, topic2: string)
    requires NoWildcard(t) && Matches(t + "/#", topic1) && Matches(t + "/#", topic2)
    requires |t| < |topic1| && Fits(base, Rest(t, topic1))
    requires |t| < |topic2| && Fits(base, Rest(t, topic2))
    ensures PostedUrl(base, Rest(t, topic1)) == PostedUrl(base, Rest(t, topic2)) ==> topic1 == topic2
  {
    TopicsMeetIff(t, base, topic1, topic2);
    var r1, r2 := Rest(t, topic1), Rest(t, topic2);
    ChopOfDelivered(t, topic1);
    ChopOfDelivered(t, topic2);
    assert r1 == r1[..|r1|] && r2 == r2[..|r2|];
  }

  /** They do meet for every `T` and every base that ends in a slash: topics
      that differ only after the limit. */
  lemma TopicsMeet(t: CString, base: CString, body: CString, c: char, d: char)
    requires NoWildcard(t) && EndsInSlash(base) && |base| <= URL_MAX_SIZE - 2
    requires |body| == Limit(base) && c != d
    ensures var topic1, topic2 := t + "/" + body + [c], t + "/" + body + [d];
      && topic1 != topic2 && Matches(t + "/#", topic1) && Matches(t + "/#", topic2)
      && StaysInside(base, Rest(t, topic1)) && StaysInside(base, Rest(t, topic2))
      && PostedUrl(base, Rest(t, topic1)) == PostedUrl(base, Rest(t, topic2))
  {
    var topic1, topic2 := t + "/" + body + [c], t + "/" + body + [d];
    assert topic1[|topic1| - 1] == c && topic2[|topic2| - 1] == d;
    assert t + "/" <= topic1 && t + "/" <= topic2;
    FilterIsPrefixTest(t, topic1);
    FilterIsPrefixTest(t, topic2);
    assert Rest(t, topic1) == body + [c] && Rest(t, topic2) == body + [d];
    assert (body + [c])[..|body|] == body && (body + [d])[..|body|] == body;
    PostedEqualIff(base, body + [c], body + [d]);
  }
}
