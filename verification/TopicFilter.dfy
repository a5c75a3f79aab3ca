/** The subscription of an mqtt2rest unit: the filter built by
    `mqtt_cb_connect`, and which topics the broker delivers under it
    (section 4.7 of MQTT Version 3.1.1). */
module TopicFilter {
  import opened CStrings

  // ----- levels

  /** The levels of a topic or filter: its parts between slashes. */
  function Levels(s: string): (ls: seq<string>)
    ensures ls != []
  {
    if s == "" then [""] else WithChar(s[0], Levels(s[1..]))
  }

  /** The levels with one character before them. */
  function WithChar(c: char, ls: seq<string>): (r: seq<string>)
    requires ls != []
    ensures r != []
  {
    if c == '/' then [""] + ls else [[c] + ls[0]] + ls[1..]
  }

  function Join(levels: seq<string>): string
    requires levels != []
  {
    if |levels| == 1 then levels[0] else levels[0] + "/" + Join(levels[1..])
  }

  lemma JoinAfterChar(c: char, ls: seq<string>)
    requires ls != []
    ensures Join([[c] + ls[0]] + ls[1..]) == [c] + Join(ls)
  {}

  lemma {:induction false} JoinOfLevels(s: string)
    ensures Join(Levels(s)) == s
  {
    if s != "" {
      var rest := Levels(s[1..]);
      JoinOfLevels(s[1..]);
      if s[0] == '/' {
        assert Levels(s)[1..] == rest;
      } else {
        JoinAfterChar(s[0], rest);
      }
    }
  }

  lemma WithCharOfSum(c: char, a: seq<string>, b: seq<string>)
    requires a != []
    ensures WithChar(c, a + b) == WithChar(c, a) + b
  {
    assert (a + b)[0] == a[0] && (a + b)[1..] == a[1..] + b;
  }

  lemma {:induction false} LevelsOfSlash(a: string, b: string)
    ensures Levels(a + "/" + b) == Levels(a) + Levels(b)
  {
    var s := a + "/" + b;
    if a == "" {
      assert s[1..] == b;
    } else {
      assert s[0] == a[0] && s[1..] == a[1..] + "/" + b;
      LevelsOfSlash(a[1..], b);
      WithCharOfSum(a[0], Levels(a[1..]), Levels(b));
    }
  }

  lemma {:induction false} JoinOfSum(a: seq<string>, b: seq<string>)
    requires a != [] && b != []
    ensures Join(a + b) == Join(a) + "/" + Join(b)
  {
    if |a| == 1 {
      assert (a + b)[1..] == b;
    } else {
      assert (a + b)[1..] == a[1..] + b;
      JoinOfSum(a[1..], b);
      assert Join(a + b) == a[0] + "/" + (Join(a[1..]) + "/" + Join(b));
    }
  }

  lemma LevelPrefixIsPrefix(t: string, topic: string)
    requires Levels(t) <= Levels(topic)
    ensures topic == t || t + "/" <= topic
  {
    var lt, ls := Levels(t), Levels(topic);
    JoinOfLevels(t);
    JoinOfLevels(topic);
    var rest := ls[|lt|..];
    assert ls == lt + rest;
    if rest == [] {
      assert ls == lt;
    } else {
      JoinOfSum(lt, rest);
    }
  }

  /** Beginning with the levels of `t` is beginning with `t` at a level boundary. */
  lemma LevelPrefix(t: string, topic: string)
    ensures Levels(t) <= Levels(topic) <==> topic == t || t + "/" <= topic
  {
    if Levels(t) <= Levels(topic) {
      LevelPrefixIsPrefix(t, topic);
    }
    if t + "/" <= topic {
      var r := topic[|t| + 1..];
      assert topic == t + "/" + r;
      LevelsOfSlash(t, r);
    }
  }

  lemma {:induction false} LevelChars(s: string, i: nat, j: nat)
    requires i < |Levels(s)| && j < |Levels(s)[i]|
    ensures Levels(s)[i][j] in s
  {
    if s != "" {
      var rest := Levels(s[1..]);
      if s[0] == '/' {
        LevelChars(s[1..], i - 1, j);
      } else if i == 0 {
        if j > 0 { LevelChars(s[1..], 0, j - 1); }
      } else {
        LevelChars(s[1..], i, j);
      }
    }
  }

  // ----- matching, level by level

  predicate MatchLevels(filter: seq<string>, topic: seq<string>) {
    if filter == ["#"] then true
    else if filter == [] || topic == [] then filter == topic
    else (filter[0] == "+" || filter[0] == topic[0]) && MatchLevels(filter[1..], topic[1..])
  }

  /** Sections 4.7.1 and 4.7.2: a leading wildcard does not match a `$` topic. */
  predicate Matches(filter: string, topic: string) {
    && !(filter != "" && filter[0] in "+#" && topic != "" && topic[0] == '$')
    && MatchLevels(Levels(filter), Levels(topic))
  }

  predicate NoWildcard(s: string) { '+' !in s && '#' !in s }

  /** Section 4.7.1: `#` only as the last level, `+` only as a whole level. */
  predicate ValidFilter(f: string) {
    var ls := Levels(f);
    forall i :: 0 <= i < |ls| ==> (ls[i] == "+" || NoWildcard(ls[i]) || (ls[i] == "#" && i == |ls| - 1))
  }

  /** Topic names carry no wildcard and are not empty (sections 4.7.1, 4.7.3). */
  predicate ValidTopic(s: string) { s != "" && NoWildcard(s) }

  lemma FilterLevels(t: string)
    ensures Levels(t + "/#") == Levels(t) + ["#"]
  {
    assert t + "/#" == t + "/" + "#";
    LevelsOfSlash(t, "#");
    var hash := "#";
    var rest := Levels(hash[1..]);
    assert hash[1..] == "" && rest == [""];
    assert [hash[0]] + rest[0] == hash && [hash] + rest[1..] == [hash];
  }

  lemma {:induction false} MatchLiteral(lt: seq<string>, topic: seq<string>)
    requires forall i :: 0 <= i < |lt| ==> lt[i] != "+" && lt[i] != "#"
    ensures MatchLevels(lt + ["#"], topic) <==> lt <= topic
  {
    var f := lt + ["#"];
    if lt == [] {
      assert f == ["#"];
    } else {
      assert f[0] == lt[0];
      assert f != ["#"];
      assert f[1..] == lt[1..] + ["#"];
      if topic != [] {
        MatchLiteral(lt[1..], topic[1..]);
      }
    }
  }

  /** The filter `T/#` is a prefix test, for every wildcard-free `T`. */
  lemma FilterIsPrefixTest(t: string, topic: string)
    requires NoWildcard(t)
    ensures Matches(t + "/#", topic) <==> topic == t || t + "/" <= topic
  {
    var lt := Levels(t);
    FilterLevels(t);
    forall i | 0 <= i < |lt|
      ensures lt[i] != "+" && lt[i] != "#"
    {
      if |lt[i]| == 1 {
        LevelChars(t, i, 0);
      }
    }
    MatchLiteral(lt, Levels(topic));
    LevelPrefix(t, topic);
  }

  /** The remainder found by advancing `strlen(T) + 1` characters. */
  function Chop(t: string, topic: string): (r: Option<string>)
  {
    if |t| + 1 <= |topic| then Some(topic[|t| + 1..]) else None
  }

  /** On a delivered topic the chop stays inside the string exactly when the
      topic is not `T` itself, and then it splits the topic at the slash. */
  lemma ChopOfDelivered(t: string, topic: string)
    requires NoWildcard(t) && Matches(t + "/#", topic)
    ensures Chop(t, topic).Some? <==> topic != t
    ensures topic != t ==> topic == t + "/" + Chop(t, topic).value
  {
    FilterIsPrefixTest(t, topic);
  }

  // ----- T with a wildcard

  /** A topic name that fills the single-level wildcards of `s`. */
  function Filled(s: string): (r: string)
    ensures |r| == |s|
    ensures forall i :: 0 <= i < |s| ==> r[i] == if s[i] == '+' then 'a' else s[i]
  {
    seq(|s|, i requires 0 <= i < |s| => if s[i] == '+' then 'a' else s[i])
  }

  lemma FilledAfterChar(c: char, s: string)
    ensures Filled([c] + s) == [if c == '+' then 'a' else c] + Filled(s)
  {}

  lemma {:induction false} FilledLevel(s: string, i: nat)
    requires i < |Levels(s)|
    ensures |Levels(Filled(s))| == |Levels(s)|
    ensures Levels(Filled(s))[i] == Filled(Levels(s)[i])
  {
    if s != "" {
      assert Filled(s)[1..] == Filled(s[1..]);
      if s[0] == '/' {
        FilledLevel(s[1..], if i == 0 then 0 else i - 1);
      } else {
        FilledLevel(s[1..], i);
        FilledAfterChar(s[0], Levels(s[1..])[0]);
      }
    }
  }

  lemma FilledLevels(s: string)
    ensures |Levels(Filled(s))| == |Levels(s)|
    ensures forall i :: 0 <= i < |Levels(s)| ==> Levels(Filled(s))[i] == Filled(Levels(s)[i])
  {
    FilledLevel(s, 0);
    forall i | 0 <= i < |Levels(s)|
      ensures Levels(Filled(s))[i] == Filled(Levels(s)[i])
    {
      FilledLevel(s, i);
    }
  }

  lemma {:induction false} MatchFilled(lt: seq<string>, topic: seq<string>)
    requires |lt| == |topic|
    requires forall i :: 0 <= i < |lt| ==> lt[i] != "#" && (lt[i] == "+" || lt[i] == topic[i])
    ensures MatchLevels(lt + ["#"], topic)
  {
    var f := lt + ["#"];
    if lt != [] {
      assert f[0] == lt[0] && f != ["#"];
      assert f[1..] == lt[1..] + ["#"];
      MatchFilled(lt[1..], topic[1..]);
    }
  }

  lemma FilledIsDelivered(t: string)
    requires ValidFilter(t + "/#") && '+' in t
    ensures ValidTopic(Filled(t)) && Matches(t + "/#", Filled(t))
  {
    var lt := Levels(t);
    var ls := Levels(Filled(t));
    FilterLevels(t);
    FilledLevels(t);
    forall i | 0 <= i < |lt|
      ensures lt[i] != "#" && (lt[i] == "+" || lt[i] == ls[i])
      ensures '#' !in lt[i]
    {
      assert (lt + ["#"])[i] == lt[i];
      if lt[i] != "+" {
        assert Filled(lt[i]) == lt[i];
      }
    }
    MatchFilled(lt, ls);
    CharsOfLevels(t, '#');
  }

  lemma {:induction false} CharsOfLevels(s: string, c: char)
    requires forall i :: 0 <= i < |Levels(s)| ==> c !in Levels(s)[i]
    requires c != '/'
    ensures c !in s
  {
    if s != "" {
      var ls, rest := Levels(s), Levels(s[1..]);
      assert s == [s[0]] + s[1..];
      if s[0] == '/' {
        assert forall i :: 0 <= i < |rest| ==> rest[i] == ls[i + 1];
      } else {
        assert c !in ls[0];
        assert ls[0] == [s[0]] + rest[0];
        assert forall i :: 1 <= i < |rest| ==> rest[i] == ls[i];
      }
      CharsOfLevels(s[1..], c);
    }
  }

  ghost predicate PrefixTest(t: string) {
    forall topic | ValidTopic(topic) :: Matches(t + "/#", topic) <==> (topic == t || t + "/" <= topic)
  }

  /** Among the `T` that give a legal filter, those for which delivery is the
      prefix test that the chop relies on are exactly those without `+`. */
  lemma PrefixTestIff(t: string)
    requires ValidFilter(t + "/#")
    ensures PrefixTest(t) <==> '+' !in t
  {
    if '+' in t {
      FilledIsDelivered(t);
      var topic := Filled(t);
      var i :| 0 <= i < |t| && t[i] == '+';
      assert topic[i] == 'a';
    } else {
      FilterLevels(t);
      forall i | 0 <= i < |Levels(t)|
        ensures '#' !in Levels(t)[i]
      {
        assert (Levels(t) + ["#"])[i] == Levels(t)[i];
      }
      CharsOfLevels(t, '#');
      forall topic | ValidTopic(topic)
        ensures Matches(t + "/#", topic) <==> (topic == t || t + "/" <= topic)
      {
        FilterIsPrefixTest(t, topic);
      }
    }
  }

  /** A unit with `mqtt_topic = /` receives `/` and what begins with two slashes,
      and no other topic. */
  lemma SlashUnitReceives(t: string, topic: string)
    requires t == "/"
    ensures Matches(t + "/#", topic) <==> topic == t || (|topic| > 1 && topic[0] == topic[1] == '/')
  {
    FilterIsPrefixTest(t, topic);
  }

  /** The sample configuration has such a unit and documents that it receives
      `/devices/12/temperature`; it does not. */
  lemma DocumentedTopicNotDelivered(t: string, topic: string)
    requires t == "/" && topic == "/devices/12/temperature"
    ensures !Matches(t + "/#", topic)
  {
    SlashUnitReceives(t, topic);
  }

  // ----- building the filter

  const MAX_TOPIC_LENGTH := 256

  datatype Subscription = Unsubscribed | Fatal | Subscribed(filter: CString, qos: int)

  /** `snprintf(buffer, size, "%s/#", topic)`: at most `size - 1` characters and
      a terminator; the result is the length of the whole text. */
  method FormatFilter(buffer: array<char>, topic: CString) returns (length: nat)
    requires buffer.Length > 0
    modifies buffer
    ensures length == |topic| + 2
    ensures CStr(buffer[..]) == (topic + "/#")[..Min(length, buffer.Length - 1)]
  {
    var text := topic + "/#";
    length := |text|;
    var n := Min(length, buffer.Length - 1);
    for i := 0 to n
      invariant buffer[..i] == text[..i]
    {
      buffer[i] := text[i];
      assert buffer[..i + 1] == buffer[..i] + [text[i]];
    }
    buffer[n] := NUL;
    assert buffer[..n] == text[..n];
    CStrUnique(buffer[..], text[..n]);
  }

  /** The connect callback. */
  method OnConnect(topic: Option<CString>, result: int) returns (s: Subscription)
    ensures s.Fatal? <==> topic.Some? && |topic.value| + 2 >= 256
    ensures s.Subscribed? <==> topic.Some? && |topic.value| + 2 < 256 && result == 0
    ensures s.Subscribed? ==> s.filter == topic.value + "/#" && s.qos == 2
  {
    if topic.None? {
      return Unsubscribed;
    }
    var buffer := new char[MAX_TOPIC_LENGTH];
    var length := FormatFilter(buffer, topic.value);
    if length >= MAX_TOPIC_LENGTH {
      return Fatal;
    }
    if result != 0 {
      return Unsubscribed;
    }
    var filter := ReadString(buffer);
    return Subscribed(filter, 2);
  }
}
