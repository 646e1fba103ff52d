/** The dotted metric name the shim gives each metric of an observation. */
module MetricNames {
  import opened Wrappers
  import opened Observations

  const Root: string := "rackspace.monitoring.entities"
  const Checks: string := "checks"
  const Dot: char := '.'

  /** The elements joined with `sep` between each neighbouring pair, as Go's
      strings.Join does; no elements give the empty string. */
  function Join(elems: seq<string>, sep: string): string
  {
    if |elems| == 0 then ""
    else if |elems| == 1 then elems[0]
    else elems[0] + sep + Join(elems[1..], sep)
  }

  /** The pieces of `s` between occurrences of `d`, as Go's strings.Split
      does; used only to state what Join produced. */
  function Split(s: string, d: char): (r: seq<string>)
    ensures |r| > 0
    decreases |s|
  {
    if |s| == 0 then [""]
    else
      var rest := Split(s[1..], d);
      if s[0] == d then [""] + rest
      else [[s[0]] + rest[0]] + rest[1..]
  }

  /** An optional identity field as zero or one segment. */
  function Optional(o: Option<string>): seq<string>
  {
    match o
    case None => []
    case Some(s) => [s]
  }

  /** The segment list getMetricName builds before joining: absent
      optional fields are left out, not replaced by empty segments. */
  function Segments(obs: Observation): seq<string>
  {
    [Root, obs.entityId, Checks] + Optional(obs.checkType) + [obs.checkId] + Optional(obs.monitoringZoneId)
  }

  function NamePrefix(obs: Observation): string
  {
    Join(Segments(obs), ".")
  }

  /** The name of metric field `name` of `obs`: the dotted prefix followed
      directly, without a separator, by the field name. */
  function MetricName(name: string, obs: Observation): string
  {
    NamePrefix(obs) + name
  }

  /** Every name starts with the root, the entity and the `checks` segment,
      and ends with the field name itself. */
  lemma MetricNameShape(name: string, obs: Observation)
    ensures Root + "." + obs.entityId + "." + Checks + "." <= MetricName(name, obs)
    ensures |MetricName(name, obs)| > |name|
    ensures MetricName(name, obs)[|MetricName(name, obs)| - |name|..] == name
  {
    NameWithPrefix(obs);
  }

  /** Join of at least two elements puts exactly one separator after the first. */
  lemma JoinCons(x: string, rest: seq<string>, sep: string)
    requires |rest| > 0
    ensures Join([x] + rest, sep) == x + sep + Join(rest, sep)
  {
    assert ([x] + rest)[1..] == rest;
  }

  lemma NameWithPrefix(obs: Observation)
    ensures Root + "." + obs.entityId + "." + Checks + "." <= NamePrefix(obs)
  {
    var tail := Optional(obs.checkType) + [obs.checkId] + Optional(obs.monitoringZoneId);
    assert Segments(obs) == [Root] + ([obs.entityId] + ([Checks] + tail));
    JoinCons(Root, [obs.entityId] + ([Checks] + tail), ".");
    JoinCons(obs.entityId, [Checks] + tail, ".");
    JoinCons(Checks, tail, ".");
  }

  /** The text a present checkType contributes: the type and its dot. */
  function TypePart(o: Option<string>): string
  {
    match o
    case None => ""
    case Some(t) => t + "."
  }

  /** The text a present monitoringZoneId contributes: a dot and the zone. */
  function ZonePart(o: Option<string>): string
  {
    match o
    case None => ""
    case Some(z) => "." + z
  }

  /** The part of the prefix from the optional checkType on. */
  lemma TailText(obs: Observation)
    ensures Join(Optional(obs.checkType) + [obs.checkId] + Optional(obs.monitoringZoneId), ".")
            == TypePart(obs.checkType) + obs.checkId + ZonePart(obs.monitoringZoneId)
  {
    var last := [obs.checkId] + Optional(obs.monitoringZoneId);
    assert Join(last, ".") == obs.checkId + ZonePart(obs.monitoringZoneId) by {
      if obs.monitoringZoneId.Some? {
        JoinCons(obs.checkId, Optional(obs.monitoringZoneId), ".");
      }
    }
    assert Optional(obs.checkType) + [obs.checkId] + Optional(obs.monitoringZoneId)
           == Optional(obs.checkType) + last;
    if obs.checkType.Some? {
      JoinCons(obs.checkType.value, last, ".");
    } else {
      assert Optional(obs.checkType) + last == last;
    }
  }

  /** The name spelled out without Join: each present optional field brings
      its own separator, an absent one brings nothing. */
  lemma MetricNameSpelledOut(name: string, obs: Observation)
    ensures MetricName(name, obs) ==
      Root + "." + obs.entityId + "." + Checks + "."
      + TypePart(obs.checkType) + obs.checkId + ZonePart(obs.monitoringZoneId)
      + name
  {
    var midText := TypePart(obs.checkType) + obs.checkId + ZonePart(obs.monitoringZoneId);
    assert NamePrefix(obs) == Root + "." + (obs.entityId + "." + (Checks + "." + midText)) by {
      var mid := Optional(obs.checkType) + [obs.checkId] + Optional(obs.monitoringZoneId);
      TailText(obs);
      var s2 := [Checks] + mid;
      JoinCons(Checks, mid, ".");
      var s1 := [obs.entityId] + s2;
      JoinCons(obs.entityId, s2, ".");
      assert Segments(obs) == [Root] + s1;
      JoinCons(Root, s1, ".");
    }
  }

  /** Leaving out checkType or monitoringZoneId removes exactly one segment. */
  lemma AbsentFieldDropsOneSegment(obs: Observation, t: string, z: string)
    ensures |Segments(obs.(checkType := None))| + 1 == |Segments(obs.(checkType := Some(t)))|
    ensures |Segments(obs.(monitoringZoneId := None))| + 1 == |Segments(obs.(monitoringZoneId := Some(z)))|
    ensures |Segments(obs)| == 4 + |Optional(obs.checkType)| + |Optional(obs.monitoringZoneId)|
  {
  }

  /** A string without the delimiter splits into itself. */
  lemma {:induction false} SplitWithoutDelimiter(s: string, d: char)
    requires d !in s
    ensures Split(s, d) == [s]
    decreases |s|
  {
    if |s| > 0 {
      SplitWithoutDelimiter(s[1..], d);
      assert [s[0]] + s[1..] == s;
    }
  }

  /** Splitting at the first delimiter. */
  lemma {:induction false} SplitAtFirst(a: string, d: char, b: string)
    requires d !in a
    ensures Split(a + [d] + b, d) == [a] + Split(b, d)
    decreases |a|
  {
    var s := a + [d] + b;
    if |a| == 0 {
      assert s[0] == d && s[1..] == b;
    } else {
      assert s[0] == a[0] && s[1..] == a[1..] + [d] + b;
      SplitAtFirst(a[1..], d, b);
      assert [a[0]] + a[1..] == a;
    }
  }

  /** Split undoes Join when no element contains the separator. */
  lemma {:induction false} SplitJoin(elems: seq<string>, d: char)
    requires |elems| > 0
    requires forall i :: 0 <= i < |elems| ==> d !in elems[i]
    ensures Split(Join(elems, [d]), d) == elems
    decreases |elems|
  {
    if |elems| == 1 {
      SplitWithoutDelimiter(elems[0], d);
    } else {
      SplitJoin(elems[1..], d);
      SplitAtFirst(elems[0], d, Join(elems[1..], [d]));
      assert elems == [elems[0]] + elems[1..];
    }
  }

  /** The identity fields that become name segments, in order. */
  predicate DotFree(obs: Observation)
  {
    && Dot !in obs.entityId
    && Dot !in obs.checkId
    && (obs.checkType.Some? ==> Dot !in obs.checkType.value)
    && (obs.monitoringZoneId.Some? ==> Dot !in obs.monitoringZoneId.value)
  }

  /** The three dot-free words that make up Root. */
  const RootWords: seq<string> := ["rackspace", "monitoring", "entities"]

  /** Root is itself a join: its words stand as segments of their own. */
  lemma RootJoin(rest: seq<string>)
    requires |rest| > 0
    ensures Join(RootWords + rest, ".") == Root + "." + Join(rest, ".")
    ensures forall i :: 0 <= i < |RootWords| ==> Dot !in RootWords[i]
  {
    JoinThree(RootWords[0], RootWords[1], RootWords[2], rest, ".");
    RootSpelled();
  }

  lemma RootSpelled()
    ensures Root == "rackspace" + "." + "monitoring" + "." + "entities"
  {
    assert "rackspace" + "." == "rackspace.";
    assert "rackspace." + "monitoring" == "rackspace.monitoring";
    assert "rackspace.monitoring" + "." == "rackspace.monitoring.";
    assert "rackspace.monitoring." + "entities" == "rackspace.monitoring.entities";
  }

  lemma JoinThree(a: string, b: string, c: string, rest: seq<string>, sep: string)
    requires |rest| > 0
    ensures Join([a, b, c] + rest, sep) == a + sep + b + sep + c + sep + Join(rest, sep)
  {
    assert [a, b, c] + rest == [a] + ([b] + ([c] + rest));
    JoinCons(a, [b] + ([c] + rest), sep);
    JoinCons(b, [c] + rest, sep);
    JoinCons(c, rest, sep);
  }

  /** When the identity fields hold no dot, the dotted prefix reads back as
      the three root words followed by exactly the present identity fields. */
  lemma PrefixSegments(obs: Observation)
    requires DotFree(obs)
    ensures Split(NamePrefix(obs), Dot) == RootWords + Segments(obs)[1..]
  {
    var rest := Segments(obs)[1..];
    assert Join(RootWords + rest, ".") == NamePrefix(obs) by {
      assert Segments(obs) == [Root] + rest;
      JoinCons(Root, rest, ".");
      RootJoin(rest);
    }
    assert forall i :: 0 <= i < |RootWords + rest| ==> Dot !in (RootWords + rest)[i] by {
      RootJoin(rest);
      forall i | 0 <= i < |RootWords + rest| ensures Dot !in (RootWords + rest)[i] {
        if i >= 3 {
          assert (RootWords + rest)[i] == Segments(obs)[i - 2];
        }
      }
    }
    SplitJoin(RootWords + rest, Dot);
  }

  /** Absent optional fields leave no empty segment behind: when every
      present identity field is non-empty (and dot-free), so is every piece
      of the dotted prefix. */
  lemma NoEmptySegment(obs: Observation)
    requires DotFree(obs)
    requires obs.entityId != "" && obs.checkId != ""
    requires obs.checkType.Some? ==> obs.checkType.value != ""
    requires obs.monitoringZoneId.Some? ==> obs.monitoringZoneId.value != ""
    ensures "" !in Split(NamePrefix(obs), Dot)
    ensures |Split(NamePrefix(obs), Dot)| == |Segments(obs)| + 2
  {
    PrefixSegments(obs);
    var pieces := RootWords + Segments(obs)[1..];
    forall i | 0 <= i < |pieces| ensures pieces[i] != "" {
      if i >= 3 {
        assert pieces[i] == Segments(obs)[i - 2];
      }
    }
  }

  /** Different field names of one observation never share a metric name. */
  lemma MetricNameInjective(a: string, b: string, obs: Observation)
    requires MetricName(a, obs) == MetricName(b, obs)
    ensures a == b
  {
    var p := NamePrefix(obs);
    assert a == (p + a)[|p|..];
    assert b == (p + b)[|p|..];
  }
}
