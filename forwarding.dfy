/** Turning one observation into Blueflood points and handing them to the
    buffer (forwardToBlueflood), and decoding one input line first
    (relayJsonToBlueflood). */
module Forwarding {
  import opened Wrappers
  import opened Observations
  import opened MetricNames
  import opened Batching

  /** The TTL the shim uses when none is configured. */
  const DefaultTtl: int := 172800

  /** The ways handling one observation stops the shim: a line that is not
      JSON, a JSON `null` observation or metric entry (a nil pointer
      dereference), or a failed post. */
  datatype Fatal = MalformedJson | NilObservation | NilMetric(key: string) | SendFailed(error: SendError)

  /** What the JSON decoder makes of one input line. */
  datatype Decoded = Malformed | NullDocument | Parsed(obs: Observation)

  /** A metric entry that yields a point: present and holding a number. */
  predicate IsNumeric(entry: Option<ObservationMetric>)
  {
    entry.Some? && entry.value.value.Number?
  }

  function NumericKeys(obs: Observation): set<string>
  {
    set k | k in obs.metrics && IsNumeric(obs.metrics[k])
  }

  predicate HasNilMetric(obs: Observation)
  {
    exists k :: k in obs.metrics && obs.metrics[k].None?
  }

  /** The point built for numeric metric field `key` of `obs`. */
  function Point(key: string, obs: Observation, ttl: int): BluefloodMetric
    requires key in NumericKeys(obs)
  {
    BluefloodMetric(obs.tenantId, obs.timestamp, ttl, obs.metrics[key].value.value.n, MetricName(key, obs))
  }

  /** The points of the numeric fields among `keys`. */
  function PointsOf(obs: Observation, ttl: int, keys: set<string>): set<BluefloodMetric>
  {
    set k | k in keys && k in NumericKeys(obs) :: Point(k, obs, ttl)
  }

  /** All points an observation yields. */
  function Flatten(obs: Observation, ttl: int): set<BluefloodMetric>
  {
    PointsOf(obs, ttl, obs.metrics.Keys)
  }

  /** What the points of an observation are: each copies the tenant (absent
      stays absent), the timestamp and the TTL, and carries the number and
      the name of one numeric field; every numeric field has its point, and
      no other field has one. */
  lemma FlattenedPoints(obs: Observation, ttl: int)
    ensures forall p :: p in Flatten(obs, ttl) ==>
              && p.tenantId == obs.tenantId
              && p.collectionTime == obs.timestamp
              && p.ttlInSeconds == ttl
              && exists k :: k in NumericKeys(obs)
                             && obs.metrics[k].value.value == Number(p.metricValue)
                             && p.metricName == MetricName(k, obs)
    ensures forall k :: k in obs.metrics ==>
              (IsNumeric(obs.metrics[k]) <==> exists p :: p in Flatten(obs, ttl) && p.metricName == MetricName(k, obs))
  {
    forall k | k in obs.metrics && exists p :: p in Flatten(obs, ttl) && p.metricName == MetricName(k, obs)
      ensures IsNumeric(obs.metrics[k])
    {
      var p :| p in Flatten(obs, ttl) && p.metricName == MetricName(k, obs);
      var k' :| k' in NumericKeys(obs) && p == Point(k', obs, ttl);
      MetricNameInjective(k, k', obs);
    }
    forall k | k in obs.metrics && IsNumeric(obs.metrics[k])
      ensures exists p :: p in Flatten(obs, ttl) && p.metricName == MetricName(k, obs)
    {
      assert Point(k, obs, ttl) in Flatten(obs, ttl);
    }
  }

  /** An observation with no numeric field yields no point. */
  lemma NothingNumericNothingFlattened(obs: Observation, ttl: int)
    requires forall k :: k in obs.metrics ==> !IsNumeric(obs.metrics[k])
    ensures Flatten(obs, ttl) == {}
  {
  }

  /** Adding one field to the visited keys adds its point, if any, and that
      point is new: metric names of different fields differ. */
  lemma PointsOfAdd(obs: Observation, ttl: int, keys: set<string>, k: string)
    requires k !in keys
    ensures k in NumericKeys(obs) ==> Point(k, obs, ttl) !in PointsOf(obs, ttl, keys)
    ensures PointsOf(obs, ttl, keys + {k}) ==
            PointsOf(obs, ttl, keys) + (if k in NumericKeys(obs) then {Point(k, obs, ttl)} else {})
  {
    if k in NumericKeys(obs) {
      forall k' | k' in keys && k' in NumericKeys(obs)
        ensures Point(k', obs, ttl) != Point(k, obs, ttl)
      {
        if Point(k', obs, ttl) == Point(k, obs, ttl) {
          MetricNameInjective(k', k, obs);
        }
      }
    }
  }

  lemma PointsOfMonotonic(obs: Observation, ttl: int, small: set<string>, large: set<string>)
    requires small <= large
    ensures PointsOf(obs, ttl, small) <= PointsOf(obs, ttl, large)
  {
  }

  /** One point per numeric field among the keys. */
  lemma {:induction false} PointsOfCardinality(obs: Observation, ttl: int, keys: set<string>)
    ensures |PointsOf(obs, ttl, keys)| == |keys * NumericKeys(obs)|
    decreases |keys|
  {
    if keys != {} {
      var k :| k in keys;
      var rest := keys - {k};
      PointsOfCardinality(obs, ttl, rest);
      assert rest + {k} == keys;
      CardinalityStep(obs, ttl, rest, k);
    } else {
      assert PointsOf(obs, ttl, keys) == {};
    }
  }

  lemma CardinalityStep(obs: Observation, ttl: int, rest: set<string>, k: string)
    requires k !in rest
    ensures |PointsOf(obs, ttl, rest + {k})| == |PointsOf(obs, ttl, rest)| + (if k in NumericKeys(obs) then 1 else 0)
    ensures |(rest + {k}) * NumericKeys(obs)| == |rest * NumericKeys(obs)| + (if k in NumericKeys(obs) then 1 else 0)
  {
    PointsOfAdd(obs, ttl, rest, k);
    IntersectionStep(rest, NumericKeys(obs), k);
  }

  lemma IntersectionStep<T>(rest: set<T>, s: set<T>, k: T)
    requires k !in rest
    ensures |(rest + {k}) * s| == |rest * s| + (if k in s then 1 else 0)
  {
    if k in s {
      assert (rest + {k}) * s == rest * s + {k};
    } else {
      assert (rest + {k}) * s == rest * s;
    }
  }

  /** An observation yields exactly as many points as it has numeric fields. */
  lemma FlattenCardinality(obs: Observation, ttl: int)
    ensures |Flatten(obs, ttl)| == |NumericKeys(obs)|
  {
    PointsOfCardinality(obs, ttl, obs.metrics.Keys);
    assert obs.metrics.Keys * NumericKeys(obs) == NumericKeys(obs);
  }

  /** Every batch in `bs` drew a 2xx response. */
  predicate AllAccepted(endpoint: Endpoint, bs: seq<Batch>)
  {
    forall i :: 0 <= i < |bs| ==> CheckResponse(endpoint(bs[i])).Pass?
  }

  /** No point occurs twice. */
  predicate NoDuplicates(ps: Batch)
  {
    forall i, j :: 0 <= i < j < |ps| ==> ps[i] != ps[j]
  }

  /** What the forwarding loop has achieved once it has visited the fields
      in `visited` and enqueued `emitted` onto the queue `q0`: the points are
      distinct points of the observation; while all went well they are
      exactly the points of the visited fields, every visited entry is
      non-nil and every post was accepted; once something went wrong, some
      entry is nil or some post was rejected. */
  ghost predicate Progress(obs: Observation, ttl: int, endpoint: Endpoint, q0: Batch,
                           visited: set<string>, emitted: Batch, r: Outcome<Fatal>)
  {
    && NoDuplicates(emitted)
    && (forall p :: p in emitted ==> p in Flatten(obs, ttl))
    && (NumericKeys(obs) == {} ==> emitted == [])
    && (r.Pass? ==>
          && (forall p :: p in emitted <==> p in PointsOf(obs, ttl, visited))
          && AllAccepted(endpoint, Posts(q0, Wrap(emitted)))
          && (forall k :: k in visited && k in obs.metrics ==> obs.metrics[k].Some?))
    && (r.Fail? ==> HasNilMetric(obs) || !AllAccepted(endpoint, Posts(q0, Wrap(emitted))))
  }

  /** Enqueues the point of every numeric metric field, in an unspecified
      order, stopping at a nil entry or at a failed post. `emitted` is the
      sequence of points enqueued: without repeats, each one a point of the
      observation, and on success all of them. */
  method ForwardToBlueflood(b: BluefloodBuffer, obs: Observation, ttl: int, endpoint: Endpoint)
    returns (r: Outcome<Fatal>, ghost emitted: Batch)
    requires b.Valid()
    modifies b
    ensures b.Valid()
    ensures b.queue == old(b.queue) + emitted
    ensures b.posted == old(b.posted) + Posts(old(b.queue), Wrap(emitted))
    ensures NoDuplicates(emitted)
    ensures forall p :: p in emitted ==> p in Flatten(obs, ttl)
    ensures r.Pass? ==> (forall p :: p in Flatten(obs, ttl) ==> p in emitted) && |emitted| == |NumericKeys(obs)|
    ensures r.Pass? <==> !HasNilMetric(obs) && AllAccepted(endpoint, Posts(old(b.queue), Wrap(emitted)))
    ensures NumericKeys(obs) == {} ==> emitted == [] && b.queue == old(b.queue) && b.posted == old(b.posted)
  {
    var remaining := obs.metrics.Keys;
    ghost var visited: set<string> := {};
    ghost var q0, p0 := b.queue, b.posted;
    emitted := [];
    r := Pass;
    while remaining != {} && r.Pass?
      invariant b.Valid()
      invariant Running(obs, ttl, endpoint, q0, p0, b.queue, b.posted, remaining, visited, emitted, r)
      decreases remaining
    {
      var key :| key in remaining;
      ghost var added: Batch;
      ghost var q, p := b.queue, b.posted;
      r, added := ForwardMetric(b, obs, key, ttl, endpoint);
      RunningStep(obs, ttl, endpoint, q0, p0, q, p, remaining, visited, emitted, key, added, r, b.queue, b.posted);
      emitted := emitted + added;
      remaining := remaining - {key};
      visited := visited + {key};
    }
    RunningDone(obs, ttl, endpoint, q0, p0, b.queue, b.posted, remaining, visited, emitted, r);
  }

  /** The loop state: the fields split into visited and remaining ones, the
      buffer holding the old queue followed by the points enqueued so far and
      having posted what those enqueues post, and the Progress made. */
  ghost predicate Running(obs: Observation, ttl: int, endpoint: Endpoint, q0: Batch, p0: seq<Batch>,
                          queue: Batch, posted: seq<Batch>, remaining: set<string>, visited: set<string>, emitted: Batch, r: Outcome<Fatal>)
  {
    && remaining <= obs.metrics.Keys && visited == obs.metrics.Keys - remaining
    && Buffered(q0, p0, queue, posted, emitted)
    && Progress(obs, ttl, endpoint, q0, visited, emitted, r)
  }

  /** The buffer holds the old queue followed by `emitted`, and has posted
      what enqueuing `emitted` posts. */
  ghost predicate Buffered(q0: Batch, p0: seq<Batch>, queue: Batch, posted: seq<Batch>, emitted: Batch)
  {
    queue == q0 + emitted && posted == p0 + Posts(q0, Wrap(emitted))
  }

  /** Enqueuing `added` after `emitted` keeps the buffer in step. */
  lemma BufferedStep(q0: Batch, p0: seq<Batch>, queue: Batch, posted: seq<Batch>, emitted: Batch,
                     added: Batch, queue': Batch, posted': seq<Batch>)
    requires Buffered(q0, p0, queue, posted, emitted)
    requires queue' == queue + added
    requires posted' == posted + Posts(queue, Wrap(added))
    ensures Buffered(q0, p0, queue', posted', emitted + added)
  {
    PostsAppend(q0, emitted, added);
    assert posted' == p0 + (Posts(q0, Wrap(emitted)) + Posts(q0 + emitted, Wrap(added)));
  }

  /** A turn of the loop that visits `key` keeps the loop state. */
  lemma RunningStep(obs: Observation, ttl: int, endpoint: Endpoint, q0: Batch, p0: seq<Batch>,
                    queue: Batch, posted: seq<Batch>, remaining: set<string>, visited: set<string>, emitted: Batch,
                    key: string, added: Batch, r: Outcome<Fatal>, queue': Batch, posted': seq<Batch>)
    requires Running(obs, ttl, endpoint, q0, p0, queue, posted, remaining, visited, emitted, Pass)
    requires key in remaining
    requires added == if IsNumeric(obs.metrics[key]) then [Point(key, obs, ttl)] else []
    requires queue' == queue + added
    requires posted' == posted + Posts(queue, Wrap(added))
    requires r.Pass? <==> obs.metrics[key].Some? && AllAccepted(endpoint, Posts(queue, Wrap(added)))
    ensures Running(obs, ttl, endpoint, q0, p0, queue', posted', remaining - {key}, visited + {key}, emitted + added, r)
  {
    BufferedStep(q0, p0, queue, posted, emitted, added, queue', posted');
    ProgressStep(obs, ttl, endpoint, q0, visited, emitted, key, added, r);
  }

  /** When the loop stops, its state gives what ForwardToBlueflood promises. */
  lemma RunningDone(obs: Observation, ttl: int, endpoint: Endpoint, q0: Batch, p0: seq<Batch>,
                    queue: Batch, posted: seq<Batch>, remaining: set<string>, visited: set<string>, emitted: Batch, r: Outcome<Fatal>)
    requires Running(obs, ttl, endpoint, q0, p0, queue, posted, remaining, visited, emitted, r)
    requires !(remaining != {} && r.Pass?)
    ensures queue == q0 + emitted
    ensures posted == p0 + Posts(q0, Wrap(emitted))
    ensures NoDuplicates(emitted)
    ensures forall p :: p in emitted ==> p in Flatten(obs, ttl)
    ensures r.Pass? ==> (forall p :: p in Flatten(obs, ttl) ==> p in emitted) && |emitted| == |NumericKeys(obs)|
    ensures r.Pass? <==> !HasNilMetric(obs) && AllAccepted(endpoint, Posts(q0, Wrap(emitted)))
    ensures NumericKeys(obs) == {} ==> emitted == [] && queue == q0 && posted == p0
  {
    ProgressDone(obs, ttl, endpoint, q0, visited, emitted, r);
    if NumericKeys(obs) == {} {
      assert Wrap(emitted) == [];
    }
  }

  /** One turn of the loop: the point of field `key`, if it holds a number,
      goes to the buffer; a nil entry stops the shim. */
  method ForwardMetric(b: BluefloodBuffer, obs: Observation, key: string, ttl: int, endpoint: Endpoint)
    returns (r: Outcome<Fatal>, ghost added: Batch)
    requires b.Valid() && key in obs.metrics
    modifies b
    ensures b.Valid()
    ensures added == if IsNumeric(obs.metrics[key]) then [Point(key, obs, ttl)] else []
    ensures b.queue == old(b.queue) + added
    ensures b.posted == old(b.posted) + Posts(old(b.queue), Wrap(added))
    ensures obs.metrics[key].None? ==> r == Fail(NilMetric(key))
    ensures r.Pass? <==> obs.metrics[key].Some? && AllAccepted(endpoint, Posts(old(b.queue), Wrap(added)))
  {
    var name := MetricName(key, obs);
    var entry := obs.metrics[key];
    if entry.None? {
      r, added := Fail(NilMetric(key)), [];
      assert Wrap(added) == [];
    } else if entry.value.value.Number? {
      var point := BluefloodMetric(obs.tenantId, obs.timestamp, ttl, entry.value.value.n, name);
      added := [point];
      ghost var q' := b.queue + [point];
      assert Posts(b.queue, Wrap(added)) == if |q'| > MaxQueue then [q'] else [] by {
        assert Wrap(added) == [Some(point)];
        assert [Some(point)][1..] == [];
      }
      var sent := b.Enqueue(Some(point), endpoint);
      assert Wrap(added) == [Some(point)];
      assert b.queue == q';
      if |q'| > MaxQueue {
        assert AllAccepted(endpoint, [q']) <==> CheckResponse(endpoint(q')).Pass? by {
          assert [q'][0] == q';
        }
      }
      if sent.Fail? {
        r := Fail(SendFailed(sent.error));
      } else {
        r := Pass;
      }
    } else {
      r, added := Pass, [];
      assert Wrap(added) == [];
    }
  }

  /** A turn of the loop keeps Progress with the field it visited. */
  lemma ProgressStep(obs: Observation, ttl: int, endpoint: Endpoint, q0: Batch, visited: set<string>,
                     emitted: Batch, key: string, added: Batch, r: Outcome<Fatal>)
    requires visited <= obs.metrics.Keys && key in obs.metrics && key !in visited
    requires Progress(obs, ttl, endpoint, q0, visited, emitted, Pass)
    requires added == if IsNumeric(obs.metrics[key]) then [Point(key, obs, ttl)] else []
    requires r.Pass? <==> obs.metrics[key].Some? && AllAccepted(endpoint, Posts(q0 + emitted, Wrap(added)))
    ensures Progress(obs, ttl, endpoint, q0, visited + {key}, emitted + added, r)
  {
    PostsAppend(q0, emitted, added);
    AllAcceptedConcat(endpoint, Posts(q0, Wrap(emitted)), Posts(q0 + emitted, Wrap(added)));
    if IsNumeric(obs.metrics[key]) {
      VisitNumeric(obs, ttl, visited, key, emitted);
    } else {
      VisitOther(obs, ttl, visited, key);
      assert emitted + added == emitted;
    }
  }

  /** When the loop stops, Progress gives what ForwardToBlueflood promises. */
  lemma ProgressDone(obs: Observation, ttl: int, endpoint: Endpoint, q0: Batch, visited: set<string>,
                     emitted: Batch, r: Outcome<Fatal>)
    requires Progress(obs, ttl, endpoint, q0, visited, emitted, r)
    requires r.Pass? ==> visited == obs.metrics.Keys
    ensures r.Pass? ==> (forall p :: p in Flatten(obs, ttl) ==> p in emitted) && |emitted| == |NumericKeys(obs)|
    ensures r.Pass? <==> !HasNilMetric(obs) && AllAccepted(endpoint, Posts(q0, Wrap(emitted)))
  {
    if r.Pass? {
      FlattenCardinality(obs, ttl);
      DistinctLength(emitted, Flatten(obs, ttl));
    }
  }

  /** Enqueuing `a` after `e` posts what `e` posts, then what `a` posts from
      the queue `e` left. */
  lemma PostsAppend(q: Batch, e: Batch, a: Batch)
    ensures Posts(q, Wrap(e + a)) == Posts(q, Wrap(e)) + Posts(q + e, Wrap(a))
  {
    assert Wrap(e + a) == Wrap(e) + Wrap(a);
    PostsSplit(q, Wrap(e), Wrap(a));
    FillAppendsPresent(q, Wrap(e));
    PresentOfWrap(e);
  }

  lemma AllAcceptedConcat(endpoint: Endpoint, xs: seq<Batch>, ys: seq<Batch>)
    ensures AllAccepted(endpoint, xs + ys) <==> AllAccepted(endpoint, xs) && AllAccepted(endpoint, ys)
  {
    if AllAccepted(endpoint, xs + ys) {
      forall i | 0 <= i < |xs| ensures CheckResponse(endpoint(xs[i])).Pass? {
        assert xs[i] == (xs + ys)[i];
      }
      forall i | 0 <= i < |ys| ensures CheckResponse(endpoint(ys[i])).Pass? {
        assert ys[i] == (xs + ys)[|xs| + i];
      }
    }
    if AllAccepted(endpoint, xs) && AllAccepted(endpoint, ys) {
      forall i | 0 <= i < |xs + ys| ensures CheckResponse(endpoint((xs + ys)[i])).Pass? {
        if i < |xs| {
          assert (xs + ys)[i] == xs[i];
        } else {
          assert (xs + ys)[i] == ys[i - |xs|];
        }
      }
    }
  }

  /** Visiting a numeric field appends a point that is new, belongs to the
      observation, and brings the points so far up to date. */
  lemma VisitNumeric(obs: Observation, ttl: int, visited: set<string>, key: string, emitted: Batch)
    requires visited <= obs.metrics.Keys && key in NumericKeys(obs) && key !in visited
    requires NoDuplicates(emitted)
    requires forall p :: p in emitted <==> p in PointsOf(obs, ttl, visited)
    ensures NoDuplicates(emitted + [Point(key, obs, ttl)])
    ensures forall p :: p in emitted + [Point(key, obs, ttl)] <==> p in PointsOf(obs, ttl, visited + {key})
    ensures forall p :: p in emitted + [Point(key, obs, ttl)] ==> p in Flatten(obs, ttl)
  {
    PointsOfAdd(obs, ttl, visited, key);
    PointsOfMonotonic(obs, ttl, visited + {key}, obs.metrics.Keys);
  }

  /** Visiting a field without a number changes nothing in the points so far. */
  lemma VisitOther(obs: Observation, ttl: int, visited: set<string>, key: string)
    requires key !in NumericKeys(obs) && key !in visited
    ensures PointsOf(obs, ttl, visited + {key}) == PointsOf(obs, ttl, visited)
  {
    PointsOfAdd(obs, ttl, visited, key);
  }

  /** A sequence without repeats that holds exactly the elements of a set is
      as long as the set is large. */
  lemma {:induction false} DistinctLength(ps: Batch, s: set<BluefloodMetric>)
    requires NoDuplicates(ps)
    requires forall p :: p in ps <==> p in s
    ensures |ps| == |s|
    decreases |ps|
  {
    if ps != [] {
      var last := ps[|ps| - 1];
      var init := ps[..|ps| - 1];
      assert ps == init + [last];
      assert last !in init;
      forall p ensures p in init <==> p in s - {last} {
        if p in init {
          var i :| 0 <= i < |init| && init[i] == p;
          assert ps[i] == p;
        }
      }
      DistinctLength(init, s - {last});
    } else {
      assert forall p :: p !in s;
      assert s == {};
    }
  }

  /** Decodes one input line and forwards the observation it holds. */
  method RelayJsonToBlueflood(b: BluefloodBuffer, js: string, decode: string -> Decoded, ttl: int, endpoint: Endpoint)
    returns (r: Outcome<Fatal>, ghost emitted: Batch)
    requires b.Valid()
    modifies b
    ensures b.Valid()
    ensures b.queue == old(b.queue) + emitted
    ensures b.posted == old(b.posted) + Posts(old(b.queue), Wrap(emitted))
    ensures decode(js).Malformed? ==> r == Fail(MalformedJson) && emitted == []
    ensures decode(js).NullDocument? ==> r == Fail(NilObservation) && emitted == []
    ensures decode(js).Parsed? ==>
              && NoDuplicates(emitted)
              && (forall p :: p in emitted ==> p in Flatten(decode(js).obs, ttl))
              && (r.Pass? ==> forall p :: p in Flatten(decode(js).obs, ttl) ==> p in emitted)
              && (r.Pass? <==> !HasNilMetric(decode(js).obs) && AllAccepted(endpoint, Posts(old(b.queue), Wrap(emitted))))
  {
    match decode(js)
    case Malformed =>
      r, emitted := Fail(MalformedJson), [];
    case NullDocument =>
      r, emitted := Fail(NilObservation), [];
    case Parsed(obs) =>
      r, emitted := ForwardToBlueflood(b, obs, ttl, endpoint);
  }

  /** The observation of the worked example: entity e1, check c1 with no
      check type, zone z1, time 1000, a numeric `cpu` and a non-numeric
      `flag`. */
  function ExampleObservation(cpu: Float64, flag: ObservationMetric): Observation
  {
    Observation(
      1, "acct", true, "c1", None, None, [], "e1", Some("z1"), 30, None, "", None, 1000,
      map["cpu" := Some(ObservationMetric("number", Number(cpu), "percent")), "flag" := Some(flag)])
  }

  /** The worked example yields exactly one point: the `flag` field is
      dropped and the zone is glued to the field name. */
  lemma ExampleYieldsOnePoint(cpu: Float64, flag: ObservationMetric)
    requires flag.value.Other?
    ensures Flatten(ExampleObservation(cpu, flag), DefaultTtl) ==
      {BluefloodMetric(None, 1000, 172800, cpu, "rackspace.monitoring.entities.e1.checks.c1.z1cpu")}
  {
    var obs := ExampleObservation(cpu, flag);
    assert NumericKeys(obs) == {"cpu"} by {
      assert "cpu" != "flag";
    }
    assert MetricName("cpu", obs) == "rackspace.monitoring.entities.e1.checks.c1.z1cpu" by {
      MetricNameSpelledOut("cpu", obs);
      assert Root + "." == "rackspace.monitoring.entities.";
      assert "rackspace.monitoring.entities." + "e1" == "rackspace.monitoring.entities.e1";
      assert "rackspace.monitoring.entities.e1" + "." == "rackspace.monitoring.entities.e1.";
      assert "rackspace.monitoring.entities.e1." + Checks == "rackspace.monitoring.entities.e1.checks";
      assert "rackspace.monitoring.entities.e1.checks" + "." == "rackspace.monitoring.entities.e1.checks.";
      assert "rackspace.monitoring.entities.e1.checks." + "" == "rackspace.monitoring.entities.e1.checks.";
      assert "rackspace.monitoring.entities.e1.checks." + "c1" == "rackspace.monitoring.entities.e1.checks.c1";
      assert "rackspace.monitoring.entities.e1.checks.c1" + ("." + "z1") == "rackspace.monitoring.entities.e1.checks.c1.z1";
      assert "rackspace.monitoring.entities.e1.checks.c1.z1" + "cpu" == "rackspace.monitoring.entities.e1.checks.c1.z1cpu";
    }
  }
}
