/** Blueflood metric points, the buffer that collects them and posts them in
    batches, and the rule that decides whether a post was accepted. */
module Batching {
  import opened Wrappers
  import opened Observations

  /** One point as Blueflood ingests it. */
  datatype BluefloodMetric = BluefloodMetric(
    tenantId: Option<string>,
    collectionTime: int,
    ttlInSeconds: int,
    metricValue: Float64,
    metricName: string)

  type Batch = seq<BluefloodMetric>

  /** The buffer posts once it holds more than this many points. */
  const MaxQueue: nat := 1500

  /** What the HTTP exchange for one post yields: no response at all, or a
      status code with the response body. */
  datatype Response = TransportFailure | HttpResponse(status: int, body: string)

  /** The ingestion endpoint, seen only through the response it gives to a
      posted batch. */
  type Endpoint = Batch -> Response

  /** The ways a post stops the shim. */
  datatype SendError = TransportError | IngestionRejected(status: int, body: string)

  /** The status test of a post, written as the shim writes its rejection test. */
  predicate IsSuccessStatus(status: int)
  {
    !(status < 200 || 300 <= status)
  }

  /** A post is accepted exactly for the statuses of the 2xx class. */
  lemma SuccessStatusIsTwoHundreds(status: int)
    ensures IsSuccessStatus(status) <==> 200 <= status < 300
    ensures IsSuccessStatus(status) <==> status / 100 == 2
  {
  }

  /** The verdict on the response to a post. */
  function CheckResponse(resp: Response): (r: Outcome<SendError>)
    ensures r.Pass? <==> resp.HttpResponse? && 200 <= resp.status < 300
    ensures resp.TransportFailure? ==> r == Fail(TransportError)
    ensures resp.HttpResponse? && r.Fail? ==> r.error.IngestionRejected? && r.error.status == resp.status && r.error.body == resp.body
  {
    match resp
    case TransportFailure => Fail(TransportError)
    case HttpResponse(status, body) =>
      if IsSuccessStatus(status) then Pass else Fail(IngestionRejected(status, body))
  }

  // ---------------------------------------------------------------------
  // The enqueue trace as values: what a run of enqueues leaves in the queue
  // and which batches it posts, assuming every post is accepted.
  // ---------------------------------------------------------------------

  /** The queue after one enqueue: a nil point adds nothing. */
  function Appended(q: Batch, m: Option<BluefloodMetric>): Batch
  {
    match m
    case None => q
    case Some(p) => q + [p]
  }

  /** The non-nil points among `items`, in order. */
  function Present(items: seq<Option<BluefloodMetric>>): Batch
  {
    if items == [] then []
    else Appended([], items[0]) + Present(items[1..])
  }

  /** Points as the non-nil items the forwarder enqueues. */
  function Wrap(ps: Batch): (r: seq<Option<BluefloodMetric>>)
    ensures |r| == |ps|
  {
    seq(|ps|, i requires 0 <= i < |ps| => Some(ps[i]))
  }

  /** The queue after enqueuing `items` one by one into `q`. */
  function Fill(q: Batch, items: seq<Option<BluefloodMetric>>): Batch
    decreases |items|
  {
    if items == [] then q
    else Fill(Appended(q, items[0]), items[1..])
  }

  /** What one enqueue posts, given the queue it leaves: the whole queue
      when it holds more than MaxQueue points, and nothing otherwise. */
  function PostIfFull(q: Batch): seq<Batch>
  {
    if |q| > MaxQueue then [q] else []
  }

  /** The batches posted while enqueuing `items` one by one into `q`: each
      enqueue that leaves more than MaxQueue points posts the whole queue,
      which is never emptied. */
  function Posts(q: Batch, items: seq<Option<BluefloodMetric>>): seq<Batch>
    decreases |items|
  {
    if items == [] then []
    else
      var q' := Appended(q, items[0]);
      PostIfFull(q') + Posts(q', items[1..])
  }

  /** Enqueuing only appends: the queue ends as the old queue followed by
      the non-nil points, in the order given. */
  lemma {:induction false} FillAppendsPresent(q: Batch, items: seq<Option<BluefloodMetric>>)
    ensures Fill(q, items) == q + Present(items)
    decreases |items|
  {
    if items != [] {
      FillAppendsPresent(Appended(q, items[0]), items[1..]);
    }
  }

  lemma {:induction false} PresentOfWrap(ps: Batch)
    ensures Present(Wrap(ps)) == ps
    decreases |ps|
  {
    if ps != [] {
      assert Wrap(ps)[1..] == Wrap(ps[1..]);
      PresentOfWrap(ps[1..]);
    }
  }

  lemma WrapSnoc(ps: Batch, p: BluefloodMetric)
    ensures Wrap(ps + [p]) == Wrap(ps) + [Some(p)]
  {
  }

  /** Enqueuing `a` and then `b` posts what `a` posts, then what `b` posts
      from where `a` left the queue. */
  lemma {:induction false} PostsSplit(q: Batch, a: seq<Option<BluefloodMetric>>, b: seq<Option<BluefloodMetric>>)
    ensures Posts(q, a + b) == Posts(q, a) + Posts(Fill(q, a), b)
    decreases |a|
  {
    if a == [] {
      assert a + b == b;
    } else {
      var q' := Appended(q, a[0]);
      var t := a[1..];
      HeadTailOfConcat(a, b);
      PostsSplit(q', t, b);
      assert PostIfFull(q') + (Posts(q', t) + Posts(Fill(q', t), b))
          == (PostIfFull(q') + Posts(q', t)) + Posts(Fill(q', t), b);
    }
  }

  lemma HeadTailOfConcat<T>(a: seq<T>, b: seq<T>)
    requires a != []
    ensures (a + b)[0] == a[0] && (a + b)[1..] == a[1..] + b
  {
  }

  /** Enqueuing one more point posts what enqueuing it after the others does. */
  lemma PostsSnoc(q: Batch, ps: Batch, p: BluefloodMetric)
    ensures Posts(q, Wrap(ps + [p])) == Posts(q, Wrap(ps)) + (if |q + ps + [p]| > MaxQueue then [q + ps + [p]] else [])
  {
    WrapSnoc(ps, p);
    PostsSplit(q, Wrap(ps), [Some(p)]);
    PresentOfWrap(ps);
    FillAppendsPresent(q, Wrap(ps));
    assert [Some(p)][1..] == [];
  }

  /** Because the queue is never emptied, a run of more than MaxQueue points
      from an empty queue ends with a post of every point it enqueued. */
  lemma LastPostHoldsEverything(ps: Batch, p: BluefloodMetric)
    requires |ps| + 1 > MaxQueue
    ensures Posts([], Wrap(ps + [p])) != []
    ensures Posts([], Wrap(ps + [p]))[|Posts([], Wrap(ps + [p]))| - 1] == ps + [p]
  {
    PostsSnoc([], ps, p);
    assert [] + ps + [p] == ps + [p];
  }

  /** Every posted batch is a prefix of the final queue and is over the
      threshold. */
  lemma {:induction false} PostsArePrefixes(q: Batch, items: seq<Option<BluefloodMetric>>)
    ensures forall i :: 0 <= i < |Posts(q, items)| ==>
              Posts(q, items)[i] <= Fill(q, items) && |Posts(q, items)[i]| > MaxQueue
    decreases |items|
  {
    if items != [] {
      var q' := Appended(q, items[0]);
      PostsArePrefixes(q', items[1..]);
      FillAppendsPresent(q', items[1..]);
    }
  }

  /** As long as the queue never grows past MaxQueue points nothing is posted. */
  lemma {:induction false} QuietUpToThreshold(q: Batch, items: seq<Option<BluefloodMetric>>)
    requires |q| + |Present(items)| <= MaxQueue
    ensures Posts(q, items) == []
    decreases |items|
  {
    if items != [] {
      var q' := Appended(q, items[0]);
      assert |Present(items)| == |Appended([], items[0])| + |Present(items[1..])|;
      QuietUpToThreshold(q', items[1..]);
    }
  }

  /** From an empty queue, 1500 points post nothing and the 1501st posts one
      batch holding all 1501 points. */
  lemma FirstPostAtThreshold(ps: Batch)
    requires |ps| == MaxQueue + 1
    ensures Posts([], Wrap(ps[..MaxQueue])) == []
    ensures Posts([], Wrap(ps)) == [ps]
  {
    var head := ps[..MaxQueue];
    var last := ps[MaxQueue];
    assert ps == head + [last];
    WrapSnoc(head, last);
    PresentOfWrap(head);
    QuietUpToThreshold([], Wrap(head));
    PostsSplit([], Wrap(head), [Some(last)]);
    FillAppendsPresent([], Wrap(head));
    assert Fill([], Wrap(head)) == head;
    PostsOne(head, last);
  }

  /** One enqueue of a point that takes the queue past MaxQueue posts it. */
  lemma PostsOne(q: Batch, p: BluefloodMetric)
    requires |q| >= MaxQueue
    ensures Posts(q, [Some(p)]) == [q + [p]]
  {
    assert [Some(p)][1..] == [];
  }

  /** Once past the threshold, every enqueue, even of a nil point, posts the
      whole queue again as it stands after that enqueue. */
  lemma {:induction false} ResendsAfterThreshold(q: Batch, items: seq<Option<BluefloodMetric>>)
    requires |q| > MaxQueue
    ensures |Posts(q, items)| == |items|
    ensures forall i :: 0 <= i < |items| ==> Posts(q, items)[i] == Fill(q, items[..i + 1])
    decreases |items|
  {
    if items != [] {
      var q' := Appended(q, items[0]);
      ResendsAfterThreshold(q', items[1..]);
      forall i | 0 <= i < |items|
        ensures Posts(q, items)[i] == Fill(q, items[..i + 1])
      {
        if i > 0 {
          assert items[..i + 1][1..] == items[1..][..i];
        }
      }
    }
  }

  // ---------------------------------------------------------------------
  // A buffer that empties itself after each post (the corrected behaviour of
  // the Findings row).
  // ---------------------------------------------------------------------

  /** All points of the batches, in order. */
  function Concat(bs: seq<Batch>): Batch
  {
    if bs == [] then [] else bs[0] + Concat(bs[1..])
  }

  /** The queue left by a run of enqueues that clear the queue after posting. */
  function FillClearing(q: Batch, items: seq<Option<BluefloodMetric>>): Batch
    decreases |items|
  {
    if items == [] then q
    else
      var q' := Appended(q, items[0]);
      FillClearing(if |q'| > MaxQueue then [] else q', items[1..])
  }

  /** The batches posted by a run of enqueues that clear the queue after posting. */
  function PostsClearing(q: Batch, items: seq<Option<BluefloodMetric>>): seq<Batch>
    decreases |items|
  {
    if items == [] then []
    else
      var q' := Appended(q, items[0]);
      if |q'| > MaxQueue then [q'] + PostsClearing([], items[1..])
      else PostsClearing(q', items[1..])
  }

  /** With clearing, every point is posted exactly once or is still queued:
      the posted batches followed by the queue are the old queue followed by
      the enqueued points. Batches hold MaxQueue + 1 points and the queue
      stays at or below MaxQueue. */
  lemma ClearingPostsEachPointOnce(q: Batch, items: seq<Option<BluefloodMetric>>)
    requires |q| <= MaxQueue
    ensures Concat(PostsClearing(q, items)) + FillClearing(q, items) == q + Present(items)
    ensures |FillClearing(q, items)| <= MaxQueue
    ensures forall i :: 0 <= i < |PostsClearing(q, items)| ==> |PostsClearing(q, items)[i]| == MaxQueue + 1
  {
    ClearingKeepsEveryPoint(q, items);
    ClearingSizes(q, items);
  }

  /** The posted batches followed by the queue are the old queue followed by
      the enqueued points. */
  lemma {:induction false} ClearingKeepsEveryPoint(q: Batch, items: seq<Option<BluefloodMetric>>)
    ensures Concat(PostsClearing(q, items)) + FillClearing(q, items) == q + Present(items)
    decreases |items|
  {
    if items != [] {
      var q' := Appended(q, items[0]);
      var rest := items[1..];
      AppendedThenPresent(q, items);
      if |q'| > MaxQueue {
        ClearingKeepsEveryPoint([], rest);
        PostThenRest(q', PostsClearing([], rest), FillClearing([], rest), Present(rest));
      } else {
        ClearingKeepsEveryPoint(q', rest);
      }
    }
  }

  /** A posted batch in front of the later batches and the queue. */
  lemma PostThenRest(b: Batch, bs: seq<Batch>, f: Batch, p: Batch)
    requires Concat(bs) + f == [] + p
    ensures Concat([b] + bs) + f == b + p
  {
    ConcatCons(b, bs);
    assert [] + p == p;
    assert b + Concat(bs) + f == b + (Concat(bs) + f);
  }

  /** Enqueuing the first item and then the rest appends the same points. */
  lemma AppendedThenPresent(q: Batch, items: seq<Option<BluefloodMetric>>)
    requires items != []
    ensures q + Present(items) == Appended(q, items[0]) + Present(items[1..])
  {
    var rest := Present(items[1..]);
    match items[0]
    case None =>
      assert Present(items) == rest;
    case Some(p) =>
      assert Present(items) == [p] + rest;
      assert q + ([p] + rest) == (q + [p]) + rest;
  }

  lemma ConcatCons(b: Batch, bs: seq<Batch>)
    ensures Concat([b] + bs) == b + Concat(bs)
  {
    assert ([b] + bs)[1..] == bs;
  }

  /** Batches hold MaxQueue + 1 points and the queue stays at or below MaxQueue. */
  lemma {:induction false} ClearingSizes(q: Batch, items: seq<Option<BluefloodMetric>>)
    requires |q| <= MaxQueue
    ensures |FillClearing(q, items)| <= MaxQueue
    ensures forall i :: 0 <= i < |PostsClearing(q, items)| ==> |PostsClearing(q, items)[i]| == MaxQueue + 1
    decreases |items|
  {
    if items != [] {
      var q' := Appended(q, items[0]);
      if |q'| > MaxQueue {
        ClearingSizes([], items[1..]);
      } else {
        ClearingSizes(q', items[1..]);
      }
    }
  }

  /** The queue as written is never cleared: from an empty queue, 1502
      points post two batches, and the first point is in both. */
  lemma FirstPointPostedTwice(ps: Batch)
    requires |ps| == MaxQueue + 2
    ensures Posts([], Wrap(ps)) == [ps[..MaxQueue + 1], ps]
    ensures ps[0] in Posts([], Wrap(ps))[0] && ps[0] in Posts([], Wrap(ps))[1]
  {
    var head := ps[..MaxQueue + 1];
    var last := ps[MaxQueue + 1];
    assert ps == head + [last];
    WrapSnoc(head, last);
    FirstPostAtThreshold(head);
    PostsSplit([], Wrap(head), [Some(last)]);
    PresentOfWrap(head);
    FillAppendsPresent([], Wrap(head));
    assert Fill([], Wrap(head)) == head;
    PostsOne(head, last);
    assert head[0] == ps[0];
  }

  // ---------------------------------------------------------------------
  // The buffer object.
  // ---------------------------------------------------------------------

  class BluefloodBuffer {
    /** The points waiting to be posted. */
    var queue: Batch
    /** Every batch handed to the endpoint so far, in order. */
    ghost var posted: seq<Batch>

    /** The queue only grows, so each batch posted so far is a prefix of it. */
    ghost predicate Valid()
      reads this
    {
      forall i :: 0 <= i < |posted| ==> posted[i] <= queue
    }

    constructor ()
      ensures Valid() && queue == [] && posted == []
    {
      queue := [];
      posted := [];
    }

    /** Posts the whole queue and leaves it as it is. */
    method Send(endpoint: Endpoint) returns (r: Outcome<SendError>)
      requires Valid()
      modifies this
      ensures Valid()
      ensures queue == old(queue)
      ensures posted == old(posted) + [queue]
      ensures r == CheckResponse(endpoint(queue))
    {
      posted := posted + [queue];
      r := CheckResponse(endpoint(queue));
    }

    /** Appends a non-nil point, then posts the queue when it holds more
      than MaxQueue points. */
    method Enqueue(m: Option<BluefloodMetric>, endpoint: Endpoint) returns (r: Outcome<SendError>)
      requires Valid()
      modifies this
      ensures Valid()
      ensures queue == Appended(old(queue), m)
      ensures posted == old(posted) + (if |queue| > MaxQueue then [queue] else [])
      ensures r == if |queue| > MaxQueue then CheckResponse(endpoint(queue)) else Pass
      ensures queue == Fill(old(queue), [m]) && posted == old(posted) + Posts(old(queue), [m])
    {
      if m.Some? {
        queue := queue + [m.value];
      }
      if |queue| > MaxQueue {
        r := Send(endpoint);
      } else {
        r := Pass;
      }
    }
  }
}
