/** Handing the input lines to the workers in round-robin order, as the
    main loop of the shim does: line i goes to worker i mod jobs. */
module Dispatch {
  import opened Wrappers

  /** How the start-up and the dispatch loop stop the shim: a negative job
      count makes the wait group's counter negative, and a line with no
      worker to take it indexes past the empty worker slice. */
  datatype DispatchError = NegativeJobCount | NoWorkers

  /** The worker after `j` in round-robin order. */
  function NextWorker(j: nat, jobs: nat): (r: nat)
    requires j < jobs
    ensures r < jobs
    ensures r == if j + 1 == jobs then 0 else j + 1
  {
    (j + 1) % jobs
  }

  /** Stepping the counter keeps it equal to the line number modulo jobs. */
  lemma NextWorkerTracksLine(i: nat, jobs: nat)
    requires jobs > 0
    ensures (i + 1) % jobs == NextWorker(i % jobs, jobs)
  {
    var q, r := i / jobs, i % jobs;
    if r + 1 < jobs {
      ModUnique(i + 1, jobs, q, r + 1);
    } else {
      assert i + 1 == (q + 1) * jobs;
      ModUnique(i + 1, jobs, q + 1, 0);
    }
  }

  lemma MulAtLeast(d: int, m: int)
    requires d >= 1 && m > 0
    ensures d * m >= m
  {
    assert d * m == (d - 1) * m + m;
  }

  /** The remainder is the only r in [0, m) with a == q * m + r. */
  lemma ModUnique(a: int, m: int, q: int, r: int)
    requires m > 0 && 0 <= r < m && a == q * m + r
    ensures a % m == r
  {
    var q0, r0 := a / m, a % m;
    assert a == q0 * m + r0;
    assert (q - q0) * m == r0 - r;
    if q - q0 >= 1 {
      MulAtLeast(q - q0, m);
    } else if q0 - q >= 1 {
      MulAtLeast(q0 - q, m);
    }
  }

  /** The line numbers below n that worker w takes, in increasing order. */
  function IndicesOf(n: nat, jobs: nat, w: nat): seq<nat>
    requires jobs > 0
  {
    if n == 0 then []
    else IndicesOf(n - 1, jobs, w) + (if (n - 1) % jobs == w then [n - 1] else [])
  }

  /** The lines worker w receives, in the order it receives them. */
  function LinesOf(lines: seq<string>, jobs: nat, w: nat): seq<string>
    requires jobs > 0
    decreases |lines|
  {
    if lines == [] then []
    else
      var n := |lines| - 1;
      LinesOf(lines[..n], jobs, w) + (if n % jobs == w then [lines[n]] else [])
  }

  /** Every worker's lines. */
  function Assignment(lines: seq<string>, jobs: nat): (r: seq<seq<string>>)
    ensures |r| == jobs
  {
    seq(jobs, w requires 0 <= w < jobs => LinesOf(lines, jobs, w))
  }

  /** A line number belongs to worker w exactly when it is below n and
      congruent to w: every line goes to one worker, worker i mod jobs. */
  lemma {:induction false} IndicesOfMembership(n: nat, jobs: nat, w: nat, i: nat)
    requires jobs > 0
    ensures i in IndicesOf(n, jobs, w) <==> i < n && i % jobs == w
    decreases n
  {
    if n > 0 {
      IndicesOfMembership(n - 1, jobs, w, i);
    }
  }

  /** Each worker gets its line numbers in strictly increasing order. */
  lemma {:induction false} IndicesOfAscending(n: nat, jobs: nat, w: nat)
    requires jobs > 0
    ensures forall a, b :: 0 <= a < b < |IndicesOf(n, jobs, w)| ==> IndicesOf(n, jobs, w)[a] < IndicesOf(n, jobs, w)[b]
    ensures forall a :: 0 <= a < |IndicesOf(n, jobs, w)| ==> IndicesOf(n, jobs, w)[a] < n
    decreases n
  {
    if n > 0 {
      IndicesOfAscending(n - 1, jobs, w);
    }
  }

  /** Worker w's k-th line is the input line numbered by its k-th index. */
  lemma {:induction false} LinesOfByIndex(lines: seq<string>, jobs: nat, w: nat)
    requires jobs > 0
    ensures |LinesOf(lines, jobs, w)| == |IndicesOf(|lines|, jobs, w)|
    ensures forall k :: 0 <= k < |LinesOf(lines, jobs, w)| ==>
              IndicesOf(|lines|, jobs, w)[k] < |lines| &&
              LinesOf(lines, jobs, w)[k] == lines[IndicesOf(|lines|, jobs, w)[k]]
    decreases |lines|
  {
    if lines != [] {
      var n := |lines| - 1;
      LinesOfByIndex(lines[..n], jobs, w);
      IndicesOfAscending(n, jobs, w);
    }
  }

  /** All workers' lines, one worker after the other. */
  function Flat(qs: seq<seq<string>>): seq<string>
  {
    if qs == [] then [] else qs[0] + Flat(qs[1..])
  }

  /** Adding a line to one worker adds it once to all workers' lines together. */
  lemma {:induction false} FlatAppend(qs: seq<seq<string>>, w: nat, x: string)
    requires w < |qs|
    ensures multiset(Flat(qs[w := qs[w] + [x]])) == multiset(Flat(qs)) + multiset{x}
    decreases |qs|
  {
    var qs' := qs[w := qs[w] + [x]];
    if w == 0 {
      assert qs'[1..] == qs[1..];
    } else {
      assert qs'[1..] == qs[1..][w - 1 := qs[w] + [x]];
      FlatAppend(qs[1..], w - 1, x);
    }
  }

  /** The workers together receive every line exactly as often as it occurs
      in the input: the assignment is a partition of the lines. */
  lemma {:induction false} AssignmentPartitions(lines: seq<string>, jobs: nat)
    requires jobs > 0
    ensures multiset(Flat(Assignment(lines, jobs))) == multiset(lines)
    decreases |lines|
  {
    if lines == [] {
      FlatOfEmpties(Assignment(lines, jobs));
    } else {
      var n := |lines| - 1;
      var init := lines[..n];
      AssignmentPartitions(init, jobs);
      AssignmentSnoc(lines, jobs);
      FlatAppend(Assignment(init, jobs), n % jobs, lines[n]);
      assert lines == init + [lines[n]];
    }
  }

  /** The last line goes to worker (number of lines - 1) mod jobs, after
      what that worker already had; the other workers are unchanged. */
  lemma AssignmentSnoc(lines: seq<string>, jobs: nat)
    requires jobs > 0 && lines != []
    ensures Assignment(lines, jobs) ==
            Assignment(lines[..|lines| - 1], jobs)[(|lines| - 1) % jobs :=
              Assignment(lines[..|lines| - 1], jobs)[(|lines| - 1) % jobs] + [lines[|lines| - 1]]]
  {
    var n := |lines| - 1;
    var before := Assignment(lines[..n], jobs);
    forall w | 0 <= w < jobs
      ensures Assignment(lines, jobs)[w] == before[n % jobs := before[n % jobs] + [lines[n]]][w]
    {
      assert Assignment(lines, jobs)[w] == LinesOf(lines, jobs, w);
    }
  }

  /** Workers that have received nothing hold no lines between them. */
  lemma {:induction false} FlatOfEmpties(qs: seq<seq<string>>)
    requires forall w :: 0 <= w < |qs| ==> qs[w] == []
    ensures Flat(qs) == []
    decreases |qs|
  {
    if qs != [] {
      FlatOfEmpties(qs[1..]);
    }
  }

  /** Starts `jobs` workers and hands them the lines round-robin. The result
      is each worker's inbound lines. */
  method DispatchLines(lines: seq<string>, jobs: int) returns (r: Result<seq<seq<string>>, DispatchError>)
    ensures jobs < 0 ==> r == Failure(NegativeJobCount)
    ensures jobs == 0 && lines != [] ==> r == Failure(NoWorkers)
    ensures jobs > 0 || (jobs == 0 && lines == []) ==> r == Success(Assignment(lines, jobs))
  {
    if jobs < 0 {
      return Failure(NegativeJobCount);
    }
    var workers: seq<seq<string>> := seq(jobs, _ => []);
    var j := 0;
    var i := 0;
    while i < |lines|
      invariant 0 <= i <= |lines|
      invariant |workers| == jobs
      invariant jobs > 0 ==> j == i % jobs
      invariant jobs > 0 ==> forall w :: 0 <= w < jobs ==> workers[w] == LinesOf(lines[..i], jobs, w)
      invariant jobs == 0 ==> i == 0
    {
      if jobs == 0 {
        return Failure(NoWorkers);
      }
      assert lines[..i + 1][..i] == lines[..i];
      workers := workers[j := workers[j] + [lines[i]]];
      NextWorkerTracksLine(i, jobs);
      j := NextWorker(j, jobs);
      i := i + 1;
    }
    assert lines[..i] == lines;
    assert workers == Assignment(lines, jobs) by {
      forall w | 0 <= w < jobs ensures workers[w] == Assignment(lines, jobs)[w] {
      }
    }
    return Success(workers);
  }
}
