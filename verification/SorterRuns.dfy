/**
 `graphlib.py`, whole runs of the sorter after `prepare`: what a caller sees when reports may be repeated or come too
 early, and exactly when what the sorter says is true.
 */
module SorterRuns {
  import opened Graphs
  import opened Sequences

  /** `done` with several nodes is several reports. */
  datatype Call = GetReady | Done(node: Node)

  datatype Books = Books(remaining: map<Node, int>, ready: seq<Node>, nfinished: nat, history: seq<Node>)

  predicate Fits(g: Graph, keys: seq<Node>, b: Books) {
    Elements(keys) == g.Keys == b.remaining.Keys
  }

  function Apply(g: Graph, keys: seq<Node>, b: Books, c: Call): (r: Books)
    requires Fits(g, keys, b)
    ensures Fits(g, keys, r)
  {
    match c
    case GetReady => b.(ready := [], history := b.history + b.ready)
    case Done(n) =>
      if n !in g then b
      else Books(Decremented(g, b.remaining, n), b.ready + Opened(g, keys, b.remaining, n), b.nfinished + 1, b.history)
  }

  /** The books after the calls, in order. */
  function After(g: Graph, keys: seq<Node>, b: Books, calls: seq<Call>): (r: Books)
    requires Fits(g, keys, b)
    ensures Fits(g, keys, r)
  {
    if calls == [] then b
    else Apply(g, keys, After(g, keys, b, calls[..|calls| - 1]), calls[|calls| - 1])
  }

  /** The books that `prepare` leaves. */
  ghost predicate Started(g: Graph, keys: seq<Node>, b: Books) {
    && Known(g, keys, b.remaining) && b.nfinished == 0 && b.history == []
    && InStep(g, b.remaining, b.ready, 0, 0, [], {})
  }

  lemma StartedFits(g: Graph, keys: seq<Node>, b: Books)
    requires Started(g, keys, b)
    ensures Fits(g, keys, b) && Closed(g)
  {
  }

  function IsReport(c: Call, s: set<Node>): (k: nat)
    ensures k <= 1
  {
    if c.Done? && c.node in s then 1 else 0
  }

  /** How many reports name a node of `s`, repeated ones included. */
  function Reports(calls: seq<Call>, s: set<Node>): (k: nat) {
    if calls == [] then 0 else Reports(calls[..|calls| - 1], s) + IsReport(calls[|calls| - 1], s)
  }

  /** A report that tells something new: the node was handed out, and it was not finished yet. */
  predicate Proper(g: Graph, keys: seq<Node>, b: Books, calls: seq<Call>, i: nat)
    requires Fits(g, keys, b) && i < |calls| && calls[i].Done?
  {
    calls[i].node in After(g, keys, b, calls[..i]).history && calls[i].node !in Finished(g, keys, b, calls[..i])
  }

  /** The nodes that were handed out and then reported. */
  function Finished(g: Graph, keys: seq<Node>, b: Books, calls: seq<Call>): (r: set<Node>)
    requires Fits(g, keys, b)
  {
    if calls == [] then {}
    else
      var init, c := calls[..|calls| - 1], calls[|calls| - 1];
      Finished(g, keys, b, init)
      + if c.Done? && c.node in After(g, keys, b, init).history then {c.node} else {}
  }

  // ---------- one more call ----------

  lemma OneMoreCall(g: Graph, keys: seq<Node>, b: Books, calls: seq<Call>, t: nat, s: set<Node>)
    requires Fits(g, keys, b) && t < |calls|
    ensures After(g, keys, b, calls[..t + 1]) == Apply(g, keys, After(g, keys, b, calls[..t]), calls[t])
    ensures Reports(calls[..t + 1], s) == Reports(calls[..t], s) + IsReport(calls[t], s)
    ensures Finished(g, keys, b, calls[..t + 1]) == Finished(g, keys, b, calls[..t])
      + if calls[t].Done? && calls[t].node in After(g, keys, b, calls[..t]).history then {calls[t].node} else {}
  {
    assert calls[..t + 1][..t] == calls[..t];
  }

  lemma {:induction false} ReportsGrow(calls: seq<Call>, t: nat, u: nat, s: set<Node>)
    requires t <= u <= |calls|
    ensures Reports(calls[..t], s) <= Reports(calls[..u], s) && Reports(calls[..0], s) == 0
  {
    if t < u {
      ReportsGrow(calls, t, u - 1, s);
      assert calls[..u][..u - 1] == calls[..u - 1];
    }
  }

  lemma {:induction false} FinishedGrows(g: Graph, keys: seq<Node>, b: Books, calls: seq<Call>, t: nat, u: nat)
    requires Fits(g, keys, b) && t <= u <= |calls|
    ensures Finished(g, keys, b, calls[..t]) <= Finished(g, keys, b, calls[..u])
  {
    if t < u {
      FinishedGrows(g, keys, b, calls, t, u - 1);
      OneMoreCall(g, keys, b, calls, u - 1, {});
    }
  }

  /** The moment at which the reports about `s` have become `k`. */
  lemma {:induction false} Moment(calls: seq<Call>, s: set<Node>, k: nat) returns (u: nat)
    requires k <= Reports(calls, s)
    ensures u <= |calls| && Reports(calls[..u], s) == k
  {
    if k == Reports(calls, s) {
      u := |calls|;
      assert calls[..u] == calls;
    } else {
      var init := calls[..|calls| - 1];
      u := Moment(init, s, k);
      assert init[..u] == calls[..u];
    }
  }

  // ---------- what the sorter says, whatever is reported ----------

  ghost predicate CountsReports(g: Graph, b: Books, calls: seq<Call>) {
    && b.remaining.Keys == g.Keys
    && (forall x | x in g :: b.remaining[x] == |g[x]| - Reports(calls, g[x]))
    && b.nfinished == Reports(calls, g.Keys)
  }

  ghost predicate OffersByCount(g: Graph, b: Books, calls: seq<Call>) {
    && Distinct(b.history + b.ready)
    && (forall x | x in b.history + b.ready :: x in g)
    && forall x | x in g :: x in b.history + b.ready <==> Reports(calls, g[x]) >= |g[x]|
  }

  lemma StartCounts(g: Graph, keys: seq<Node>, b: Books)
    requires Started(g, keys, b)
    ensures CountsReports(g, b, []) && OffersByCount(g, b, [])
  {
    assert [] + b.ready == b.ready;
    assert Offered(g, b.ready, {}) && Counted(g, b.remaining, {});
    forall x | x in g ensures b.remaining[x] == |g[x]| && (x in b.ready <==> |g[x]| <= 0) {
      NoneMissing(g[x]);
      assert g[x] - {} == g[x];
    }
    forall i | 0 <= i < |b.ready| ensures b.ready[i] in g {
    }
  }

  lemma ReportCounts(g: Graph, keys: seq<Node>, b: Books, calls: seq<Call>, n: Node)
    requires Known(g, keys, b.remaining) && n in g && CountsReports(g, b, calls)
    ensures CountsReports(g, Apply(g, keys, b, Done(n)), calls + [Done(n)])
  {
    assert (calls + [Done(n)])[..|calls|] == calls;
  }

  /** A report opens exactly the nodes whose count it completes. */
  lemma ReportOpens(g: Graph, keys: seq<Node>, b: Books, calls: seq<Call>, n: Node, x: Node)
    requires Known(g, keys, b.remaining) && n in g && x in g && CountsReports(g, b, calls)
    ensures x in Opened(g, keys, b.remaining, n)
            <==> Reports(calls, g[x]) < |g[x]| && Reports(calls + [Done(n)], g[x]) >= |g[x]|
  {
    assert (calls + [Done(n)])[..|calls|] == calls;
    assert x in Elements(keys);
    hide Opened, Distinct, Closed;
  }

  lemma ReportOffers(g: Graph, keys: seq<Node>, b: Books, calls: seq<Call>, n: Node)
    requires Known(g, keys, b.remaining) && n in g && CountsReports(g, b, calls) && OffersByCount(g, b, calls)
    ensures OffersByCount(g, Apply(g, keys, b, Done(n)), calls + [Done(n)])
  {
    hide Opened, Decremented, Reports, CountsReports;
    var more, offered := Opened(g, keys, b.remaining, n), b.history + b.ready;
    assert b.history + (b.ready + more) == offered + more;
    forall x | x in more ensures x in g && x !in offered {
      assert x in Elements(keys);
      ReportOpens(g, keys, b, calls, n, x);
    }
    DistinctAppend(offered, more);
    forall x | x in g ensures x in offered + more <==> Reports(calls + [Done(n)], g[x]) >= |g[x]| {
      ReportOpens(g, keys, b, calls, n, x);
      ReportsSnoc(calls, Done(n), g[x]);
    }
  }

  lemma ReportsSnoc(calls: seq<Call>, c: Call, s: set<Node>)
    ensures Reports(calls + [c], s) == Reports(calls, s) + IsReport(c, s)
  {
    assert (calls + [c])[..|calls|] == calls;
  }

  lemma SameReports(g: Graph, b: Books, b': Books, calls: seq<Call>, c: Call)
    requires CountsReports(g, b, calls) && OffersByCount(g, b, calls)
    requires c.GetReady? || c.node !in g
    requires Closed(g) && b'.remaining == b.remaining && b'.nfinished == b.nfinished
    requires b'.history + b'.ready == b.history + b.ready
    ensures CountsReports(g, b', calls + [c]) && OffersByCount(g, b', calls + [c])
  {
    hide Distinct;
    forall s | s <= g.Keys ensures Reports(calls + [c], s) == Reports(calls, s) {
      ReportsSnoc(calls, c, s);
    }
  }

  /**
   Whatever is reported: a node is offered once, and exactly when its predecessors were named in as many reports as
   it has predecessors, and the reports left over are what `is_active` looks at.
   */
  lemma {:induction false} OfferedByCount(g: Graph, keys: seq<Node>, b: Books, calls: seq<Call>)
    requires Started(g, keys, b)
    ensures Fits(g, keys, b)
    ensures var r := After(g, keys, b, calls);
            && Distinct(r.history + r.ready)
            && (forall x | x in r.history + r.ready :: x in g)
            && (forall x | x in g :: x in r.history + r.ready <==> Reports(calls, g[x]) >= |g[x]|)
            && r.nfinished == Reports(calls, g.Keys)
  {
    StartedFits(g, keys, b);
    OfferedAfter(g, keys, b, calls);
  }

  lemma {:induction false} OfferedAfter(g: Graph, keys: seq<Node>, b: Books, calls: seq<Call>)
    requires Started(g, keys, b) && Fits(g, keys, b)
    ensures var r := After(g, keys, b, calls);
            Known(g, keys, r.remaining) && CountsReports(g, r, calls) && OffersByCount(g, r, calls)
  {
    if calls == [] {
      StartCounts(g, keys, b);
    } else {
      var init, c := calls[..|calls| - 1], calls[|calls| - 1];
      OfferedAfter(g, keys, b, init);
      hide Started, CountsReports, OffersByCount, Opened, Decremented, Distinct, Reports;
      var r := After(g, keys, b, init);
      assert calls == init + [c];
      if c.Done? && c.node in g {
        ReportCounts(g, keys, r, init, c.node);
        ReportOffers(g, keys, r, init, c.node);
      } else {
        assert r.history + r.ready + [] == r.history + r.ready;
        SameReports(g, r, Apply(g, keys, r, c), init, c);
      }
    }
  }

  // ---------- exactly when it is true ----------

  /** As long as the reports about `s` are fewer than its nodes, each of them is proper. */
  predicate FirstProper(g: Graph, keys: seq<Node>, b: Books, calls: seq<Call>, s: set<Node>)
    requires Fits(g, keys, b)
  {
    forall i | 0 <= i < |calls| && IsReport(calls[i], s) == 1 && Reports(calls[..i], s) < |s| ::
      Proper(g, keys, b, calls, i)
  }

  predicate ProperUpTo(g: Graph, keys: seq<Node>, b: Books, calls: seq<Call>, s: set<Node>, t: nat)
    requires Fits(g, keys, b) && t <= |calls|
  {
    forall i | 0 <= i < t && IsReport(calls[i], s) == 1 :: Proper(g, keys, b, calls, i)
  }

  /** Each proper report finishes one node more, any other report none. */
  lemma {:induction false} ProperCount(g: Graph, keys: seq<Node>, b: Books, calls: seq<Call>, s: set<Node>, t: nat)
    requires Fits(g, keys, b) && t <= |calls|
    ensures var k := |Finished(g, keys, b, calls[..t]) * s|;
            && k <= Reports(calls[..t], s)
            && (k == Reports(calls[..t], s) <==> ProperUpTo(g, keys, b, calls, s, t))
  {
    if t == 0 {
      assert {} * s == {};
      assert calls[..0] == [];
    } else {
      ProperCount(g, keys, b, calls, s, t - 1);
      ProperSnoc(g, keys, b, calls, s, t - 1);
      FinishedSnoc(g, keys, b, calls, s, t - 1);
      OneMoreCall(g, keys, b, calls, t - 1, s);
      hide *;
    }
  }

  lemma ProperSnoc(g: Graph, keys: seq<Node>, b: Books, calls: seq<Call>, s: set<Node>, t: nat)
    requires Fits(g, keys, b) && t < |calls|
    ensures ProperUpTo(g, keys, b, calls, s, t + 1)
            <==> ProperUpTo(g, keys, b, calls, s, t) && (IsReport(calls[t], s) == 1 ==> Proper(g, keys, b, calls, t))
  {
    hide Proper, IsReport, Fits;
  }

  lemma FinishedSnoc(g: Graph, keys: seq<Node>, b: Books, calls: seq<Call>, s: set<Node>, t: nat)
    requires Fits(g, keys, b) && t < |calls|
    ensures |Finished(g, keys, b, calls[..t + 1]) * s| == |Finished(g, keys, b, calls[..t]) * s|
              + if IsReport(calls[t], s) == 1 && Proper(g, keys, b, calls, t) then 1 else 0
  {
    OneMoreCall(g, keys, b, calls, t, s);
    hide Reports, After, Apply, Finished, Fits;
    var f, f' := Finished(g, keys, b, calls[..t]), Finished(g, keys, b, calls[..t + 1]);
    if IsReport(calls[t], s) == 1 && Proper(g, keys, b, calls, t) {
      OneMoreIn(f, s, calls[t].node);
    } else {
      assert f' * s == f * s;
    }
  }

  lemma OneMoreIn<T>(f: set<T>, s: set<T>, n: T)
    requires n in s && n !in f
    ensures |(f + {n}) * s| == |f * s| + 1
  {
    assert (f + {n}) * s == f * s + {n};
  }

  lemma Covered<T>(f: set<T>, s: set<T>)
    ensures |f * s| <= |s| && (|f * s| == |s| <==> s <= f)
  {
    assert s == f * s + (s - f);
    if s <= f {
      assert f * s == s;
    }
    if |f * s| == |s| {
      assert s - f == {};
    }
  }

  /**
   The reports about `s` reach its size only with all of `s` finished, at every moment of the run, exactly when they
   never reach it or those up to there are all proper.
   */
  lemma CountedTruthfullyIff(g: Graph, keys: seq<Node>, b: Books, calls: seq<Call>, s: set<Node>)
    requires Fits(g, keys, b)
    ensures (forall t | 0 <= t <= |calls| ::
               Reports(calls[..t], s) >= |s| <==> s <= Finished(g, keys, b, calls[..t]))
            <==> Reports(calls, s) < |s| || FirstProper(g, keys, b, calls, s)
  {
    hide Reports, Finished, Proper, After, Fits;
    assert calls[..|calls|] == calls;
    forall t | 0 <= t <= |calls| && s <= Finished(g, keys, b, calls[..t]) ensures Reports(calls[..t], s) >= |s| {
      ProperCount(g, keys, b, calls, s, t);
      Covered(Finished(g, keys, b, calls[..t]), s);
    }
    if Reports(calls, s) < |s| {
      forall t | 0 <= t <= |calls| ensures Reports(calls[..t], s) < |s| {
        ReportsGrow(calls, t, |calls|, s);
      }
    } else {
      var u := Moment(calls, s, |s|);
      ProperCount(g, keys, b, calls, s, u);
      Covered(Finished(g, keys, b, calls[..u]), s);
      UntilMoment(g, keys, b, calls, s, u);
      forall t | 0 <= t <= |calls| && s <= Finished(g, keys, b, calls[..u]) && Reports(calls[..t], s) >= |s|
        ensures s <= Finished(g, keys, b, calls[..t])
      {
        AtMoment(g, keys, b, calls, s, u, t);
      }
    }
  }

  /** The reports up to the moment at which they reach the size of `s` are those made before it is reached. */
  lemma UntilMoment(g: Graph, keys: seq<Node>, b: Books, calls: seq<Call>, s: set<Node>, u: nat)
    requires Fits(g, keys, b) && u <= |calls| && Reports(calls[..u], s) == |s|
    ensures FirstProper(g, keys, b, calls, s) <==> ProperUpTo(g, keys, b, calls, s, u)
  {
    hide Reports, Proper, Fits;
    forall i | 0 <= i < |calls| && IsReport(calls[i], s) == 1 ensures i < u <==> Reports(calls[..i], s) < |s| {
      if i < u {
        OneMoreCount(calls, i, s);
        ReportsGrow(calls, i + 1, u, s);
      } else {
        ReportsGrow(calls, u, i, s);
      }
    }
  }

  lemma OneMoreCount(calls: seq<Call>, t: nat, s: set<Node>)
    requires t < |calls|
    ensures Reports(calls[..t + 1], s) == Reports(calls[..t], s) + IsReport(calls[t], s)
  {
    assert calls[..t + 1][..t] == calls[..t];
  }

  /** Where the count is reached and `s` is finished, it is finished at any moment with that count. */
  lemma {:induction false} AtMoment(g: Graph, keys: seq<Node>, b: Books, calls: seq<Call>, s: set<Node>, u: nat, t: nat)
    requires Fits(g, keys, b) && u <= |calls| && t <= |calls| && Reports(calls[..u], s) == |s| <= Reports(calls[..t], s)
    requires s <= Finished(g, keys, b, calls[..u])
    ensures s <= Finished(g, keys, b, calls[..t])
    decreases u
  {
    if u <= t {
      FinishedGrows(g, keys, b, calls, u, t);
    } else {
      ReportsGrow(calls, t, u, s);
      OneMoreCall(g, keys, b, calls, u - 1, s);
      ReportsGrow(calls, t, u - 1, s);
      ReportsGrow(calls, u - 1, u, s);
      AtMoment(g, keys, b, calls, s, u - 1, t);
    }
  }

  /**
   `is_active` is true at every moment of a run exactly while some node is unfinished, if and only if the run makes
   fewer reports than there are nodes or its first reports, as many as nodes, are distinct, handed out and unfinished.
   */
  lemma ActiveTruthfulIff(g: Graph, keys: seq<Node>, b: Books, calls: seq<Call>)
    requires Started(g, keys, b)
    ensures Fits(g, keys, b)
    ensures (forall t | 0 <= t <= |calls| ::
               After(g, keys, b, calls[..t]).nfinished < |g| <==> !(g.Keys <= Finished(g, keys, b, calls[..t])))
            <==> Reports(calls, g.Keys) < |g| || FirstProper(g, keys, b, calls, g.Keys)
  {
    StartedFits(g, keys, b);
    hide Reports, Finished, FirstProper, After, Started;
    forall t | 0 <= t <= |calls|
      ensures After(g, keys, b, calls[..t]).nfinished < |g| <==> Reports(calls[..t], g.Keys) < |g.Keys|
    {
      OfferedByCount(g, keys, b, calls[..t]);
      assert |g| == |g.Keys|;
    }
    CountedTruthfullyIff(g, keys, b, calls, g.Keys);
  }

  /**
   A node is offered at every moment of a run exactly when its predecessors are finished, if and only if the reports
   about them are fewer than they are or the first ones, as many as predecessors, are proper.
   */
  lemma OfferedTruthfulIff(g: Graph, keys: seq<Node>, b: Books, calls: seq<Call>, x: Node)
    requires Started(g, keys, b) && x in g
    ensures Fits(g, keys, b)
    ensures (forall t | 0 <= t <= |calls| ::
               var r := After(g, keys, b, calls[..t]);
               x in r.history + r.ready <==> g[x] <= Finished(g, keys, b, calls[..t]))
            <==> Reports(calls, g[x]) < |g[x]| || FirstProper(g, keys, b, calls, g[x])
  {
    StartedFits(g, keys, b);
    hide Reports, Finished, FirstProper, After, Started;
    forall t | 0 <= t <= |calls|
      ensures var r := After(g, keys, b, calls[..t]);
              x in r.history + r.ready <==> Reports(calls[..t], g[x]) >= |g[x]|
    {
      OfferedByCount(g, keys, b, calls[..t]);
    }
    CountedTruthfullyIff(g, keys, b, calls, g[x]);
  }

  // ---------- proper runs, and two misuses ----------

  predicate AllProper(g: Graph, keys: seq<Node>, b: Books, calls: seq<Call>)
    requires Fits(g, keys, b)
  {
    forall i | 0 <= i < |calls| && calls[i].Done? :: calls[i].node in g && Proper(g, keys, b, calls, i)
  }

  /** In a run of proper reports the books are in step, so what is offered is in topological order. */
  lemma {:induction false} ProperRun(g: Graph, keys: seq<Node>, b: Books, calls: seq<Call>)
    requires Started(g, keys, b)
    ensures Fits(g, keys, b)
    ensures AllProper(g, keys, b, calls) ==>
      var r, f := After(g, keys, b, calls), Finished(g, keys, b, calls);
      && Known(g, keys, r.remaining) && InStep(g, r.remaining, r.ready, |r.history|, r.nfinished, r.history, f)
      && Topological(g, r.history + r.ready)
  {
    StartedFits(g, keys, b);
    if calls == [] {
      assert [] + b.ready == b.ready;
    } else if AllProper(g, keys, b, calls) {
      var t := |calls| - 1;
      var init, c := calls[..t], calls[t];
      ProperBefore(g, keys, b, calls);
      ProperRun(g, keys, b, init);
      OneMoreCall(g, keys, b, calls, t, {});
      assert calls[..t + 1] == calls;
      var r, f := After(g, keys, b, init), Finished(g, keys, b, init);
      hide Started, After, Finished, InStep, Known, Topological;
      match c
      case GetReady => GetReadyKeeps(g, r.remaining, r.ready, |r.history|, r.nfinished, r.history, f);
      case Done(n) =>
        KeysAreNodes(g, keys, r.remaining, n);
        DoneKeeps(g, keys, r.remaining, r.ready, |r.history|, r.nfinished, r.history, f, n);
        KnownKeys(g, keys, r.remaining, Decremented(g, r.remaining, n));
      InOrder(g, After(g, keys, b, calls), Finished(g, keys, b, calls));
    }
  }

  lemma InOrder(g: Graph, r: Books, f: set<Node>)
    requires InStep(g, r.remaining, r.ready, |r.history|, r.nfinished, r.history, f)
    ensures Topological(g, r.history + r.ready)
  {
  }

  lemma ProperBefore(g: Graph, keys: seq<Node>, b: Books, calls: seq<Call>)
    requires Fits(g, keys, b) && calls != [] && AllProper(g, keys, b, calls)
    ensures AllProper(g, keys, b, calls[..|calls| - 1])
  {
    var init := calls[..|calls| - 1];
    forall i | 0 <= i < |init| && init[i].Done? ensures init[i].node in g && Proper(g, keys, b, init, i) {
      assert init[..i] == calls[..i] && calls[i].Done?;
    }
  }

  /** One report for each node. */
  function Each(nodes: seq<Node>): (r: seq<Call>)
    ensures |r| == |nodes|
  {
    if nodes == [] then [] else Each(nodes[..|nodes| - 1]) + [Done(nodes[|nodes| - 1])]
  }

  /** What `done` with several nodes does is what the single reports do. */
  lemma {:induction false} DoneIsReports(g: Graph, keys: seq<Node>, b: Books, nodes: seq<Node>)
    requires Fits(g, keys, b) && forall i | 0 <= i < |nodes| :: nodes[i] in g
    ensures var r := AfterDone(g, keys, b.remaining, b.ready, nodes);
            After(g, keys, b, Each(nodes)) == Books(r.0, r.1, b.nfinished + |nodes|, b.history)
  {
    if nodes != [] {
      var t := |nodes| - 1;
      var init := nodes[..t];
      DoneIsReports(g, keys, b, init);
      assert Each(nodes)[..t] == Each(init) && Each(nodes)[t] == Done(nodes[t]) && nodes[t] in g;
    }
  }

  lemma NotReported(g: Graph, keys: seq<Node>, b: Books, calls: seq<Call>, n: Node)
    requires Fits(g, keys, b) && Reports(calls, {n}) == 0
    ensures n !in Finished(g, keys, b, calls)
  {
    assert calls[..|calls|] == calls;
    ProperCount(g, keys, b, calls, {n}, |calls|);
    MeetsOne(Finished(g, keys, b, calls), n);
  }

  lemma MeetsOne<T>(f: set<T>, n: T)
    ensures |f * {n}| == if n in f then 1 else 0
  {
    assert f * {n} == if n in f then {n} else {};
  }

  lemma TwoReportsOfOne(s: set<Node>)
    ensures Reports([GetReady, Done(1), Done(1)], s) == if 1 in s then 2 else 0
  {
    ReportsSnoc([], GetReady, s);
    ReportsSnoc([GetReady], Done(1), s);
    ReportsSnoc([GetReady, Done(1)], Done(1), s);
    assert [] + [GetReady] == [GetReady] && [GetReady] + [Done(1)] == [GetReady, Done(1)];
    assert [GetReady, Done(1)] + [Done(1)] == [GetReady, Done(1), Done(1)];
  }

  const BOTH: Graph := map[1 := {}, 2 := {}, 3 := {1, 2}]
  const APART: Graph := map[1 := {}, 2 := {}]

  lemma StartOfBoth()
    ensures Started(BOTH, [1, 2, 3], Books(map[1 := 0, 2 := 0, 3 := 2], [1, 2], 0, []))
  {
    var remaining: map<Node, int> := map[1 := 0, 2 := 0, 3 := 2];
    assert {1, 2} - {} == {1, 2} && |{1, 2}| == 2;
    assert BOTH.Keys == {1, 2, 3};
    assert Elements([1, 2, 3]) == {1, 2, 3};
    StartsInStep(BOTH, [1, 2, 3], remaining, [1, 2]);
    hide InStep;
  }

  lemma StartOfApart()
    ensures Started(APART, [1, 2], Books(map[1 := 0, 2 := 0], [1, 2], 0, []))
  {
    var remaining: map<Node, int> := map[1 := 0, 2 := 0];
    assert APART.Keys == {1, 2};
    assert Elements([1, 2]) == {1, 2};
    StartsInStep(APART, [1, 2], remaining, [1, 2]);
    hide InStep;
  }

  lemma ApartSize()
    ensures APART.Keys == {1, 2} && |APART| == 2 && 2 in APART
  {
    assert |APART| == |APART.Keys|;
  }

  /** Node 3 needs 1 and 2: after two reports of 1 it is offered although 2 is unfinished. */
  lemma OfferedTooEarly() returns (b: Books)
    ensures Started(BOTH, [1, 2, 3], b) && Fits(BOTH, [1, 2, 3], b)
    ensures var calls := [GetReady, Done(1), Done(1)];
            var r := After(BOTH, [1, 2, 3], b, calls);
            3 in r.history + r.ready && 2 in BOTH[3] && 2 !in Finished(BOTH, [1, 2, 3], b, calls)
  {
    b := Books(map[1 := 0, 2 := 0, 3 := 2], [1, 2], 0, []);
    StartOfBoth();
    hide Started, After, Finished, Reports, Fits;
    OfferedByCount(BOTH, [1, 2, 3], b, [GetReady, Done(1), Done(1)]);
    assert BOTH[3] == {1, 2} && |{1, 2}| == 2;
    TwoReportsOfOne({1, 2});
    TwoReportsOfOne({2});
    NotReported(BOTH, [1, 2, 3], b, [GetReady, Done(1), Done(1)], 2);
  }

  /** Two nodes without predecessors: after two reports of 1 the sorter is not active although 2 is unfinished. */
  lemma InactiveTooEarly() returns (b: Books)
    ensures Started(APART, [1, 2], b) && Fits(APART, [1, 2], b)
    ensures var calls := [GetReady, Done(1), Done(1)];
            After(APART, [1, 2], b, calls).nfinished >= |APART| && 2 in APART && 2 !in Finished(APART, [1, 2], b, calls)
  {
    b := Books(map[1 := 0, 2 := 0], [1, 2], 0, []);
    StartOfApart();
    hide Started, After, Finished, Reports, Fits;
    OfferedByCount(APART, [1, 2], b, [GetReady, Done(1), Done(1)]);
    ApartSize();
    TwoReportsOfOne({1, 2});
    TwoReportsOfOne({2});
    NotReported(APART, [1, 2], b, [GetReady, Done(1), Done(1)], 2);
  }
}
