/**
 Sequences of guarded fetches, one after another in store-commit order, and
 what the view limit and the expiry guarantee over them.
 */
module FetchSequences {
  import opened Wrappers
  import opened PasteSchema
  import opened Guard
  import opened Store

  /** One GET request: the id asked for and the request's reference time. */
  datatype Request = Request(id: Id, now: int)

  /** The responses of a run of fetches (`None` is "not found") and the collection at its end. */
  datatype Trace = Trace(results: seq<Option<Paste>>, final: map<Id, Paste>)

  /** Applies `Consume` to each request in order. */
  function Run(m: map<Id, Paste>, reqs: seq<Request>): (t: Trace)
    ensures |t.results| == |reqs|
    ensures t.final.Keys == m.Keys
    decreases |reqs|
  {
    if reqs == [] then Trace([], m)
    else
      var f := Consume(m, reqs[0].id, reqs[0].now);
      var rest := Run(f.after, reqs[1..]);
      Trace([f.found] + rest.results, rest.final)
  }

  /** Whether paste `p` respects its view limit. */
  predicate WithinLimit(p: Paste)
  {
    p.maxViews.Some? ==> p.currentViews <= p.maxViews.value
  }

  /** One fetch changes nothing but the counter of the requested paste. */
  lemma ConsumeFrame(m: map<Id, Paste>, id: Id, now: int, x: Id)
    requires x in m
    ensures x in Consume(m, id, now).after
    ensures var q := Consume(m, id, now).after[x];
            && q.content == m[x].content
            && q.maxViews == m[x].maxViews
            && q.expiresAt == m[x].expiresAt
            && q.currentViews == m[x].currentViews + (if x == id && Consume(m, id, now).found.Some? then 1 else 0)
  {
  }

  /** A successful fetch never raises the counter past the limit. */
  lemma ConsumeKeepsWithinLimit(m: map<Id, Paste>, id: Id, now: int, x: Id)
    requires x in m && WithinLimit(m[x])
    ensures WithinLimit(Consume(m, id, now).after[x])
  {
  }

  /** Over any run of fetches, a paste that starts within its limit stays within it. */
  lemma {:induction false} RunKeepsWithinLimit(m: map<Id, Paste>, reqs: seq<Request>, x: Id)
    requires x in m && WithinLimit(m[x])
    ensures WithinLimit(Run(m, reqs).final[x])
    decreases |reqs|
  {
    if reqs != [] {
      var f := Consume(m, reqs[0].id, reqs[0].now);
      ConsumeKeepsWithinLimit(m, reqs[0].id, reqs[0].now, x);
      RunKeepsWithinLimit(f.after, reqs[1..], x);
    }
  }

  /**
   Once paste `x` is inaccessible at time `t`, no run of fetches at times no
   earlier than `t` finds it, alters it, or makes it accessible again.
   */
  lemma {:induction false} InaccessibleStaysInaccessible(m: map<Id, Paste>, reqs: seq<Request>, x: Id, t: int)
    requires x in m && !IsAccessible(m[x], t)
    requires forall i :: 0 <= i < |reqs| ==> t <= reqs[i].now
    ensures Run(m, reqs).final[x] == m[x]
    ensures forall t' :: t <= t' ==> !IsAccessible(Run(m, reqs).final[x], t')
    ensures forall i :: 0 <= i < |reqs| && reqs[i].id == x ==> Run(m, reqs).results[i].None?
    decreases |reqs|
  {
    if reqs != [] {
      var r := reqs[0];
      var f := Consume(m, r.id, r.now);
      if r.id == x {
        LaterIsNoMoreAccessible(m[x], t, r.now);
      }
      assert f.after[x] == m[x];
      var tail := reqs[1..];
      assert forall i :: 0 <= i < |tail| ==> t <= tail[i].now by {
        forall i | 0 <= i < |tail| ensures t <= tail[i].now {
          assert tail[i] == reqs[i + 1];
        }
      }
      InaccessibleStaysInaccessible(f.after, tail, x, t);
      var run := Run(m, reqs);
      assert run.results == [f.found] + Run(f.after, tail).results;
      forall i | 0 <= i < |reqs| && reqs[i].id == x ensures run.results[i].None? {
        if i > 0 {
          assert tail[i - 1] == reqs[i];
        }
      }
      forall t' | t <= t' ensures !IsAccessible(run.final[x], t') {
        LaterIsNoMoreAccessible(m[x], t, t');
      }
    }
  }

  /** All requests of `reqs` ask for paste `id` at the same reference time `now`. */
  predicate AllAt(reqs: seq<Request>, id: Id, now: int)
  {
    forall i :: 0 <= i < |reqs| ==> reqs[i] == Request(id, now)
  }

  /**
   Repeated fetches of one paste with view limit `n`, at a fixed time before
   its expiry, starting from `c` views: the k-th fetch (counting from 0)
   succeeds exactly when c + k < n, and then returns the paste with c + k + 1 views.
   */
  lemma {:induction false} RepeatedFetches(m: map<Id, Paste>, reqs: seq<Request>, id: Id, now: int, n: int)
    requires id in m && m[id].maxViews == Some(n) && TimeOk(m[id], now)
    requires AllAt(reqs, id, now)
    ensures forall k :: 0 <= k < |reqs| ==>
              (Run(m, reqs).results[k].Some? <==> m[id].currentViews + k < n)
    ensures forall k :: 0 <= k < |reqs| && Run(m, reqs).results[k].Some? ==>
              Run(m, reqs).results[k].value == m[id].(currentViews := m[id].currentViews + k + 1)
    decreases |reqs|
  {
    if reqs != [] {
      var p := m[id];
      var f := Consume(m, id, now);
      assert reqs[0] == Request(id, now);
      var tail := reqs[1..];
      assert AllAt(tail, id, now) by {
        forall i | 0 <= i < |tail| ensures tail[i] == Request(id, now) {
          assert tail[i] == reqs[i + 1];
        }
      }
      RepeatedFetches(f.after, tail, id, now, n);
      var run := Run(m, reqs);
      var rest := Run(f.after, tail);
      assert run.results == [f.found] + rest.results;
      if p.currentViews < n {
        assert f.after[id] == p.(currentViews := p.currentViews + 1);
      } else {
        assert f.after == m;
      }
      forall k | 0 <= k < |reqs|
        ensures run.results[k].Some? <==> p.currentViews + k < n
        ensures run.results[k].Some? ==> run.results[k].value == p.(currentViews := p.currentViews + k + 1)
      {
        if k > 0 {
          assert run.results[k] == rest.results[k - 1];
        }
      }
    }
  }

  /** A paste with no view limit and no expiry is found by every request for it. */
  lemma {:induction false} UnlimitedAlwaysFound(m: map<Id, Paste>, reqs: seq<Request>, x: Id)
    requires x in m && m[x].maxViews.None? && m[x].expiresAt.None?
    ensures forall i :: 0 <= i < |reqs| && reqs[i].id == x ==>
              Run(m, reqs).results[i].Some? && Run(m, reqs).results[i].value.content == m[x].content
    decreases |reqs|
  {
    if reqs != [] {
      var f := Consume(m, reqs[0].id, reqs[0].now);
      var tail := reqs[1..];
      UnlimitedAlwaysFound(f.after, tail, x);
      var run := Run(m, reqs);
      assert run.results == [f.found] + Run(f.after, tail).results;
      forall i | 0 <= i < |reqs| && reqs[i].id == x
        ensures run.results[i].Some? && run.results[i].value.content == m[x].content
      {
        if i > 0 {
          assert tail[i - 1] == reqs[i];
        }
      }
    }
  }
}
